/** The schema rewrite of amos/src/agent.rs: arbitrary JSON Schema in, the
    narrow dialect of the function-calling API out. */
module SchemaSanitizer {
  import opened Prelude
  import opened Json

  const MAX_DEPTH: nat := 12

  const STRING_SCHEMA: Value := Object(map["type" := Text("string")])

  /** A union branch counts as the null branch when its `type` is the word "null". */
  predicate IsNullBranch(b: Value) {
    Get(b, "type") == Some(Text("null"))
  }

  predicate HasNullBranch(branches: seq<Value>) {
    exists i | 0 <= i < |branches| :: IsNullBranch(branches[i])
  }

  /** The first branch that is not the null branch, else the fallback. */
  function FirstNonNull(branches: seq<Value>, fallback: Value): Value {
    if branches == [] then fallback
    else if IsNullBranch(branches[0]) then FirstNonNull(branches[1..], fallback)
    else branches[0]
  }

  /** The text after the last '/'. */
  function LastSegment(r: string): string {
    if '/' in r then LastSegment(r[1..]) else r
  }

  /** The keyword whose array is collapsed: the first of anyOf, oneOf, allOf that holds one. */
  function UnionKey(o: map<string, Value>): Option<string> {
    if "anyOf" in o && o["anyOf"].Array? then Some("anyOf")
    else if "oneOf" in o && o["oneOf"].Array? then Some("oneOf")
    else if "allOf" in o && o["allOf"].Array? then Some("allOf")
    else None
  }

  /** The first string other than "null" in a `type` array, else "string". */
  function FirstTypeWord(ts: seq<Value>): string {
    if ts == [] then "string"
    else if ts[0].Text? && ts[0].text != "null" then ts[0].text
    else FirstTypeWord(ts[1..])
  }

  /** The word kept for `type`, before an enum forces it to "string". */
  function TypeWord(o: map<string, Value>): string {
    if "type" in o && o["type"].Text? then o["type"].text
    else if "type" in o && o["type"].Array? then FirstTypeWord(o["type"].items)
    else if "properties" in o then "object"
    else if "items" in o then "array"
    else "string"
  }

  predicate TypeAllowsNull(o: map<string, Value>) {
    "type" in o && o["type"].Array? && Text("null") in o["type"].items
  }

  function Insert(out: map<string, Value>, key: string, v: Option<Value>): map<string, Value> {
    match v
    case Some(x) => out[key := x]
    case None => out
  }

  /** `sanitize_schema`. */
  function Sanitize(node: Value, defs: map<string, Value>, depth: nat): Value
    decreases MAX_DEPTH + 1 - depth, 1
  {
    if depth > MAX_DEPTH || !node.Object? then STRING_SCHEMA
    else
      var o := node.members;
      if "$ref" in o && o["$ref"].Text? then
        var name := LastSegment(o["$ref"].text);
        if name in defs then Sanitize(defs[name], defs, depth + 1) else STRING_SCHEMA
      else
        match UnionKey(o)
        case Some(key) =>
          var branches := o[key].items;
          var out := Sanitize(FirstNonNull(branches, node), defs, depth + 1);
          Decorate(out, HasNullBranch(branches), Get(node, "description"))
        case None =>
          Object(Assemble(o, CleanProperties(o, defs, depth), CleanItems(o, defs, depth)))
  }

  /** The rewritten `properties`, when that is an object. */
  function CleanProperties(o: map<string, Value>, defs: map<string, Value>, depth: nat): Option<Value>
    requires depth <= MAX_DEPTH
    decreases MAX_DEPTH + 1 - depth, 0
  {
    if "properties" in o && o["properties"].Object? then
      var ps := o["properties"].members;
      Some(Object(map k | k in ps :: Sanitize(ps[k], defs, depth + 1)))
    else None
  }

  function CleanItems(o: map<string, Value>, defs: map<string, Value>, depth: nat): Option<Value>
    requires depth <= MAX_DEPTH
    decreases MAX_DEPTH + 1 - depth, 0
  {
    if "items" in o then Some(Sanitize(o["items"], defs, depth + 1)) else None
  }

  /** What a union adds to its collapsed branch. */
  function Decorate(out: Value, nullable: bool, description: Option<Value>): Value {
    if !out.Object? then out
    else
      var m := if nullable then out.members["nullable" := Bool(true)] else out.members;
      Object(if "description" in m then m else Insert(m, "description", description))
  }

  /** The rewritten object of a node that is neither a reference nor a union. */
  function Assemble(o: map<string, Value>, props: Option<Value>, elements: Option<Value>): map<string, Value> {
    var m0 := map["type" := Text(TypeWord(o))];
    var m1 := if TypeAllowsNull(o) then m0["nullable" := Bool(true)] else m0;
    var m2 := Insert(m1, "description", Get(Object(o), "description"));
    var m3 := if "enum" in o then m2["enum" := o["enum"]]["type" := Text("string")] else m2;
    var m4 := if props.Some? then Insert(m3["properties" := props.value], "required", Get(Object(o), "required"))
        else m3;
    Insert(m4, "items", elements)
  }

  /** The definitions table: `$defs` when present, else `definitions`; anything but an object is empty. */
  function Definitions(root: Value): map<string, Value> {
    var d := if Get(root, "$defs").Some? then Get(root, "$defs") else Get(root, "definitions");
    if d.Some? && d.value.Object? then d.value.members else map[]
  }

  const EMPTY_OBJECT_SCHEMA: Value := Object(map["type" := Text("object"), "properties" := Object(map[])])

  /** `sanitize_schema_root`. */
  function SanitizeRoot(schema: Value): Value {
    var out := Sanitize(schema, Definitions(schema), 0);
    if Get(out, "type") == Some(Text("object")) then out else EMPTY_OBJECT_SCHEMA
  }

  // ----- The shape of the output -----

  const KEPT_KEYWORDS: set<string> :=
    {"type", "description", "enum", "properties", "required", "items", "nullable"}

  /** A schema of the target dialect, at every level. */
  predicate WellFormed(s: Value)
    decreases s
  {
    && s.Object?
    && s.members.Keys <= KEPT_KEYWORDS
    && "type" in s.members && s.members["type"].Text?
    && ("nullable" in s.members ==> s.members["nullable"] == Bool(true))
    && ("properties" in s.members ==>
          && s.members["properties"].Object?
          && forall k | k in s.members["properties"].members :: WellFormed(s.members["properties"].members[k]))
    && ("items" in s.members ==> WellFormed(s.members["items"]))
  }

  lemma DecorateKeepsShape(out: Value, nullable: bool, description: Option<Value>)
    requires WellFormed(out)
    ensures WellFormed(Decorate(out, nullable, description))
    ensures Get(Decorate(out, nullable, description), "type") == Get(out, "type")
  {
  }

  lemma AssembleShape(o: map<string, Value>, props: Option<Value>, elements: Option<Value>)
    requires props.Some? ==> props.value.Object? && forall k | k in props.value.members ::
               WellFormed(props.value.members[k])
    requires elements.Some? ==> WellFormed(elements.value)
    ensures WellFormed(Object(Assemble(o, props, elements)))
  {
  }

  lemma {:induction false} SanitizeWellFormed(node: Value, defs: map<string, Value>, depth: nat)
    ensures WellFormed(Sanitize(node, defs, depth))
    decreases MAX_DEPTH + 1 - depth
  {
    if depth > MAX_DEPTH || !node.Object? {
    } else {
      var o := node.members;
      if "$ref" in o && o["$ref"].Text? {
        var name := LastSegment(o["$ref"].text);
        if name in defs {
          SanitizeWellFormed(defs[name], defs, depth + 1);
        }
      } else if UnionKey(o).Some? {
        var branches := o[UnionKey(o).value].items;
        SanitizeWellFormed(FirstNonNull(branches, node), defs, depth + 1);
        DecorateKeepsShape(Sanitize(FirstNonNull(branches, node), defs, depth + 1), HasNullBranch(branches),
            Get(node, "description"));
      } else {
        if "properties" in o && o["properties"].Object? {
          var ps := o["properties"].members;
          forall k | k in ps ensures WellFormed(Sanitize(ps[k], defs, depth + 1)) {
            SanitizeWellFormed(ps[k], defs, depth + 1);
          }
        }
        if "items" in o {
          SanitizeWellFormed(o["items"], defs, depth + 1);
        }
        AssembleShape(o, CleanProperties(o, defs, depth), CleanItems(o, defs, depth));
      }
    }
  }

  lemma SanitizeRootWellFormed(schema: Value)
    ensures WellFormed(SanitizeRoot(schema))
    ensures Get(SanitizeRoot(schema), "type") == Some(Text("object"))
  {
    SanitizeWellFormed(schema, Definitions(schema), 0);
  }
}
