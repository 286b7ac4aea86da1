/** What schemas accept, before and after the rewrite of amos/src/agent.rs. */
module SchemaMeaning {
  import opened Prelude
  import opened Json
  import opened SchemaSanitizer

  // ----- The source language: JSON Schema 2020-12 -----

  /** Everything the rewrite drops (patterns, bounds, const, not, ...), as an
      arbitrary extra constraint that an object schema puts on a value. */
  type Dropped = (map<string, Value>, Value) -> bool

  predicate PlainName(name: string) {
    '/' !in name && '~' !in name && '%' !in name
  }

  /** JSON pointer resolution of the two local forms, `#/$defs/Name` and `#/definitions/Name`. */
  function Resolve(root: Value, r: string): Option<Value> {
    if "#/$defs/" <= r && PlainName(r[8..]) && Get(root, "$defs").Some? then Get(Get(root, "$defs").value, r[8..])
    else if "#/definitions/" <= r && PlainName(r[14..]) && Get(root, "definitions").Some? then
      Get(Get(root, "definitions").value, r[14..])
    else None
  }

  /** What the rewrite looks up for the same reference. */
  function Lookup(root: Value, r: string): Option<Value> {
    Get(Object(Definitions(root)), LastSegment(r))
  }

  predicate TypeOk(o: map<string, Value>, v: Value) {
    "type" in o ==>
      match o["type"]
      case Text(word) => HasType(v, word)
      case Array(ts) => exists i | 0 <= i < |ts| :: ts[i].Text? && HasType(v, ts[i].text)
      case _ => false
  }

  predicate EnumOk(o: map<string, Value>, v: Value) {
    "enum" in o && o["enum"].Array? ==> v in o["enum"].items
  }

  predicate RequiredOk(o: map<string, Value>, v: Value) {
    v.Object? && "required" in o && o["required"].Array? ==>
      forall r | r in o["required"].items :: r.Text? ==> r.text in v.members
  }

  /** `node` accepts `v`, established within `fuel` nested applicators. Keywords
      of one object are a conjunction, siblings of `$ref` and of unions included. */
  ghost predicate Accepts(root: Value, dropped: Dropped, node: Value, v: Value, fuel: nat)
    decreases fuel, 1
  {
    fuel > 0 &&
    match node
    case Bool(b) => b
    case Object(o) =>
      && InPlaceOk(root, dropped, o, v, fuel)
      && TypeOk(o, v) && EnumOk(o, v) && RequiredOk(o, v)
      && ChildrenOk(root, dropped, o, v, fuel)
      && dropped(o, v)
    case _ => false
  }

  /** The applicators that test the value itself: `$ref` and the unions. */
  ghost predicate InPlaceOk(root: Value, dropped: Dropped, o: map<string, Value>, v: Value, fuel: nat)
    requires fuel > 0
    decreases fuel, 0, 1
  {
    && ("$ref" in o && o["$ref"].Text? ==>
          Resolve(root, o["$ref"].text).Some?
              && Accepts(root, dropped, Resolve(root, o["$ref"].text).value, v, fuel - 1))
    && ("anyOf" in o && o["anyOf"].Array? ==>
          exists i | 0 <= i < |o["anyOf"].items| :: Accepts(root, dropped, o["anyOf"].items[i], v, fuel - 1))
    && ("oneOf" in o && o["oneOf"].Array? ==>
          exists i | 0 <= i < |o["oneOf"].items| :: ExactlyOne(root, dropped, o["oneOf"].items, i, v, fuel))
    && ("allOf" in o && o["allOf"].Array? ==>
          forall i | 0 <= i < |o["allOf"].items| :: Accepts(root, dropped, o["allOf"].items[i], v, fuel - 1))
  }

  /** The applicators that test the parts of the value: `properties` and `items`. */
  ghost predicate ChildrenOk(root: Value, dropped: Dropped, o: map<string, Value>, v: Value, fuel: nat)
    requires fuel > 0
    decreases fuel, 0, 1
  {
    && (v.Object? && "properties" in o && o["properties"].Object? ==>
          forall k | k in o["properties"].members && k in v.members ::
            Accepts(root, dropped, o["properties"].members[k], v.members[k], fuel - 1))
    && (v.Array? && "items" in o ==>
          forall i | 0 <= i < |v.items| :: Accepts(root, dropped, o["items"], v.items[i], fuel - 1))
  }

  /** Branch `i` accepts and no other does. */
  ghost predicate ExactlyOne(root: Value, dropped: Dropped, branches: seq<Value>, i: nat, v: Value, fuel: nat)
    requires i < |branches| && fuel > 0
    decreases fuel, 0, 0
  {
    && Accepts(root, dropped, branches[i], v, fuel - 1)
    && forall j | 0 <= j < |branches| && j != i :: !Accepts(root, dropped, branches[j], v, fuel - 1)
  }

  // ----- The target dialect -----

  /** A schema of the dialect accepts null when `nullable`, else whatever its six other keywords accept. */
  ghost predicate DialectAccepts(s: Value, v: Value)
    decreases v
  {
    s.Object? &&
    ((v == Null && Get(s, "nullable") == Some(Bool(true))) ||
     (&& TypeOk(s.members, v) && EnumOk(s.members, v) && RequiredOk(s.members, v)
      && (v.Object? && "properties" in s.members && s.members["properties"].Object? ==>
            forall k | k in s.members["properties"].members && k in v.members ::
              DialectAccepts(s.members["properties"].members[k], v.members[k]))
      && (v.Array? && "items" in s.members ==>
            forall i | 0 <= i < |v.items| :: DialectAccepts(s.members["items"], v.items[i]))))
  }

  // ----- The fragment on which the rewrite only relaxes -----

  function NonNullCount(branches: seq<Value>): nat {
    if branches == [] then 0 else (if IsNullBranch(branches[0]) then 0 else 1) + NonNullCount(branches[1..])
  }

  function NonNullWords(ts: seq<Value>): nat {
    if ts == [] then 0 else (if ts[0].Text? && ts[0].text != "null" then 1 else 0) + NonNullWords(ts[1..])
  }

  const NON_NULL_WORDS: set<string> := {"boolean", "number", "integer", "string", "array", "object"}

  /** The type word of the rewritten plain node. */
  function KeptWord(o: map<string, Value>): string {
    if "enum" in o then "string" else TypeWord(o)
  }

  /** Whatever has type `word` has type `kept`. */
  predicate Covers(kept: string, word: string) {
    word == kept || (word == "integer" && kept == "number")
  }

  /** The rewrite loses none of the node's own values: every listed value the type
      admits is a string, or null where the type array names it; without a list, every
      known type word is covered by the kept one. */
  predicate Typed(o: map<string, Value>) {
    if "enum" in o && o["enum"].Array? then
      forall e | e in o["enum"].items && TypeOk(o, e) :: e.Text? || (e == Null && TypeAllowsNull(o))
    else
      "type" in o &&
      match o["type"]
      case Text(word) => word in NON_NULL_WORDS + {"null"} ==> Covers(KeptWord(o), word)
      case Array(ts) => forall t | t in ts && t.Text? && t.text in NON_NULL_WORDS :: Covers(KeptWord(o), t.text)
      case _ => true
  }

  ghost predicate Supported(root: Value, node: Value, depth: nat)
    decreases MAX_DEPTH + 1 - depth
  {
    && depth <= MAX_DEPTH
    && node.Object?
    && var o := node.members;
       if "$ref" in o && o["$ref"].Text? then
         var r := o["$ref"].text;
         Resolve(root, r).Some? && Lookup(root, r) == Resolve(root, r)
             && Supported(root, Resolve(root, r).value, depth + 1)
       else if UnionKey(o).Some? then
         var branches := o[UnionKey(o).value].items;
         if NonNullCount(branches) == 0 then UnionKey(o).value == "allOf" ==> branches != []
         else (UnionKey(o).value == "allOf" || NonNullCount(branches) == 1)
              && Supported(root, FirstNonNull(branches, node), depth + 1)
       else
         && Typed(o)
         && ("properties" in o && o["properties"].Object? ==>
               forall k | k in o["properties"].members :: Supported(root, o["properties"].members[k], depth + 1))
         && ("items" in o ==> Supported(root, o["items"], depth + 1))
  }

  // ----- Helper facts -----

  lemma {:induction false} FirstNonNullFound(branches: seq<Value>, fallback: Value)
    ensures NonNullCount(branches) == 0 ==>
              FirstNonNull(branches, fallback) == fallback && forall b | b in branches :: IsNullBranch(b)
    ensures NonNullCount(branches) > 0 ==>
              FirstNonNull(branches, fallback) in branches && !IsNullBranch(FirstNonNull(branches, fallback))
  {
    if branches == [] {
    } else {
      FirstNonNullFound(branches[1..], fallback);
    }
  }

  lemma {:induction false} SoleNonNull(branches: seq<Value>, fallback: Value, b: Value)
    requires NonNullCount(branches) == 1 && b in branches && !IsNullBranch(b)
    ensures b == FirstNonNull(branches, fallback)
  {
    if IsNullBranch(branches[0]) {
      SoleNonNull(branches[1..], fallback, b);
    } else {
      FirstNonNullFound(branches[1..], fallback);
    }
  }

  /** The word kept from a type array is the only non-null word it has. */
  lemma {:induction false} SoleTypeWord(ts: seq<Value>, t: Value)
    requires NonNullWords(ts) <= 1 && t in ts && t.Text? && t.text != "null"
    ensures t.text == FirstTypeWord(ts)
  {
    if ts[0].Text? && ts[0].text != "null" {
      NoMoreWords(ts[1..], t);
    } else {
      SoleTypeWord(ts[1..], t);
    }
  }

  lemma {:induction false} NoMoreWords(ts: seq<Value>, t: Value)
    requires NonNullWords(ts) == 0 && t.Text? && t.text != "null"
    ensures t !in ts
  {
    if ts == [] {
    } else {
      NoMoreWords(ts[1..], t);
    }
  }

  /** A union with nothing but null branches collapses, level by level, to a nullable string. */
  lemma {:induction false} NullUnionCollapses(node: Value, defs: map<string, Value>, depth: nat)
    requires node.Object? && !("$ref" in node.members && node.members["$ref"].Text?)
    requires UnionKey(node.members).Some? && NonNullCount(node.members[UnionKey(node.members).value].items) == 0
    ensures Get(Sanitize(node, defs, depth), "type") == Some(Text("string"))
    ensures depth <= MAX_DEPTH && node.members[UnionKey(node.members).value].items != [] ==>
              Get(Sanitize(node, defs, depth), "nullable") == Some(Bool(true))
    decreases MAX_DEPTH + 1 - depth
  {
    if depth > MAX_DEPTH {
    } else {
      var branches := node.members[UnionKey(node.members).value].items;
      FirstNonNullFound(branches, node);
      NullUnionCollapses(node, defs, depth + 1);
      if branches != [] {
        assert branches[0] in branches;
      }
    }
  }

  lemma NullBranchAcceptsNullOnly(root: Value, dropped: Dropped, b: Value, v: Value, fuel: nat)
    requires IsNullBranch(b) && Accepts(root, dropped, b, v, fuel)
    ensures v == Null
  {
  }

  lemma NullableAcceptsMore(out: Value, nullable: bool, description: Option<Value>, v: Value)
    requires WellFormed(out)
    ensures DialectAccepts(Decorate(out, nullable, description), v) <==>
              DialectAccepts(out, v) || (nullable && v == Null)
  {
  }

  // ----- The rewrite only relaxes -----

  lemma {:induction false} SanitizeRelaxes(root: Value, dropped: Dropped, node: Value, depth: nat, v: Value, fuel: nat)
    requires Supported(root, node, depth)
    requires Accepts(root, dropped, node, v, fuel)
    ensures DialectAccepts(Sanitize(node, Definitions(root), depth), v)
    decreases MAX_DEPTH + 1 - depth
  {
    var o := node.members;
    if "$ref" in o && o["$ref"].Text? {
      SanitizeRelaxes(root, dropped, Resolve(root, o["$ref"].text).value, depth + 1, v, fuel - 1);
    } else if UnionKey(o).Some? {
      UnionAccepts(root, dropped, o, v, fuel);
      UnionRelaxes(root, dropped, node, depth, v, fuel - 1);
    } else {
      PlainRelaxes(root, dropped, node, depth, v, fuel);
    }
  }

  /** A union's keyword makes some branch accept; for `allOf`, every branch. */
  lemma UnionAccepts(root: Value, dropped: Dropped, o: map<string, Value>, v: Value, fuel: nat)
    requires UnionKey(o).Some? && Accepts(root, dropped, Object(o), v, fuel)
    ensures fuel > 0 && SomeBranchAccepts(root, dropped, UnionKey(o).value, o[UnionKey(o).value].items, v, fuel - 1)
  {
    assert InPlaceOk(root, dropped, o, v, fuel);
    if UnionKey(o).value == "oneOf" {
      var i :| 0 <= i < |o["oneOf"].items| && ExactlyOne(root, dropped, o["oneOf"].items, i, v, fuel);
    }
  }

  ghost predicate SomeBranchAccepts(root: Value, dropped: Dropped, key: string, branches: seq<Value>, v: Value,
          fuel: nat)
  {
    if key == "allOf" then forall i | 0 <= i < |branches| :: Accepts(root, dropped, branches[i], v, fuel)
    else exists i | 0 <= i < |branches| :: Accepts(root, dropped, branches[i], v, fuel)
  }

  lemma {:induction false} UnionRelaxes(root: Value, dropped: Dropped, node: Value, depth: nat, v: Value, fuel: nat)
    requires Supported(root, node, depth)
    requires !("$ref" in node.members && node.members["$ref"].Text?) && UnionKey(node.members).Some?
    requires SomeBranchAccepts(root, dropped, UnionKey(node.members).value,
               node.members[UnionKey(node.members).value].items, v, fuel)
    ensures DialectAccepts(Sanitize(node, Definitions(root), depth), v)
    decreases MAX_DEPTH + 1 - depth, 0
  {
    var key := UnionKey(node.members).value;
    var branches := node.members[key].items;
    if NonNullCount(branches) == 0 {
      NullUnionRelaxes(root, dropped, node, depth, v, fuel);
    } else {
      var first := FirstNonNull(branches, node);
      BranchChoice(root, dropped, key, branches, node, v, fuel);
      if Accepts(root, dropped, first, v, fuel) {
        SanitizeRelaxes(root, dropped, first, depth + 1, v, fuel);
      }
      CollapsedAccepts(node, Definitions(root), depth, v);
    }
  }

  /** The collapsed union accepts what the kept branch accepts, and null when it had a null branch. */
  lemma CollapsedAccepts(node: Value, defs: map<string, Value>, depth: nat, v: Value)
    requires depth <= MAX_DEPTH && node.Object? && UnionKey(node.members).Some?
    requires !("$ref" in node.members && node.members["$ref"].Text?)
    ensures var branches := node.members[UnionKey(node.members).value].items;
            DialectAccepts(Sanitize(node, defs, depth), v) <==>
              DialectAccepts(Sanitize(FirstNonNull(branches, node), defs, depth + 1), v)
                  || (HasNullBranch(branches) && v == Null)
  {
    var branches := node.members[UnionKey(node.members).value].items;
    var out := Sanitize(FirstNonNull(branches, node), defs, depth + 1);
    SanitizeWellFormed(FirstNonNull(branches, node), defs, depth + 1);
    NullableAcceptsMore(out, HasNullBranch(branches), Get(node, "description"), v);
    assert Sanitize(node, defs, depth) == Decorate(out, HasNullBranch(branches), Get(node, "description"));
  }

  lemma NullUnionRelaxes(root: Value, dropped: Dropped, node: Value, depth: nat, v: Value, fuel: nat)
    requires depth <= MAX_DEPTH && node.Object? && UnionKey(node.members).Some?
    requires !("$ref" in node.members && node.members["$ref"].Text?)
    requires NonNullCount(node.members[UnionKey(node.members).value].items) == 0
    requires UnionKey(node.members).value == "allOf" ==> node.members["allOf"].items != []
    requires SomeBranchAccepts(root, dropped, UnionKey(node.members).value,
               node.members[UnionKey(node.members).value].items, v, fuel)
    ensures DialectAccepts(Sanitize(node, Definitions(root), depth), v)
  {
    var branches := node.members[UnionKey(node.members).value].items;
    FirstNonNullFound(branches, node);
    NullUnionCollapses(node, Definitions(root), depth);
    var i :| 0 <= i < |branches| && Accepts(root, dropped, branches[i], v, fuel);
    assert branches[i] in branches;
    NullBranchAcceptsNullOnly(root, dropped, branches[i], v, fuel);
    SanitizeWellFormed(node, Definitions(root), depth);
  }

  /** Whatever a supported union accepts, the branch kept accepts, or it is the null of a null branch. */
  lemma BranchChoice(root: Value, dropped: Dropped, key: string, branches: seq<Value>, fallback: Value, v: Value,
          fuel: nat)
    requires NonNullCount(branches) > 0 && (key == "allOf" || NonNullCount(branches) == 1)
    requires SomeBranchAccepts(root, dropped, key, branches, v, fuel)
    ensures Accepts(root, dropped, FirstNonNull(branches, fallback), v, fuel) || (HasNullBranch(branches) && v == Null)
  {
    FirstNonNullFound(branches, fallback);
    if key != "allOf" {
      var i :| 0 <= i < |branches| && Accepts(root, dropped, branches[i], v, fuel);
      if IsNullBranch(branches[i]) {
        NullBranchAcceptsNullOnly(root, dropped, branches[i], v, fuel);
      } else {
        SoleNonNull(branches, fallback, branches[i]);
      }
    }
  }

  lemma {:induction false} PlainRelaxes(root: Value, dropped: Dropped, node: Value, depth: nat, v: Value, fuel: nat)
    requires Supported(root, node, depth) && Accepts(root, dropped, node, v, fuel)
    requires !("$ref" in node.members && node.members["$ref"].Text?) && UnionKey(node.members).None?
    ensures DialectAccepts(Sanitize(node, Definitions(root), depth), v)
    decreases MAX_DEPTH + 1 - depth, 0, 1
  {
    var o, defs := node.members, Definitions(root);
    var props, elements := CleanProperties(o, defs, depth), CleanItems(o, defs, depth);
    ChildrenRelax(root, dropped, node, depth, v, fuel);
    assert TypeOk(o, v) && EnumOk(o, v) && RequiredOk(o, v);
    TypeRelaxes(o, v);
    AssembleAccepts(o, props, elements, v);
  }

  lemma {:induction false} ChildrenRelax(root: Value, dropped: Dropped, node: Value, depth: nat, v: Value, fuel: nat)
    requires Supported(root, node, depth) && Accepts(root, dropped, node, v, fuel)
    requires !("$ref" in node.members && node.members["$ref"].Text?) && UnionKey(node.members).None?
    ensures var o, defs := node.members, Definitions(root);
            ChildrenAccept(CleanProperties(o, defs, depth), CleanItems(o, defs, depth), v)
    decreases MAX_DEPTH + 1 - depth, 0, 0
  {
    var o, defs := node.members, Definitions(root);
    if v.Object? && "properties" in o && o["properties"].Object? {
      var ps := o["properties"].members;
      forall k | k in ps && k in v.members ensures DialectAccepts(Sanitize(ps[k], defs, depth + 1), v.members[k]) {
        SanitizeRelaxes(root, dropped, ps[k], depth + 1, v.members[k], fuel - 1);
      }
    }
    if v.Array? && "items" in o {
      forall i | 0 <= i < |v.items| ensures DialectAccepts(Sanitize(o["items"], defs, depth + 1), v.items[i]) {
        SanitizeRelaxes(root, dropped, o["items"], depth + 1, v.items[i], fuel - 1);
      }
    }
  }

  /** What the children of an assembled object schema demand of a value. */
  ghost predicate ChildrenAccept(props: Option<Value>, elements: Option<Value>, v: Value) {
    && (v.Object? && props.Some? && props.value.Object? ==>
          forall k | k in props.value.members && k in v.members :: DialectAccepts(props.value.members[k], v.members[k]))
    && (v.Array? && elements.Some? ==> forall i | 0 <= i < |v.items| :: DialectAccepts(elements.value, v.items[i]))
  }

  /** The meaning of an assembled object schema, keyword by keyword. */
  lemma AssembleAccepts(o: map<string, Value>, props: Option<Value>, elements: Option<Value>, v: Value)
    requires props.Some? ==> props.value.Object?
    ensures DialectAccepts(Object(Assemble(o, props, elements)), v) <==>
              || (v == Null && TypeAllowsNull(o))
              || (&& HasType(v, if "enum" in o then "string" else TypeWord(o))
                  && EnumOk(o, v) && (props.Some? ==> RequiredOk(o, v)) && ChildrenAccept(props, elements, v))
  {
    AssembledMembers(o, props, elements);
  }

  lemma AssembledMembers(o: map<string, Value>, props: Option<Value>, elements: Option<Value>)
    ensures var m := Assemble(o, props, elements);
            && "type" in m && m["type"] == Text(if "enum" in o then "string" else TypeWord(o))
            && ("nullable" in m <==> TypeAllowsNull(o)) && ("nullable" in m ==> m["nullable"] == Bool(true))
            && ("enum" in m <==> "enum" in o) && ("enum" in o ==> m["enum"] == o["enum"])
            && ("properties" in m <==> props.Some?) && (props.Some? ==> m["properties"] == props.value)
            && ("required" in m <==> props.Some? && "required" in o)
            && ("required" in m ==> m["required"] == o["required"])
            && ("items" in m <==> elements.Some?) && (elements.Some? ==> m["items"] == elements.value)
  {
  }

  /** The kept type word still admits every value of the node, null aside. */
  lemma TypeRelaxes(o: map<string, Value>, v: Value)
    requires Typed(o) && TypeOk(o, v) && EnumOk(o, v)
    ensures (v == Null && TypeAllowsNull(o)) || HasType(v, KeptWord(o))
  {
    if !("enum" in o && o["enum"].Array?) && o["type"].Array? {
      var ts := o["type"].items;
      var i :| 0 <= i < |ts| && ts[i].Text? && HasType(v, ts[i].text);
      assert ts[i] in ts;
      if ts[i].text != "null" {
        assert Covers(KeptWord(o), ts[i].text);
      }
    }
  }
}
