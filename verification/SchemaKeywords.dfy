/** What the rewrite of amos/src/agent.rs makes of each kind of node, told from the node
    itself: by position among a union's branches, by keyword, by the words it holds. */
module SchemaKeywords {
  import opened Prelude
  import opened Json
  import opened SchemaSanitizer
  import opened SchemaMeaning
  import opened SchemaTheorems

  predicate Holds(o: map<string, Value>, key: string, v: Value) {
    key in o && o[key] == v
  }

  predicate ArrayAt(o: map<string, Value>, key: string) {
    key in o && o[key].Array?
  }

  predicate Reference(o: map<string, Value>) {
    "$ref" in o && o["$ref"].Text?
  }

  predicate NullType(b: Value) {
    b.Object? && Holds(b.members, "type", Text("null"))
  }

  /** The union keyword that counts: an earlier one of anyOf, oneOf, allOf hides a later. */
  predicate UnionAt(o: map<string, Value>, key: string) {
    && ArrayAt(o, key)
    && (|| key == "anyOf"
        || (key == "oneOf" && !ArrayAt(o, "anyOf"))
        || (key == "allOf" && !ArrayAt(o, "anyOf") && !ArrayAt(o, "oneOf")))
  }

  predicate Plain(o: map<string, Value>) {
    !Reference(o) && !ArrayAt(o, "anyOf") && !ArrayAt(o, "oneOf") && !ArrayAt(o, "allOf")
  }

  // ----- Unions -----

  /** Branch `i` is the first that is not the null branch. */
  predicate FirstAt(branches: seq<Value>, i: nat) {
    i < |branches| && !NullType(branches[i]) && forall j | 0 <= j < i :: NullType(branches[j])
  }

  lemma {:induction false} FirstFound(branches: seq<Value>, fallback: Value, i: nat)
    requires FirstAt(branches, i)
    ensures FirstNonNull(branches, fallback) == branches[i]
  {
    if i == 0 {
    } else {
      FirstFound(branches[1..], fallback, i - 1);
    }
  }

  /** The rewrite of a union is that of its first non-null branch, nullable too when some branch
      is the null branch, with the union's description when the branch has none. */
  lemma UnionBecomesFirst(node: Value, key: string, i: nat, defs: map<string, Value>, depth: nat)
    requires depth <= MAX_DEPTH && node.Object? && !Reference(node.members) && UnionAt(node.members, key)
    requires FirstAt(node.members[key].items, i)
    ensures var branches := node.members[key].items;
            var kept, out := Sanitize(branches[i], defs, depth + 1), Sanitize(node, defs, depth);
            && kept.Object? && out.Object?
            && (forall k | k != "nullable" && k != "description" :: Get(out, k) == Get(kept, k))
            && Get(out, "nullable") ==
                 (if exists j :: 0 <= j < |branches| && NullType(branches[j]) then Some(Bool(true))
                  else Get(kept, "nullable"))
            && Get(out, "description") ==
                 (if Get(kept, "description").Some? then Get(kept, "description") else Get(node, "description"))
  {
    var branches := node.members[key].items;
    FirstFound(branches, node, i);
    assert forall b :: IsNullBranch(b) <==> NullType(b);
    SanitizeWellFormed(branches[i], defs, depth + 1);
  }

  /** So it accepts what that branch's rewrite accepts, and null where some branch is the null branch. */
  lemma UnionAcceptsFirst(node: Value, key: string, i: nat, defs: map<string, Value>, depth: nat, v: Value)
    requires depth <= MAX_DEPTH && node.Object? && !Reference(node.members) && UnionAt(node.members, key)
    requires FirstAt(node.members[key].items, i)
    ensures var branches := node.members[key].items;
            && Get(Sanitize(node, defs, depth), "type") == Get(Sanitize(branches[i], defs, depth + 1), "type")
            && (DialectAccepts(Sanitize(node, defs, depth), v) <==>
                  || DialectAccepts(Sanitize(branches[i], defs, depth + 1), v)
                  || (v == Null && exists j :: 0 <= j < |branches| && NullType(branches[j])))
  {
    UnionBecomesFirst(node, key, i, defs, depth);
    FirstFound(node.members[key].items, node, i);
    assert forall b :: IsNullBranch(b) <==> NullType(b);
    CollapsedAccepts(node, defs, depth, v);
  }

  // ----- References -----

  /** A local reference is rewritten as the definition named after its last slash, whatever is
      beside it dropped; without that definition it becomes the plain string schema. */
  lemma ReferenceBecomesTarget(node: Value, path: string, name: string, defs: map<string, Value>, depth: nat)
    requires depth <= MAX_DEPTH && node.Object? && '/' !in name
    requires Holds(node.members, "$ref", Text(path + "/" + name)) || Holds(node.members, "$ref", Text(name))
    ensures Sanitize(node, defs, depth) == if name in defs then Sanitize(defs[name], defs, depth + 1) else STRING_SCHEMA
  {
    if Holds(node.members, "$ref", Text(path + "/" + name)) {
      LastSegmentIsName(path, name);
    }
  }

  /** What is not an object, a boolean schema included, and what is nested more than twelve deep
      becomes the plain string schema. */
  lemma OthersBecomeStrings(node: Value, defs: map<string, Value>, depth: nat)
    requires !node.Object? || depth > 12
    ensures Sanitize(node, defs, depth) == Object(map["type" := Text("string")])
  {
  }

  // ----- Unions of nothing but null -----

  /** Such a union is tried again down to the depth limit: a string schema, nullable unless the
      union was empty, that keeps the description. */
  lemma {:induction false} NullUnionBecomesString(node: Value, key: string, defs: map<string, Value>, depth: nat)
    requires depth <= 12 && node.Object? && !Reference(node.members) && UnionAt(node.members, key)
    requires forall j | 0 <= j < |node.members[key].items| :: NullType(node.members[key].items[j])
    ensures var out := Sanitize(node, defs, depth);
            && Get(out, "type") == Some(Text("string"))
            && Get(out, "nullable") == (if node.members[key].items == [] then None else Some(Bool(true)))
            && Get(out, "description") == Get(node, "description")
            && out.Object? && out.members.Keys <= {"type", "nullable", "description"}
    decreases 12 - depth
  {
    var branches := node.members[key].items;
    FallsBack(branches, node);
    assert forall b :: IsNullBranch(b) <==> NullType(b);
    assert HasNullBranch(branches) <==> branches != [] by {
      if branches != [] {
        assert IsNullBranch(branches[0]);
      }
    }
    if depth == 12 {
      OthersBecomeStrings(node, defs, 13);
    } else {
      NullUnionBecomesString(node, key, defs, depth + 1);
    }
  }

  lemma {:induction false} FallsBack(branches: seq<Value>, fallback: Value)
    requires forall j | 0 <= j < |branches| :: NullType(branches[j])
    ensures FirstNonNull(branches, fallback) == fallback
  {
    if branches == [] {
    } else {
      FallsBack(branches[1..], fallback);
    }
  }

  // ----- Plain nodes -----

  predicate WordAt(ts: seq<Value>, i: nat) {
    i < |ts| && ts[i].Text? && ts[i] != Text("null")
  }

  predicate FirstWordAt(ts: seq<Value>, i: nat, word: string) {
    WordAt(ts, i) && ts[i] == Text(word) && forall j | 0 <= j < i :: !WordAt(ts, j)
  }

  /** `word` stands first among the words of `ts` other than "null", or there is none and it is "string". */
  predicate FirstWord(ts: seq<Value>, word: string) {
    || (exists i | 0 <= i < |ts| :: FirstWordAt(ts, i, word))
    || (word == "string" && forall i | 0 <= i < |ts| :: !WordAt(ts, i))
  }

  lemma {:induction false} FirstWordFound(ts: seq<Value>)
    ensures FirstWord(ts, FirstTypeWord(ts))
  {
    if ts == [] {
    } else if WordAt(ts, 0) {
      assert FirstWordAt(ts, 0, ts[0].text);
    } else {
      FirstWordFound(ts[1..]);
      assert forall i | 0 < i < |ts| :: WordAt(ts, i) <==> WordAt(ts[1..], i - 1);
      if i :| 0 <= i < |ts| - 1 && FirstWordAt(ts[1..], i, FirstTypeWord(ts[1..])) {
        assert FirstWordAt(ts, i + 1, FirstTypeWord(ts));
      }
    }
  }

  /** A plain node keeps `description` and `enum`, rewrites `properties` and `items` part by part,
      and keeps `required` beside `properties`; its type is the word it has, else the one its
      other keywords tell, and an `enum` makes it a string. */
  lemma PlainByKeyword(node: Value, defs: map<string, Value>, depth: nat)
    requires depth <= 12 && node.Object? && Plain(node.members)
    ensures Sanitize(node, defs, depth).Object?
    ensures var o, out := node.members, Sanitize(node, defs, depth).members;
            && KeptByKeyword(o, out)
            && (if "items" in o then Holds(out, "items", Sanitize(o["items"], defs, depth + 1)) else "items" !in out)
            && PropertiesKept(o, out, defs, depth)
  {
    var o := node.members;
    AssembledByKeyword(o, CleanProperties(o, defs, depth), CleanItems(o, defs, depth));
  }

  predicate Same(o: map<string, Value>, out: map<string, Value>, key: string) {
    Get(Object(o), key) == Get(Object(out), key)
  }

  predicate KeptByKeyword(o: map<string, Value>, out: map<string, Value>) {
    && out.Keys <= {"type", "nullable", "description", "enum", "properties", "required", "items"}
    && Same(o, out, "description") && Same(o, out, "enum")
    && (if "properties" in o && o["properties"].Object? then Same(o, out, "required") else "required" !in out)
    && (if ArrayAt(o, "type") && Text("null") in o["type"].items then Holds(out, "nullable", Bool(true))
        else "nullable" !in out)
    && "type" in out && out["type"].Text? && TypeKept(o, out["type"].text)
  }

  lemma TypeWordKept(o: map<string, Value>)
    ensures TypeKept(o, if "enum" in o then "string" else TypeWord(o))
  {
    if ArrayAt(o, "type") {
      FirstWordFound(o["type"].items);
    }
  }

  lemma AssembledByKeyword(o: map<string, Value>, props: Option<Value>, elements: Option<Value>)
    requires props.Some? <==> "properties" in o && o["properties"].Object?
    ensures KeptByKeyword(o, Assemble(o, props, elements))
    ensures var out := Assemble(o, props, elements);
            Get(Object(out), "properties") == props && Get(Object(out), "items") == elements
  {
    TypeWordKept(o);
    AssembledMembers(o, props, elements);
  }

  predicate PropertiesKept(o: map<string, Value>, out: map<string, Value>, defs: map<string, Value>, depth: nat) {
    if "properties" in o && o["properties"].Object? then
      var ps := o["properties"].members;
      && "properties" in out && out["properties"].Object? && out["properties"].members.Keys == ps.Keys
      && forall k | k in ps :: out["properties"].members[k] == Sanitize(ps[k], defs, depth + 1)
    else "properties" !in out
  }

  predicate TypeKept(o: map<string, Value>, word: string) {
    if "enum" in o then word == "string"
    else if ArrayAt(o, "type") then FirstWord(o["type"].items, word)
    else if "type" in o && o["type"].Text? then word == o["type"].text
    else word == if "properties" in o then "object" else if "items" in o then "array" else "string"
  }
}
