/** The rewrite of amos/src/agent.rs as its callers see it. */
module SchemaTheorems {
  import opened Prelude
  import opened Json
  import opened SchemaSanitizer
  import opened SchemaMeaning
  import opened SchemaExactness

  // ----- Only relaxing, and exactly the same -----

  /** On the supported fragment every valid value stays valid. */
  lemma RewriteOnlyRelaxes(root: Value, dropped: Dropped, node: Value, depth: nat, v: Value)
    requires Supported(root, node, depth) && Means(root, dropped, node, v)
    ensures DialectAccepts(Sanitize(node, Definitions(root), depth), v)
  {
    var n: nat :| Bounded(root, node, n) && Accepts(root, dropped, node, v, n);
    SanitizeRelaxes(root, dropped, node, depth, v, n);
  }

  /** On the exact fragment the two accept the same values. */
  lemma RewriteIsExact(root: Value, dropped: Dropped, node: Value, depth: nat, v: Value)
    requires Exact(root, dropped, node, depth)
    ensures Means(root, dropped, node, v) <==> DialectAccepts(Sanitize(node, Definitions(root), depth), v)
  {
    if Means(root, dropped, node, v) {
      ExactIsSupported(root, dropped, node, depth);
      RewriteOnlyRelaxes(root, dropped, node, depth, v);
    }
    if DialectAccepts(Sanitize(node, Definitions(root), depth), v) {
      ExactIsBounded(root, dropped, node, depth);
      SanitizeLosesNothing(root, dropped, node, depth, v);
      assert Means(root, dropped, node, v);
    }
  }

  /** The meaning is one meaning: any two sufficient bounds judge alike. */
  lemma MeaningIgnoresBound(root: Value, dropped: Dropped, node: Value, v: Value, n: nat)
    requires Bounded(root, node, n)
    ensures Means(root, dropped, node, v) <==> Accepts(root, dropped, node, v, n)
  {
    if Means(root, dropped, node, v) {
      var k: nat :| Bounded(root, node, k) && Accepts(root, dropped, node, v, k);
      if k <= n {
        FuelIrrelevant(root, dropped, node, v, k, n);
      } else {
        FuelIrrelevant(root, dropped, node, v, n, k);
      }
    }
  }

  /** Tool arguments are objects: at the root every valid object stays valid, and
      on an exact root that stays an object schema no other object becomes so. */
  lemma RootKeepsObjects(schema: Value, dropped: Dropped, v: Value)
    requires Supported(schema, schema, 0) && v.Object?
    ensures Means(schema, dropped, schema, v) ==> DialectAccepts(SanitizeRoot(schema), v)
    ensures Exact(schema, dropped, schema, 0)
              && Get(Sanitize(schema, Definitions(schema), 0), "type") == Some(Text("object")) ==>
              (Means(schema, dropped, schema, v) <==> DialectAccepts(SanitizeRoot(schema), v))
  {
    if Means(schema, dropped, schema, v) {
      RewriteOnlyRelaxes(schema, dropped, schema, 0, v);
    }
    if Exact(schema, dropped, schema, 0) {
      RewriteIsExact(schema, dropped, schema, 0, v);
    }
  }

  lemma {:induction false} ExactIsSupported(root: Value, dropped: Dropped, node: Value, depth: nat)
    requires Exact(root, dropped, node, depth)
    ensures Supported(root, node, depth)
    decreases MAX_DEPTH + 1 - depth
  {
    var o := node.members;
    if "$ref" in o && o["$ref"].Text? {
      ExactIsSupported(root, dropped, Resolve(root, o["$ref"].text).value, depth + 1);
    } else if UnionKey(o).Some? {
      ExactIsSupported(root, dropped, FirstNonNull(o[UnionKey(o).value].items, node), depth + 1);
    } else {
      ExactTypeIsTyped(o);
      if "properties" in o {
        forall k | k in o["properties"].members ensures Supported(root, o["properties"].members[k], depth + 1) {
          ExactIsSupported(root, dropped, o["properties"].members[k], depth + 1);
        }
      }
      if "items" in o {
        ExactIsSupported(root, dropped, o["items"], depth + 1);
      }
    }
  }

  lemma ExactTypeIsTyped(o: map<string, Value>)
    requires ExactType(o)
    ensures Typed(o)
  {
    if "type" in o && o["type"].Array? {
      var ts := o["type"].items;
      forall t | t in ts && t.Text? && t.text != "null" ensures t.text == TypeWord(o) {
        SoleTypeWord(ts, t);
      }
      if "enum" in o {
        forall e | e in o["enum"].items && TypeOk(o, e) ensures e.Text? || (e == Null && TypeAllowsNull(o)) {
          var i :| 0 <= i < |ts| && ts[i].Text? && HasType(e, ts[i].text);
          assert ts[i] in ts;
        }
      }
    }
  }

  lemma {:induction false} ExactIsBounded(root: Value, dropped: Dropped, node: Value, depth: nat)
    requires Exact(root, dropped, node, depth)
    ensures Bounded(root, node, MAX_DEPTH + 1 - depth)
    decreases MAX_DEPTH + 1 - depth, 1
  {
    var o, n := node.members, MAX_DEPTH - depth;
    if "$ref" in o && o["$ref"].Text? {
      ExactReference(root, dropped, node, depth);
      PartIsBounded(root, dropped, Resolve(root, o["$ref"].text).value, depth, n);
      ReferenceIsBounded(root, dropped, node, n);
    } else if UnionKey(o).Some? {
      ExactUnionFacts(root, dropped, node, depth);
      PartIsBounded(root, dropped, FirstNonNull(o[UnionKey(o).value].items, node), depth, n);
      UnionIsBounded(root, dropped, node, n);
    } else {
      ExactChildren(root, dropped, node, depth);
      ChildrenAreBounded(root, dropped, o, depth, n);
      PlainIsBounded(root, o, n);
    }
  }

  lemma {:induction false} PartIsBounded(root: Value, dropped: Dropped, part: Value, depth: nat, n: nat)
    requires n == MAX_DEPTH - depth && Exact(root, dropped, part, depth + 1)
    ensures Bounded(root, part, n)
    decreases n + 1, 0, 0
  {
    ExactIsBounded(root, dropped, part, depth + 1);
  }

  ghost predicate ChildrenBounded(root: Value, o: map<string, Value>, n: nat) {
    && ("properties" in o && o["properties"].Object? ==>
          forall k | k in o["properties"].members :: Bounded(root, o["properties"].members[k], n))
    && ("items" in o ==> Bounded(root, o["items"], n))
  }

  ghost predicate ChildrenExact(root: Value, dropped: Dropped, o: map<string, Value>, depth: nat) {
    && ("properties" in o ==>
          o["properties"].Object? &&
          forall k | k in o["properties"].members :: Exact(root, dropped, o["properties"].members[k], depth + 1))
    && ("items" in o ==> Exact(root, dropped, o["items"], depth + 1))
  }

  lemma {:induction false} ChildrenAreBounded(root: Value, dropped: Dropped, o: map<string, Value>, depth: nat, n: nat)
    requires n == MAX_DEPTH - depth && ChildrenExact(root, dropped, o, depth)
    ensures ChildrenBounded(root, o, n)
    decreases n + 1, 0, 1
  {
    if "properties" in o {
      forall k | k in o["properties"].members ensures Bounded(root, o["properties"].members[k], n) {
        PartIsBounded(root, dropped, o["properties"].members[k], depth, n);
      }
    }
    if "items" in o {
      PartIsBounded(root, dropped, o["items"], depth, n);
    }
  }

  lemma ExactReference(root: Value, dropped: Dropped, node: Value, depth: nat)
    requires Exact(root, dropped, node, depth) && "$ref" in node.members && node.members["$ref"].Text?
    ensures Only(dropped, node.members, "$ref") && Resolve(root, node.members["$ref"].text).Some?
    ensures Exact(root, dropped, Resolve(root, node.members["$ref"].text).value, depth + 1)
  {
  }

  lemma ExactChildren(root: Value, dropped: Dropped, node: Value, depth: nat)
    requires Exact(root, dropped, node, depth)
    requires !("$ref" in node.members && node.members["$ref"].Text?) && UnionKey(node.members).None?
    ensures ChildrenExact(root, dropped, node.members, depth)
  {
  }

  lemma PlainIsBounded(root: Value, o: map<string, Value>, n: nat)
    requires !("$ref" in o && o["$ref"].Text?) && UnionKey(o).None? && ChildrenBounded(root, o, n)
    ensures Bounded(root, Object(o), n + 1)
  {
  }

  lemma ReferenceIsBounded(root: Value, dropped: Dropped, node: Value, n: nat)
    requires node.Object? && "$ref" in node.members && node.members["$ref"].Text? && Only(dropped, node.members, "$ref")
    requires Resolve(root, node.members["$ref"].text).Some?
    requires Bounded(root, Resolve(root, node.members["$ref"].text).value, n)
    ensures Bounded(root, node, n + 1)
  {
    OnlyExcludes(dropped, node.members, "$ref");
  }

  lemma UnionIsBounded(root: Value, dropped: Dropped, node: Value, n: nat)
    requires node.Object? && UnionKey(node.members).Some? && Only(dropped, node.members, UnionKey(node.members).value)
    requires var branches := node.members[UnionKey(node.members).value].items;
             var first := FirstNonNull(branches, node);
             ExactUnion(dropped, UnionKey(node.members).value, branches, first) && Bounded(root, first, n)
    ensures Bounded(root, node, n + 1)
  {
    var o, key := node.members, UnionKey(node.members).value;
    var branches := o[key].items;
    OnlyExcludes(dropped, o, key);
    forall i | 0 <= i < |branches| ensures Bounded(root, branches[i], n) {
      assert branches[i] in branches;
      if IsNullBranch(branches[i]) {
        OnlyExcludes(dropped, branches[i].members, "type");
      } else {
        SoleNonNull(branches, node, branches[i]);
      }
    }
  }

  // ----- References -----

  lemma {:induction false} LastSegmentIsName(path: string, name: string)
    requires '/' !in name
    ensures LastSegment(path + "/" + name) == name
  {
    if path == "" {
      assert ("/" + name)[1..] == name;
    } else {
      LastSegmentIsName(path[1..], name);
      assert (path + "/" + name)[1..] == path[1..] + "/" + name;
    }
  }

  /** A reference into `$defs` is looked up where it points. */
  lemma DefsReferenceAgrees(root: Value, name: string)
    requires PlainName(name) && Get(root, "$defs").Some?
    ensures Lookup(root, "#/$defs/" + name) == Resolve(root, "#/$defs/" + name)
  {
    LastSegmentIsName("#/$defs", name);
    assert "#/$defs" + "/" + name == "#/$defs/" + name;
    assert ("#/$defs/" + name)[8..] == name;
  }

  /** A reference into `definitions` is looked up where it points exactly when
      there is no `$defs` table, or that table happens to hold the same schema. */
  lemma DefinitionsReferenceAgrees(root: Value, name: string)
    requires PlainName(name) && Get(root, "definitions").Some?
    ensures Lookup(root, "#/definitions/" + name) == Resolve(root, "#/definitions/" + name) <==>
              (Get(root, "$defs").None? || Get(Get(root, "$defs").value, name) ==
                  Get(Get(root, "definitions").value, name))
  {
    LastSegmentIsName("#/definitions", name);
    assert "#/definitions" + "/" + name == "#/definitions/" + name;
    assert ("#/definitions/" + name)[14..] == name;
    assert ("#/definitions/" + name)[2] == 'd' && "#/$defs/"[2] == '$';
  }

  /** A definition that refers to itself bottoms out at a plain string schema. */
  lemma {:induction false} SelfReferenceBottomsOut(defs: map<string, Value>, name: string, depth: nat)
    requires name in defs && defs[name].Object?
    requires "$ref" in defs[name].members && defs[name].members["$ref"].Text?
    requires LastSegment(defs[name].members["$ref"].text) == name
    ensures Sanitize(defs[name], defs, depth) == STRING_SCHEMA
    decreases MAX_DEPTH + 1 - depth
  {
    if depth > MAX_DEPTH {
    } else {
      SelfReferenceBottomsOut(defs, name, depth + 1);
    }
  }

  // ----- Descriptions -----

  /** A description is never lost on a node that is not a reference: a plain node
      keeps its own, a union its branch's or else its own. */
  lemma DescriptionSurvives(node: Value, defs: map<string, Value>, depth: nat)
    requires depth <= MAX_DEPTH && Get(node, "description").Some?
    requires !("$ref" in node.members && node.members["$ref"].Text?)
    ensures Get(Sanitize(node, defs, depth), "description") ==
              if UnionKey(node.members).None? then Get(node, "description")
              else var first := FirstNonNull(node.members[UnionKey(node.members).value].items, node);
                   var kept := Sanitize(first, defs, depth + 1);
                   if Get(kept, "description").Some? then Get(kept, "description") else Get(node, "description")
  {
    if UnionKey(node.members).Some? {
      SanitizeWellFormed(FirstNonNull(node.members[UnionKey(node.members).value].items, node), defs, depth + 1);
    }
  }

  // ----- Why the fragment is needed -----

  const INTEGER_OR_STRING: Value := Object(map["type" := Array([Text("integer"), Text("string")])])

  /** With two type words the rewrite keeps the first and refuses values of the second. */
  lemma SecondTypeWordIsLost(dropped: Dropped)
    requires dropped(INTEGER_OR_STRING.members, Text("a"))
    ensures Means(INTEGER_OR_STRING, dropped, INTEGER_OR_STRING, Text("a"))
    ensures !DialectAccepts(Sanitize(INTEGER_OR_STRING, map[], 0), Text("a"))
    ensures !Supported(INTEGER_OR_STRING, INTEGER_OR_STRING, 0)
  {
    StringIsMeant(dropped);
    StringIsRefused();
  }

  lemma StringIsMeant(dropped: Dropped)
    requires dropped(INTEGER_OR_STRING.members, Text("a"))
    ensures Means(INTEGER_OR_STRING, dropped, INTEGER_OR_STRING, Text("a"))
  {
    var o := INTEGER_OR_STRING.members;
    var ts := o["type"].items;
    assert ts[1] == Text("string");
    assert HasType(Text("a"), ts[1].text);
    assert TypeOk(o, Text("a"));
    assert InPlaceOk(INTEGER_OR_STRING, dropped, o, Text("a"), 1)
        && ChildrenOk(INTEGER_OR_STRING, dropped, o, Text("a"), 1);
    assert Accepts(INTEGER_OR_STRING, dropped, INTEGER_OR_STRING, Text("a"), 1);
    assert Bounded(INTEGER_OR_STRING, INTEGER_OR_STRING, 1);
  }

  lemma StringIsRefused()
    ensures !DialectAccepts(Sanitize(INTEGER_OR_STRING, map[], 0), Text("a"))
    ensures !Supported(INTEGER_OR_STRING, INTEGER_OR_STRING, 0)
  {
    var o := INTEGER_OR_STRING.members;
    var s := Sanitize(INTEGER_OR_STRING, map[], 0);
    assert s.members["type"] == Text("integer");
    assert "nullable" !in s.members;
    assert Text("string") in o["type"].items && !Covers(KeptWord(o), "string");
    assert !Typed(o);
  }
}
