/** Which `type` and `enum` keywords the rewrite of amos/src/agent.rs keeps, exactly. */
module SchemaTypes {
  import opened Prelude
  import opened Json
  import opened SchemaSanitizer
  import opened SchemaMeaning
  import opened SchemaExactness
  import opened SchemaTheorems

  /** A value that tells a type word from the words that do not cover it. */
  function Sample(word: string): Value {
    if word == "boolean" then Bool(true)
    else if word == "number" then Number(0.5)
    else if word == "integer" then Number(1.0)
    else if word == "string" then Text("")
    else if word == "array" then Array([])
    else if word == "object" then Object(map[])
    else Null
  }

  lemma SampleTells(word: string, kept: string)
    requires word in NON_NULL_WORDS + {"null"}
    ensures HasType(Sample(word), word)
    ensures HasType(Sample(word), kept) <==> Covers(kept, word)
    ensures Sample(word) == Null <==> word == "null"
  {
    assert 0.5.Floor as real != 0.5;
  }

  /** The node's own values all survive. */
  ghost predicate KeepsValues(o: map<string, Value>) {
    forall v :: TypeOk(o, v) && EnumOk(o, v) ==> (v == Null && TypeAllowsNull(o)) || HasType(v, KeptWord(o))
  }

  /** A value the type and enum admit and the rewrite refuses. */
  lemma LostValue(o: map<string, Value>) returns (v: Value)
    requires !Typed(o)
    ensures TypeOk(o, v) && EnumOk(o, v) && !(v == Null && TypeAllowsNull(o)) && !HasType(v, KeptWord(o))
  {
    if "enum" in o && o["enum"].Array? {
      v :| v in o["enum"].items && TypeOk(o, v) && !(v.Text? || (v == Null && TypeAllowsNull(o)));
    } else if "type" in o && o["type"].Text? {
      v := Sample(o["type"].text);
      SampleTells(o["type"].text, KeptWord(o));
    } else if "type" in o {
      var ts := o["type"].items;
      var t :| t in ts && t.Text? && t.text in NON_NULL_WORDS && !Covers(KeptWord(o), t.text);
      var i :| 0 <= i < |ts| && ts[i] == t;
      v := Sample(t.text);
      SampleTells(t.text, KeptWord(o));
      assert ts[i].Text? && HasType(v, ts[i].text);
    } else {
      v := Bool(true);
    }
  }

  /** No value of a node is lost by its type and enum if and only if it is `Typed`. */
  lemma TypesKeptExactly(o: map<string, Value>)
    ensures KeepsValues(o) <==> Typed(o)
  {
    if Typed(o) {
      forall v | TypeOk(o, v) && EnumOk(o, v) ensures (v == Null && TypeAllowsNull(o)) || HasType(v, KeptWord(o)) {
        TypeRelaxes(o, v);
      }
    } else {
      var v := LostValue(o);
    }
  }

  /** A `type` array loses no value if and only if every known word in it is the kept
      one, the first, or "integer" after "number". */
  lemma TypeArrayKeptExactly(o: map<string, Value>)
    requires "type" in o && o["type"].Array? && "enum" !in o
    ensures (forall v :: TypeOk(o, v) ==> (v == Null && TypeAllowsNull(o)) || HasType(v, TypeWord(o))) <==>
              forall t | t in o["type"].items && t.Text? && t.text in NON_NULL_WORDS ::
                t.text == TypeWord(o) || (t.text == "integer" && TypeWord(o) == "number")
  {
    TypesKeptExactly(o);
    if forall v :: TypeOk(o, v) ==> (v == Null && TypeAllowsNull(o)) || HasType(v, TypeWord(o)) {
      assert KeepsValues(o);
      forall t | t in o["type"].items && t.Text? && t.text in NON_NULL_WORDS
        ensures t.text == TypeWord(o) || (t.text == "integer" && TypeWord(o) == "number")
      {
        assert Covers(KeptWord(o), t.text);
      }
    } else {
      assert !KeepsValues(o);
    }
  }

  // ----- Leaf schemas -----

  /** A node without references, unions or parts. */
  predicate Leaf(o: map<string, Value>) {
    o.Keys !! {"$ref", "anyOf", "oneOf", "allOf", "properties", "items", "required"}
  }

  lemma LeafMeans(root: Value, dropped: Dropped, o: map<string, Value>, v: Value)
    requires Leaf(o)
    ensures Means(root, dropped, Object(o), v) <==> TypeOk(o, v) && EnumOk(o, v) && dropped(o, v)
  {
    LeafHasNone(o);
    assert Bounded(root, Object(o), 1);
    MeaningIgnoresBound(root, dropped, Object(o), v, 1);
    assert InPlaceOk(root, dropped, o, v, 1) && ChildrenOk(root, dropped, o, v, 1);
  }

  lemma LeafHasNone(o: map<string, Value>)
    requires Leaf(o)
    ensures "$ref" !in o && "anyOf" !in o && "oneOf" !in o && "allOf" !in o
    ensures "properties" !in o && "items" !in o && "required" !in o
  {
    forall k | k in {"$ref", "anyOf", "oneOf", "allOf", "properties", "items", "required"} ensures k !in o {
      assert k in o ==> k in o.Keys;
    }
  }

  lemma LeafKept(o: map<string, Value>, defs: map<string, Value>, depth: nat, v: Value)
    requires Leaf(o) && depth <= MAX_DEPTH
    ensures DialectAccepts(Sanitize(Object(o), defs, depth), v) <==>
              (v == Null && TypeAllowsNull(o)) || (HasType(v, KeptWord(o)) && EnumOk(o, v))
  {
    LeafHasNone(o);
    AssembleAccepts(o, None, None, v);
    assert Sanitize(Object(o), defs, depth) == Object(Assemble(o, None, None));
  }

  /** The rewrite of a leaf schema without dropped keywords only relaxes it if and only if it is `Typed`. */
  lemma LeafRelaxesExactly(root: Value, o: map<string, Value>, depth: nat)
    requires Leaf(o) && depth <= MAX_DEPTH
    ensures (forall v :: Means(root, (_, _) => true, Object(o), v) ==>
                           DialectAccepts(Sanitize(Object(o), Definitions(root), depth), v)) <==> Typed(o)
  {
    var none: Dropped := (_, _) => true;
    if Typed(o) {
      forall v | Means(root, none, Object(o), v)
        ensures DialectAccepts(Sanitize(Object(o), Definitions(root), depth), v)
      {
        LeafMeans(root, none, o, v);
        LeafKept(o, Definitions(root), depth, v);
        TypeRelaxes(o, v);
      }
    } else {
      var v := LostValue(o);
      LeafMeans(root, none, o, v);
      LeafKept(o, Definitions(root), depth, v);
    }
  }
}
