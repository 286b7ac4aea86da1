/** Where the rewrite of amos/src/agent.rs loses nothing, what it does at the
    root, and what it does to references. */
module SchemaExactness {
  import opened Prelude
  import opened Json
  import opened SchemaSanitizer
  import opened SchemaMeaning

  // ----- A meaning that does not depend on the unfolding bound -----

  /** Every chain of nested applicators and references from `node` ends within `n` steps. */
  ghost predicate Bounded(root: Value, node: Value, n: nat)
    decreases n
  {
    n > 0 &&
    (node.Object? ==>
      var o := node.members;
      && ("$ref" in o && o["$ref"].Text? && Resolve(root, o["$ref"].text).Some? ==>
            Bounded(root, Resolve(root, o["$ref"].text).value, n - 1))
      && ("anyOf" in o && o["anyOf"].Array? ==>
          forall i | 0 <= i < |o["anyOf"].items| :: Bounded(root, o["anyOf"].items[i], n - 1))
      && ("oneOf" in o && o["oneOf"].Array? ==>
          forall i | 0 <= i < |o["oneOf"].items| :: Bounded(root, o["oneOf"].items[i], n - 1))
      && ("allOf" in o && o["allOf"].Array? ==>
          forall i | 0 <= i < |o["allOf"].items| :: Bounded(root, o["allOf"].items[i], n - 1))
      && ("properties" in o && o["properties"].Object? ==>
            forall k | k in o["properties"].members :: Bounded(root, o["properties"].members[k], n - 1))
      && ("items" in o ==> Bounded(root, o["items"], n - 1)))
  }

  lemma {:induction false} FuelIrrelevant(root: Value, dropped: Dropped, node: Value, v: Value, n: nat, m: nat)
    requires Bounded(root, node, n) && n <= m
    ensures Accepts(root, dropped, node, v, n) <==> Accepts(root, dropped, node, v, m)
    decreases n, 1
  {
    if node.Object? {
      InPlaceFuel(root, dropped, node, v, n, m);
      ChildrenFuel(root, dropped, node, v, n, m);
    }
  }

  /** The two fuels judge every branch alike. */
  ghost predicate BranchesAgree(root: Value, dropped: Dropped, branches: seq<Value>, v: Value, n: nat, m: nat)
    requires 0 < n <= m
  {
    && (forall i | 0 <= i < |branches| ::
          Accepts(root, dropped, branches[i], v, n - 1) <==> Accepts(root, dropped, branches[i], v, m - 1))
    && (forall i | 0 <= i < |branches| ::
          ExactlyOne(root, dropped, branches, i, v, n) <==> ExactlyOne(root, dropped, branches, i, v, m))
  }

  lemma {:induction false} BranchesFuel(root: Value, dropped: Dropped, branches: seq<Value>, v: Value, n: nat, m: nat)
    requires 0 < n <= m && forall i | 0 <= i < |branches| :: Bounded(root, branches[i], n - 1)
    ensures BranchesAgree(root, dropped, branches, v, n, m)
    decreases n, 0, 0
  {
    forall i | 0 <= i < |branches|
      ensures Accepts(root, dropped, branches[i], v, n - 1) <==> Accepts(root, dropped, branches[i], v, m - 1)
    {
      FuelIrrelevant(root, dropped, branches[i], v, n - 1, m - 1);
    }
  }

  lemma InPlaceAgrees(root: Value, dropped: Dropped, o: map<string, Value>, v: Value, n: nat, m: nat)
    requires 0 < n <= m
    requires "$ref" in o && o["$ref"].Text? && Resolve(root, o["$ref"].text).Some? ==>
               var target := Resolve(root, o["$ref"].text).value;
               Accepts(root, dropped, target, v, n - 1) <==> Accepts(root, dropped, target, v, m - 1)
    requires forall key | key in {"anyOf", "oneOf", "allOf"} && key in o && o[key].Array? ::
               BranchesAgree(root, dropped, o[key].items, v, n, m)
    ensures InPlaceOk(root, dropped, o, v, n) <==> InPlaceOk(root, dropped, o, v, m)
  {
    assert "anyOf" in {"anyOf", "oneOf", "allOf"} && "oneOf" in {"anyOf", "oneOf", "allOf"}
        && "allOf" in {"anyOf", "oneOf", "allOf"};
  }

  lemma {:induction false} InPlaceFuel(root: Value, dropped: Dropped, node: Value, v: Value, n: nat, m: nat)
    requires node.Object? && Bounded(root, node, n) && n <= m
    ensures InPlaceOk(root, dropped, node.members, v, n) <==> InPlaceOk(root, dropped, node.members, v, m)
    decreases n, 0, 1
  {
    var o := node.members;
    if "$ref" in o && o["$ref"].Text? && Resolve(root, o["$ref"].text).Some? {
      FuelIrrelevant(root, dropped, Resolve(root, o["$ref"].text).value, v, n - 1, m - 1);
    }
    forall key | key in {"anyOf", "oneOf", "allOf"} && key in o && o[key].Array?
      ensures BranchesAgree(root, dropped, o[key].items, v, n, m)
    {
      BranchesFuel(root, dropped, o[key].items, v, n, m);
    }
    InPlaceAgrees(root, dropped, o, v, n, m);
  }

  lemma {:induction false} ChildrenFuel(root: Value, dropped: Dropped, node: Value, v: Value, n: nat, m: nat)
    requires node.Object? && Bounded(root, node, n) && n <= m
    ensures ChildrenOk(root, dropped, node.members, v, n) <==> ChildrenOk(root, dropped, node.members, v, m)
    decreases n, 0, 1
  {
    var o := node.members;
    if v.Object? && "properties" in o && o["properties"].Object? {
      var ps := o["properties"].members;
      forall k | k in ps && k in v.members
        ensures Accepts(root, dropped, ps[k], v.members[k], n - 1) <==>
                  Accepts(root, dropped, ps[k], v.members[k], m - 1)
      {
        FuelIrrelevant(root, dropped, ps[k], v.members[k], n - 1, m - 1);
      }
    }
    if v.Array? && "items" in o {
      forall i | 0 <= i < |v.items|
        ensures Accepts(root, dropped, o["items"], v.items[i], n - 1) <==>
                  Accepts(root, dropped, o["items"], v.items[i], m - 1)
      {
        FuelIrrelevant(root, dropped, o["items"], v.items[i], n - 1, m - 1);
      }
    }
  }

  /** `v` is valid under `node`: its applicators unfold finitely and accept `v`. */
  ghost predicate Means(root: Value, dropped: Dropped, node: Value, v: Value) {
    exists n: nat :: Bounded(root, node, n) && Accepts(root, dropped, node, v, n)
  }

  // ----- The fragment on which nothing is lost -----

  const CONSTRAINING: set<string> :=
    {"$ref", "anyOf", "oneOf", "allOf", "type", "enum", "properties", "required", "items"}

  /** The object puts no constraint beyond the keyword given. */
  ghost predicate Only(dropped: Dropped, o: map<string, Value>, key: string) {
    (forall v :: dropped(o, v)) && o.Keys * CONSTRAINING == {key}
  }

  ghost predicate PureNull(dropped: Dropped, b: Value) {
    IsNullBranch(b) && Only(dropped, b.members, "type")
  }

  /** A branch with a single type word other than "null" rejects null. */
  predicate RejectsNull(b: Value) {
    Get(b, "type").Some? && Get(b, "type").value.Text? && Get(b, "type").value.text != "null"
  }

  /** The null branches of a union that keeps exactly null on top of its sole other branch. */
  ghost predicate ExactUnion(dropped: Dropped, key: string, branches: seq<Value>, first: Value) {
    && NonNullCount(branches) == 1
    && (forall b | b in branches && IsNullBranch(b) :: PureNull(dropped, b))
    && (key == "oneOf" && HasNullBranch(branches) ==> |branches| == 2 && RejectsNull(first))
    && (key == "allOf" ==> |branches| == 1)
  }

  /** A plain node whose type and enum the rewrite keeps as they are. */
  predicate ExactType(o: map<string, Value>) {
    && ("type" in o ==> o["type"].Text? || (o["type"].Array? && NonNullWords(o["type"].items) == 1))
    && ("enum" in o ==> o["enum"].Array?)
    && (if "enum" in o && "type" in o then TypeWord(o) == "string" && (TypeAllowsNull(o) ==> Null in o["enum"].items)
        else if "enum" in o then forall e | e in o["enum"].items :: e.Text?
        else "type" in o)
    && ("properties" in o ==> o["properties"].Object?)
    && ("required" in o ==> "properties" in o)
  }

  ghost predicate Exact(root: Value, dropped: Dropped, node: Value, depth: nat)
    decreases MAX_DEPTH + 1 - depth
  {
    && depth <= MAX_DEPTH
    && node.Object?
    && var o := node.members;
       if "$ref" in o && o["$ref"].Text? then
         && Only(dropped, o, "$ref")
         && Resolve(root, o["$ref"].text).Some?
         && Lookup(root, o["$ref"].text) == Resolve(root, o["$ref"].text)
         && Exact(root, dropped, Resolve(root, o["$ref"].text).value, depth + 1)
       else if UnionKey(o).Some? then
         var key, branches := UnionKey(o).value, o[UnionKey(o).value].items;
         && Only(dropped, o, key)
         && ExactUnion(dropped, key, branches, FirstNonNull(branches, node))
         && Exact(root, dropped, FirstNonNull(branches, node), depth + 1)
       else
         && (forall v :: dropped(o, v))
         && ExactType(o)
         && ("properties" in o ==>
               forall k | k in o["properties"].members :: Exact(root, dropped, o["properties"].members[k], depth + 1))
         && ("items" in o ==> Exact(root, dropped, o["items"], depth + 1))
  }

  /** Nothing the dialect accepts was refused before. */
  lemma {:induction false} SanitizeLosesNothing(root: Value, dropped: Dropped, node: Value, depth: nat, v: Value)
    requires Exact(root, dropped, node, depth)
    requires DialectAccepts(Sanitize(node, Definitions(root), depth), v)
    ensures Accepts(root, dropped, node, v, MAX_DEPTH + 1 - depth)
    decreases MAX_DEPTH + 1 - depth, 1
  {
    var o := node.members;
    if "$ref" in o && o["$ref"].Text? {
      SanitizeLosesNothing(root, dropped, Resolve(root, o["$ref"].text).value, depth + 1, v);
      OnlyRefAccepts(root, dropped, o, v, MAX_DEPTH + 1 - depth);
    } else if UnionKey(o).Some? {
      UnionLosesNothing(root, dropped, node, depth, v);
    } else {
      PlainLosesNothing(root, dropped, node, depth, v);
    }
  }

  lemma ExactUnionFacts(root: Value, dropped: Dropped, node: Value, depth: nat)
    requires Exact(root, dropped, node, depth)
    requires !("$ref" in node.members && node.members["$ref"].Text?) && UnionKey(node.members).Some?
    ensures depth < MAX_DEPTH
    ensures var key := UnionKey(node.members).value; var branches := node.members[key].items;
            && Only(dropped, node.members, key)
            && ExactUnion(dropped, key, branches, FirstNonNull(branches, node))
            && Exact(root, dropped, FirstNonNull(branches, node), depth + 1)
  {
  }

  lemma {:induction false} BranchLosesNothing(root: Value, dropped: Dropped, first: Value, depth: nat, v: Value)
    requires depth < MAX_DEPTH && Exact(root, dropped, first, depth + 1)
    ensures DialectAccepts(Sanitize(first, Definitions(root), depth + 1), v) ==>
              Accepts(root, dropped, first, v, MAX_DEPTH - depth)
    decreases MAX_DEPTH + 1 - depth, 0, 0
  {
    if DialectAccepts(Sanitize(first, Definitions(root), depth + 1), v) {
      SanitizeLosesNothing(root, dropped, first, depth + 1, v);
    }
  }

  lemma {:induction false} UnionLosesNothing(root: Value, dropped: Dropped, node: Value, depth: nat, v: Value)
    requires Exact(root, dropped, node, depth)
    requires !("$ref" in node.members && node.members["$ref"].Text?) && UnionKey(node.members).Some?
    requires DialectAccepts(Sanitize(node, Definitions(root), depth), v)
    ensures Accepts(root, dropped, node, v, MAX_DEPTH + 1 - depth)
    decreases MAX_DEPTH + 1 - depth, 0, 1
  {
    var o := node.members;
    var first := FirstNonNull(o[UnionKey(o).value].items, node);
    CollapsedAccepts(node, Definitions(root), depth, v);
    ExactUnionFacts(root, dropped, node, depth);
    BranchLosesNothing(root, dropped, first, depth, v);
    OnlyUnionAccepts(root, dropped, o, node, v, MAX_DEPTH + 1 - depth);
  }

  lemma OnlyRefAccepts(root: Value, dropped: Dropped, o: map<string, Value>, v: Value, fuel: nat)
    requires "$ref" in o && o["$ref"].Text? && Only(dropped, o, "$ref") && fuel > 0
    requires Resolve(root, o["$ref"].text).Some?
               && Accepts(root, dropped, Resolve(root, o["$ref"].text).value, v, fuel - 1)
    ensures Accepts(root, dropped, Object(o), v, fuel)
  {
    OnlyExcludes(dropped, o, "$ref");
  }

  lemma OnlyExcludes(dropped: Dropped, o: map<string, Value>, key: string)
    requires Only(dropped, o, key)
    ensures forall k | k in CONSTRAINING && k != key :: k !in o
  {
    forall k | k in CONSTRAINING && k != key ensures k !in o {
      assert k !in {key};
      assert k in o.Keys ==> k in o.Keys * CONSTRAINING;
    }
  }

  lemma PureNullAccepts(root: Value, dropped: Dropped, b: Value, fuel: nat)
    requires PureNull(dropped, b) && fuel > 0
    ensures Accepts(root, dropped, b, Null, fuel)
  {
    OnlyExcludes(dropped, b.members, "type");
  }

  /** Beside a lone union keyword nothing is asked of a value. */
  lemma OthersAreSilent(root: Value, dropped: Dropped, o: map<string, Value>, key: string, v: Value, fuel: nat)
    requires key in {"anyOf", "oneOf", "allOf"} && Only(dropped, o, key) && fuel > 0
    ensures TypeOk(o, v) && EnumOk(o, v) && RequiredOk(o, v) && ChildrenOk(root, dropped, o, v, fuel) && dropped(o, v)
    ensures "$ref" !in o && forall other | other in {"anyOf", "oneOf", "allOf"} && other != key :: other !in o
  {
    OnlyExcludes(dropped, o, key);
  }

  lemma OnlyUnionAccepts(root: Value, dropped: Dropped, o: map<string, Value>, node: Value, v: Value, fuel: nat)
    requires UnionKey(o).Some? && Only(dropped, o, UnionKey(o).value) && fuel > 1
    requires var branches := o[UnionKey(o).value].items;
             var first := FirstNonNull(branches, node);
             ExactUnion(dropped, UnionKey(o).value, branches, first) &&
             (Accepts(root, dropped, first, v, fuel - 1) || (HasNullBranch(branches) && v == Null))
    ensures Accepts(root, dropped, Object(o), v, fuel)
  {
    var key, branches := UnionKey(o).value, o[UnionKey(o).value].items;
    var first := FirstNonNull(branches, node);
    OthersAreSilent(root, dropped, o, key, v, fuel);
    FirstNonNullFound(branches, node);
    var i := AcceptingBranch(root, dropped, branches, node, v, fuel - 1);
    if key == "oneOf" {
      SoleAccepting(root, dropped, branches, node, i, v, fuel);
    }
  }

  /** A branch that accepts `v`. */
  lemma AcceptingBranch(root: Value, dropped: Dropped, branches: seq<Value>, fallback: Value, v: Value, fuel: nat)
    returns (i: nat)
    requires fuel > 0 && NonNullCount(branches) == 1
    requires forall b | b in branches && IsNullBranch(b) :: PureNull(dropped, b)
    requires Accepts(root, dropped, FirstNonNull(branches, fallback), v, fuel) || (HasNullBranch(branches) && v == Null)
    ensures i < |branches| && Accepts(root, dropped, branches[i], v, fuel)
  {
    FirstNonNullFound(branches, fallback);
    if Accepts(root, dropped, FirstNonNull(branches, fallback), v, fuel) {
      i :| 0 <= i < |branches| && branches[i] == FirstNonNull(branches, fallback);
    } else {
      i :| 0 <= i < |branches| && IsNullBranch(branches[i]);
      PureNullAccepts(root, dropped, branches[i], fuel);
    }
  }

  lemma SoleAccepting(root: Value, dropped: Dropped, branches: seq<Value>, fallback: Value, i: nat, v: Value, fuel: nat)
    requires fuel > 1 && i < |branches| && Accepts(root, dropped, branches[i], v, fuel - 1)
    requires ExactUnion(dropped, "oneOf", branches, FirstNonNull(branches, fallback))
    ensures ExactlyOne(root, dropped, branches, i, v, fuel)
  {
    forall j | 0 <= j < |branches| && j != i ensures !Accepts(root, dropped, branches[j], v, fuel - 1) {
      CountSplits(branches, i, j);
      assert branches[i] in branches && branches[j] in branches;
      if Accepts(root, dropped, branches[j], v, fuel - 1) {
        var (a, b) := if IsNullBranch(branches[i]) then (branches[i], branches[j]) else (branches[j], branches[i]);
        NullBranchAcceptsNullOnly(root, dropped, a, v, fuel - 1);
        if !IsNullBranch(b) {
          SoleNonNull(branches, fallback, b);
        }
      }
    }
  }

  /** Two branches of a union with one non-null branch are not both non-null,
      and with two branches in all not both null. */
  lemma CountSplits(branches: seq<Value>, i: nat, j: nat)
    requires i < |branches| && j < |branches| && i != j && NonNullCount(branches) == 1
    ensures IsNullBranch(branches[i]) || IsNullBranch(branches[j])
    ensures |branches| == 2 ==> !(IsNullBranch(branches[i]) && IsNullBranch(branches[j]))
    ensures HasNullBranch(branches)
  {
    if !IsNullBranch(branches[i]) && !IsNullBranch(branches[j]) {
      TwoNonNull(branches, if i < j then i else j, if i < j then j else i);
    }
    if |branches| == 2 {
      assert NonNullCount(branches[1..][1..]) == 0;
    }
  }

  lemma {:induction false} TwoNonNull(branches: seq<Value>, i: nat, j: nat)
    requires i < j < |branches| && !IsNullBranch(branches[i]) && !IsNullBranch(branches[j])
    ensures NonNullCount(branches) >= 2
  {
    if i > 0 {
      TwoNonNull(branches[1..], i - 1, j - 1);
    } else {
      FirstNonNullFound(branches[1..], Null);
      assert branches[1..][j - 1] == branches[j];
    }
  }

  lemma {:induction false} PlainLosesNothing(root: Value, dropped: Dropped, node: Value, depth: nat, v: Value)
    requires Exact(root, dropped, node, depth)
    requires !("$ref" in node.members && node.members["$ref"].Text?) && UnionKey(node.members).None?
    requires DialectAccepts(Sanitize(node, Definitions(root), depth), v)
    ensures Accepts(root, dropped, node, v, MAX_DEPTH + 1 - depth)
    decreases MAX_DEPTH + 1 - depth, 0
  {
    var o, defs := node.members, Definitions(root);
    var props, elements := CleanProperties(o, defs, depth), CleanItems(o, defs, depth);
    AssembleAccepts(o, props, elements, v);
    ExactTypeAccepts(o, v);
    if v != Null {
      PropertiesLoseNothing(root, dropped, o, depth, v);
      ItemsLoseNothing(root, dropped, o, depth, v);
    }
    assert ChildrenOk(root, dropped, o, v, MAX_DEPTH + 1 - depth);
    PlainAccepts(root, dropped, o, v, MAX_DEPTH + 1 - depth);
  }

  lemma PropertyAccepts(o: map<string, Value>, defs: map<string, Value>, depth: nat, v: Value, k: string)
    requires depth <= MAX_DEPTH && ChildrenAccept(CleanProperties(o, defs, depth), None, v)
    requires v.Object? && "properties" in o && o["properties"].Object? && k in o["properties"].members && k in v.members
    ensures DialectAccepts(Sanitize(o["properties"].members[k], defs, depth + 1), v.members[k])
  {
    var props := CleanProperties(o, defs, depth).value.members;
    assert props[k] == Sanitize(o["properties"].members[k], defs, depth + 1);
  }

  lemma {:induction false} PropertyLosesNothing(root: Value, dropped: Dropped, o: map<string, Value>, depth: nat,
          v: Value, k: string)
    requires depth <= MAX_DEPTH && ChildrenAccept(CleanProperties(o, Definitions(root), depth), None, v)
    requires v.Object? && "properties" in o && o["properties"].Object? && k in o["properties"].members && k in v.members
    requires Exact(root, dropped, o["properties"].members[k], depth + 1)
    ensures Accepts(root, dropped, o["properties"].members[k], v.members[k], MAX_DEPTH - depth)
    decreases MAX_DEPTH + 1 - depth, 0, 0
  {
    PropertyAccepts(o, Definitions(root), depth, v, k);
    SanitizeLosesNothing(root, dropped, o["properties"].members[k], depth + 1, v.members[k]);
  }

  lemma {:induction false} PropertiesLoseNothing(root: Value, dropped: Dropped, o: map<string, Value>, depth: nat,
          v: Value)
    requires depth <= MAX_DEPTH && ChildrenAccept(CleanProperties(o, Definitions(root), depth), None, v)
    requires "properties" in o ==> o["properties"].Object?
    requires "properties" in o ==>
               forall k | k in o["properties"].members :: Exact(root, dropped, o["properties"].members[k], depth + 1)
    ensures v.Object? && "properties" in o ==>
              forall k | k in o["properties"].members && k in v.members ::
                Accepts(root, dropped, o["properties"].members[k], v.members[k], MAX_DEPTH - depth)
    decreases MAX_DEPTH + 1 - depth, 0, 1
  {
    if v.Object? && "properties" in o {
      forall k | k in o["properties"].members && k in v.members
        ensures Accepts(root, dropped, o["properties"].members[k], v.members[k], MAX_DEPTH - depth)
      {
        PropertyLosesNothing(root, dropped, o, depth, v, k);
      }
    }
  }

  lemma {:induction false} ItemsLoseNothing(root: Value, dropped: Dropped, o: map<string, Value>, depth: nat, v: Value)
    requires depth <= MAX_DEPTH && ChildrenAccept(None, CleanItems(o, Definitions(root), depth), v)
    requires "items" in o ==> Exact(root, dropped, o["items"], depth + 1)
    ensures v.Array? && "items" in o ==>
              forall i | 0 <= i < |v.items| :: Accepts(root, dropped, o["items"], v.items[i], MAX_DEPTH - depth)
    decreases MAX_DEPTH + 1 - depth, 0, 0
  {
    if v.Array? && "items" in o {
      forall i | 0 <= i < |v.items| ensures Accepts(root, dropped, o["items"], v.items[i], MAX_DEPTH - depth) {
        SanitizeLosesNothing(root, dropped, o["items"], depth + 1, v.items[i]);
      }
    }
  }

  lemma PlainAccepts(root: Value, dropped: Dropped, o: map<string, Value>, v: Value, fuel: nat)
    requires fuel > 0 && dropped(o, v)
    requires !("$ref" in o && o["$ref"].Text?) && UnionKey(o).None?
    requires TypeOk(o, v) && EnumOk(o, v) && RequiredOk(o, v) && ChildrenOk(root, dropped, o, v, fuel)
    ensures Accepts(root, dropped, Object(o), v, fuel)
  {
    assert InPlaceOk(root, dropped, o, v, fuel);
  }

  /** On an exact node the kept type and enum mean what the source's mean. */
  lemma ExactTypeAccepts(o: map<string, Value>, v: Value)
    requires ExactType(o)
    ensures (TypeOk(o, v) && EnumOk(o, v)) <==>
              (v == Null && TypeAllowsNull(o))
                  || (HasType(v, if "enum" in o then "string" else TypeWord(o)) && EnumOk(o, v))
  {
    if "type" in o && o["type"].Array? {
      var ts := o["type"].items;
      var t := WordFound(ts);
      if TypeOk(o, v) {
        var i :| 0 <= i < |ts| && ts[i].Text? && HasType(v, ts[i].text);
        if ts[i].text != "null" {
          SoleTypeWord(ts, ts[i]);
        }
      }
      if v == Null && TypeAllowsNull(o) {
        var j :| 0 <= j < |ts| && ts[j] == Text("null");
      }
    }
  }

  lemma {:induction false} WordFound(ts: seq<Value>) returns (i: nat)
    requires NonNullWords(ts) >= 1
    ensures i < |ts| && ts[i] == Text(FirstTypeWord(ts))
  {
    if ts[0].Text? && ts[0].text != "null" {
      i := 0;
    } else {
      i := WordFound(ts[1..]);
      i := i + 1;
    }
  }
}
