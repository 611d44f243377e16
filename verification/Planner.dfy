/** The planner.  Every cost comparison is left open, so what is proved holds
    for whichever access path the estimates favour. */
module Planner {
  import opened Values
  import opened LikePatterns
  import opened Predicates
  import opened Plans

  /** Every lookup the path makes has an index behind it. */
  predicate NodeIndexed(cat: Catalog, node: Node) {
    match node
    case Leaf(p) => HasIndex(cat, p.column, p.expr)
    case Intersection(children) => forall i :: 0 <= i < |children| ==> NodeIndexed(cat, children[i])
    case Union(children) => forall i :: 0 <= i < |children| ==> NodeIndexed(cat, children[i])
  }

  predicate PathIndexed(cat: Catalog, path: Path) {
    match path
    case FullScan => true
    case HashEq(column, expr, _) => HasIndex(cat, column, expr)
    case CompositeEq(columns, _) => columns in cat.composites && |columns| >= 2
    case OrderedRange(column, expr, _, _) => HasIndex(cat, column, expr)
    case HashIn(column, expr, _) => HasIndex(cat, column, expr)
    case PrefixLike(column, _) => column in cat.columns
    case IntersectPath(children) => forall i :: 0 <= i < |children| ==> NodeIndexed(cat, children[i])
    case UnionPath(children) => forall i :: 0 <= i < |children| ==> NodeIndexed(cat, children[i])
  }

  lemma {:induction false} ProbesIndexed(cat: Catalog, ps: seq<Predicate>)
    ensures forall i :: 0 <= i < |Probes(cat, ps)| ==> NodeIndexed(cat, Probes(cat, ps)[i])
  {
    if ps != [] {
      ProbesIndexed(cat, ps[1..]);
    }
  }

  ghost predicate Named(p: Option<Predicate>, names: set<string>) {
    p.Some? ==> Names(p.value) <= names
  }

  lemma {:induction false} UnindexedNamed(cat: Catalog, ps: seq<Predicate>, names: set<string>)
    requires AllNamed(ps, names)
    ensures AllNamed(Unindexed(cat, ps), names)
  {
    if ps != [] {
      UnindexedNamed(cat, ps[1..], names);
    }
  }

  // ----- Top-level OR ----------------------------------------------------------------

  /** The probes of an OR, with the arms that are no probes as residual. */
  ghost predicate UnionOf(cat: Catalog, p: Predicate, plan: Plan) {
    && p.Or? && plan.path == UnionPath(Probes(cat, Disjuncts(p)))
    && forall env: Env, row :: AnyHolds(env, Unindexed(cat, Disjuncts(p)), row) ==> Adds(env, plan.residual, row)
  }

  /** Equality arms become a union of probes; the others a complementary scan. */
  method PlanTopLevelOr(cat: Catalog, wher: Predicate) returns (plan: Option<Plan>)
    ensures plan.None? <==> !wher.Or?
    ensures plan.Some? ==> plan.value.path.FullScan? || plan.value.path.UnionPath?
    ensures plan.Some? ==> PathIndexed(cat, plan.value.path)
    ensures plan.Some? ==> Named(plan.value.residual, Names(wher)) && plan.value.complement.None?
    ensures plan.Some? && plan.value.path.UnionPath? ==> UnionOf(cat, wher, plan.value)
    ensures plan.Some? && Clean(cat, wher) ==>
      forall env: Env, row :: Selects(env, plan.value, Some(wher), row) <==> Eval(env, wher, row)
  {
    if !wher.Or? {
      return None;
    }
    var d := Disjuncts(wher);
    var probes: seq<Node>, rest: seq<Predicate> := [], [];
    for i := 0 to |d|
      invariant probes == Probes(cat, d[..i]) && rest == Unindexed(cat, d[..i])
    {
      assert d[..i + 1] == d[..i] + [d[i]];
      SplitAppend(cat, d[..i], d[i]);
      if IsProbe(cat, d[i]) {
        probes := probes + [Leaf(ProbeOf(d[i]))];
      } else {
        rest := rest + [d[i]];
      }
    }
    assert d[..|d|] == d;
    if probes == [] {
      return Some(Plan(FullScan, Some(wher), None));
    }
    if * {
      return Some(Plan(FullScan, Some(wher), None));
    }
    var residual := BuildOrTree(rest);
    ProbesIndexed(cat, d);
    PartsNamed(wher, Names(wher));
    UnindexedNamed(cat, d, Names(wher));
    if Clean(cat, wher) {
      CleanParts(cat, wher);
      forall env: Env, row
        ensures (AnyNode(env, probes, row) || Adds(env, residual, row)) <==> Eval(env, wher, row)
      {
        DisjunctsMean(env, wher, row);
        SplitMeans(env, cat, d, row);
      }
    }
    return Some(Plan(UnionPath(probes), residual, None));
  }

  // ----- AND of probes -----------------------------------------------------------------

  /** An OR some of whose arms, but not all, are equality probes. */
  predicate PartialOr(cat: Catalog, p: Predicate) {
    p.Or? && Probes(cat, Disjuncts(p)) != [] && Unindexed(cat, Disjuncts(p)) != []
  }

  /** What the index side knows of a conjunct: only its indexable arms if it is a
      partial OR. */
  ghost predicate IndexSide(env: Env, cat: Catalog, p: Predicate, row: Row) {
    if PartialOr(cat, p) then AnyNode(env, Probes(cat, Disjuncts(p)), row) else Eval(env, p, row)
  }

  /** What the complementary scan keeps of it: only its other arms. */
  ghost predicate ScanSide(env: Env, cat: Catalog, p: Predicate, row: Row) {
    if PartialOr(cat, p) then AnyHolds(env, Unindexed(cat, Disjuncts(p)), row) else Eval(env, p, row)
  }

  ghost predicate AllIndexSides(env: Env, cat: Catalog, ps: seq<Predicate>, row: Row) {
    forall i :: 0 <= i < |ps| ==> IndexSide(env, cat, ps[i], row)
  }

  ghost predicate AllScanSides(env: Env, cat: Catalog, ps: seq<Predicate>, row: Row) {
    forall i :: 0 <= i < |ps| ==> ScanSide(env, cat, ps[i], row)
  }

  lemma SidesMean(env: Env, cat: Catalog, p: Predicate, row: Row)
    requires Clean(cat, p)
    ensures Eval(env, p, row) <==> IndexSide(env, cat, p, row) || ScanSide(env, cat, p, row)
  {
    if PartialOr(cat, p) {
      CleanParts(cat, p);
      DisjunctsMean(env, p, row);
      SplitMeans(env, cat, Disjuncts(p), row);
    }
  }

  /** An OR that the index serves: all of it, or its indexable arms. */
  datatype Absorbed = Absorbed(original: Predicate, rest: seq<Predicate>)

  ghost predicate AbsorbedScan(env: Env, a: Absorbed, row: Row) {
    if a.rest == [] then Eval(env, a.original, row) else AnyHolds(env, a.rest, row)
  }

  ghost predicate AllAbsorbed(env: Env, ors: seq<Absorbed>, row: Row) {
    forall i :: 0 <= i < |ors| ==> AbsorbedScan(env, ors[i], row)
  }

  /** The conjuncts, sorted by how the intersect plan serves them. */
  datatype Sorted = Sorted(children: seq<Node>, equalities: seq<Predicate>, ors: seq<Absorbed>,
                           residual: seq<Predicate>)

  /** Sorting loses nothing on either side. */
  ghost predicate Sorts(cat: Catalog, ps: seq<Predicate>, s: Sorted) {
    && (forall env: Env, row ::
         AllNodes(env, s.children, row) && AllHold(env, s.residual, row) <==> AllIndexSides(env, cat, ps, row))
    && (forall env: Env, row ::
         AllHold(env, s.equalities, row) && AllAbsorbed(env, s.ors, row) && AllHold(env, s.residual, row)
         <==> AllScanSides(env, cat, ps, row))
    && ((exists i :: 0 <= i < |s.ors| && s.ors[i].rest != []) <==> exists i :: 0 <= i < |ps| && PartialOr(cat, ps[i]))
  }

  lemma AllNodesAppend(env: Env, ns: seq<Node>, n: Node, row: Row)
    ensures AllNodes(env, ns + [n], row) <==> AllNodes(env, ns, row) && NodeHolds(env, n, row)
  {
    var all := ns + [n];
    assert all[|ns|] == n;
    if AllNodes(env, all, row) {
      forall i | 0 <= i < |ns| ensures NodeHolds(env, ns[i], row) { assert all[i] == ns[i]; }
    }
  }

  lemma AllHoldAppend(env: Env, ps: seq<Predicate>, p: Predicate, row: Row)
    ensures AllHold(env, ps + [p], row) <==> AllHold(env, ps, row) && Eval(env, p, row)
  {
    AllHoldConcat(env, ps, [p], row);
    assert [p][0] == p;
  }

  lemma AllAbsorbedAppend(env: Env, ors: seq<Absorbed>, a: Absorbed, row: Row)
    ensures AllAbsorbed(env, ors + [a], row) <==> AllAbsorbed(env, ors, row) && AbsorbedScan(env, a, row)
  {
    var all := ors + [a];
    assert all[|ors|] == a;
    if AllAbsorbed(env, all, row) {
      forall i | 0 <= i < |ors| ensures AbsorbedScan(env, ors[i], row) { assert all[i] == ors[i]; }
    }
  }

  lemma SidesAppend(env: Env, cat: Catalog, ps: seq<Predicate>, p: Predicate, row: Row)
    ensures AllIndexSides(env, cat, ps + [p], row) <==> AllIndexSides(env, cat, ps, row) && IndexSide(env, cat, p, row)
    ensures AllScanSides(env, cat, ps + [p], row) <==> AllScanSides(env, cat, ps, row) && ScanSide(env, cat, p, row)
  {
    hide IndexSide, ScanSide;
    var all := ps + [p];
    assert all[|ps|] == p;
    assert forall i :: 0 <= i < |ps| ==> all[i] == ps[i];
    if AllIndexSides(env, cat, all, row) {
      forall i | 0 <= i < |ps| ensures IndexSide(env, cat, ps[i], row) { assert IndexSide(env, cat, all[i], row); }
    }
    if AllScanSides(env, cat, all, row) {
      forall i | 0 <= i < |ps| ensures ScanSide(env, cat, ps[i], row) { assert ScanSide(env, cat, all[i], row); }
    }
  }

  /** The next conjunct goes to the probes, to the absorbed ORs or to the residual. */
  function Place(cat: Catalog, s: Sorted, p: Predicate): Sorted {
    if IsProbe(cat, p) then s.(children := s.children + [Leaf(ProbeOf(p))], equalities := s.equalities + [p])
    else if p.Or? && Probes(cat, Disjuncts(p)) != [] then
      s.(children := s.children + [Union(Probes(cat, Disjuncts(p)))],
         ors := s.ors + [Absorbed(p, Unindexed(cat, Disjuncts(p)))])
    else s.(residual := s.residual + [p])
  }

  function SortAll(cat: Catalog, ps: seq<Predicate>): Sorted {
    if ps == [] then Sorted([], [], [], [])
    else Place(cat, SortAll(cat, ps[..|ps| - 1]), ps[|ps| - 1])
  }

  ghost predicate SortedNamed(s: Sorted, names: set<string>) {
    && AllNamed(s.equalities, names) && AllNamed(s.residual, names)
    && forall i :: 0 <= i < |s.ors| ==> Names(s.ors[i].original) <= names && AllNamed(s.ors[i].rest, names)
  }

  lemma {:induction false} SortAllNamed(cat: Catalog, ps: seq<Predicate>, names: set<string>)
    requires AllNamed(ps, names)
    ensures SortedNamed(SortAll(cat, ps), names)
  {
    if ps != [] {
      var p := ps[|ps| - 1];
      SortAllNamed(cat, ps[..|ps| - 1], names);
      PartsNamed(p, names);
      UnindexedNamed(cat, Disjuncts(p), names);
    }
  }

  lemma PlaceSides(env: Env, cat: Catalog, s: Sorted, p: Predicate, row: Row)
    requires Clean(cat, p)
    ensures var t := Place(cat, s, p);
      && (AllNodes(env, t.children, row) && AllHold(env, t.residual, row) <==>
           AllNodes(env, s.children, row) && AllHold(env, s.residual, row) && IndexSide(env, cat, p, row))
      && (AllHold(env, t.equalities, row) && AllAbsorbed(env, t.ors, row) && AllHold(env, t.residual, row) <==>
           AllHold(env, s.equalities, row) && AllAbsorbed(env, s.ors, row) && AllHold(env, s.residual, row) &&
           ScanSide(env, cat, p, row))
  {
    hide AllNodes, AllHold, AllAbsorbed, ProbeHolds;
    if IsProbe(cat, p) {
      ProbeMeans(env, cat, p, row);
      AllNodesAppend(env, s.children, Leaf(ProbeOf(p)), row);
      AllHoldAppend(env, s.equalities, p, row);
    } else if p.Or? && Probes(cat, Disjuncts(p)) != [] {
      var probes, rest := Probes(cat, Disjuncts(p)), Unindexed(cat, Disjuncts(p));
      CleanParts(cat, p);
      DisjunctsMean(env, p, row);
      SplitMeans(env, cat, Disjuncts(p), row);
      AllNodesAppend(env, s.children, Union(probes), row);
      AllAbsorbedAppend(env, s.ors, Absorbed(p, rest), row);
      assert NodeHolds(env, Union(probes), row) <==> AnyNode(env, probes, row);
    } else {
      AllHoldAppend(env, s.residual, p, row);
    }
  }

  lemma PlacePartial(cat: Catalog, ps: seq<Predicate>, s: Sorted, p: Predicate)
    requires (exists i :: 0 <= i < |s.ors| && s.ors[i].rest != []) <==>
      exists i :: 0 <= i < |ps| && PartialOr(cat, ps[i])
    ensures var t := Place(cat, s, p);
      (exists i :: 0 <= i < |t.ors| && t.ors[i].rest != []) <==>
        exists i :: 0 <= i < |ps + [p]| && PartialOr(cat, (ps + [p])[i])
  {
    hide Probes, Unindexed;
    var t, all := Place(cat, s, p), ps + [p];
    assert all[|ps|] == p;
    assert forall i :: 0 <= i < |ps| ==> all[i] == ps[i];
    assert forall i :: 0 <= i < |s.ors| ==> t.ors[i] == s.ors[i];
    if i :| 0 <= i < |s.ors| && s.ors[i].rest != [] {
      assert t.ors[i].rest != [];
      var j :| 0 <= j < |ps| && PartialOr(cat, ps[j]);
      assert PartialOr(cat, all[j]);
    } else if PartialOr(cat, p) {
      assert t.ors[|s.ors|].rest != [];
    }
  }

  lemma PlaceSorts(cat: Catalog, ps: seq<Predicate>, s: Sorted, p: Predicate)
    requires Sorts(cat, ps, s) && Clean(cat, p)
    ensures Sorts(cat, ps + [p], Place(cat, s, p))
  {
    hide AllNodes, AllHold, AllAbsorbed, AllIndexSides, AllScanSides, IndexSide, ScanSide, Place, PartialOr;
    var t := Place(cat, s, p);
    PlacePartial(cat, ps, s, p);
    forall env: Env, row
      ensures AllNodes(env, t.children, row) && AllHold(env, t.residual, row) <==>
        AllIndexSides(env, cat, ps + [p], row)
      ensures AllHold(env, t.equalities, row) && AllAbsorbed(env, t.ors, row) && AllHold(env, t.residual, row)
              <==> AllScanSides(env, cat, ps + [p], row)
    {
      PlaceSides(env, cat, s, p, row);
      SidesAppend(env, cat, ps, p, row);
      assert AllNodes(env, s.children, row) && AllHold(env, s.residual, row) <==> AllIndexSides(env, cat, ps, row);
    }
  }

  method PlaceConjunct(cat: Catalog, s: Sorted, p: Predicate) returns (t: Sorted)
    ensures t == Place(cat, s, p) && |t.children| <= |s.children| + 1
    ensures AllIndexed(cat, s.children) ==> AllIndexed(cat, t.children)
  {
    if IsProbe(cat, p) {
      return s.(children := s.children + [Leaf(ProbeOf(p))], equalities := s.equalities + [p]);
    }
    var split := SplitOr(cat, p);
    if split.Some? {
      ProbesIndexed(cat, Disjuncts(p));
      return s.(children := s.children + [Union(split.value.probes)], ors := s.ors + [Absorbed(p, split.value.rest)]);
    }
    return s.(residual := s.residual + [p]);
  }

  predicate AllIndexed(cat: Catalog, nodes: seq<Node>) {
    forall i :: 0 <= i < |nodes| ==> NodeIndexed(cat, nodes[i])
  }

  method SortConjuncts(cat: Catalog, ps: seq<Predicate>) returns (s: Sorted)
    ensures s == SortAll(cat, ps)
    ensures (forall i :: 0 <= i < |ps| ==> Clean(cat, ps[i])) ==> Sorts(cat, ps, s)
    ensures |s.children| >= 2 ==> |ps| >= 2
    ensures AllIndexed(cat, s.children)
  {
    hide Place, Sorts;
    s := Sorted([], [], [], []);
    ghost var clean := forall i :: 0 <= i < |ps| ==> Clean(cat, ps[i]);
    NothingSorted(cat);
    assert ps[..0] == [];
    for i := 0 to |ps|
      invariant |s.children| <= i && AllIndexed(cat, s.children)
      invariant s == SortAll(cat, ps[..i])
      invariant clean ==> Sorts(cat, ps[..i], s)
    {
      assert ps[..i + 1] == ps[..i] + [ps[i]];
      assert ps[..i + 1][..i] == ps[..i];
      if clean {
        PlaceSorts(cat, ps[..i], s, ps[i]);
      }
      s := PlaceConjunct(cat, s, ps[i]);
    }
    assert ps[..|ps|] == ps;
  }

  lemma NothingSorted(cat: Catalog)
    ensures Sorts(cat, [], Sorted([], [], [], []))
  {
  }

  /** The parts of the complementary filter. */
  method ScanParts(cat: Catalog, s: Sorted) returns (parts: seq<Predicate>)
    ensures |parts| >= |s.ors|
    ensures forall names :: SortedNamed(s, names) ==> AllNamed(parts, names)
    ensures forall env: Env, row :: AllHold(env, parts, row) <==>
      AllHold(env, s.equalities, row) && AllAbsorbed(env, s.ors, row) && AllHold(env, s.residual, row)
  {
    hide AllHold, AllAbsorbed;
    parts := s.equalities;
    NothingAbsorbed();
    assert s.ors[..0] == [];
    for i := 0 to |s.ors|
      invariant |parts| >= i
      invariant forall names :: SortedNamed(s, names) ==> AllNamed(parts, names)
      invariant forall env: Env, row :: AllHold(env, parts, row) <==>
        AllHold(env, s.equalities, row) && AllAbsorbed(env, s.ors[..i], row)
    {
      ghost var was := parts;
      var part := s.ors[i].original;
      if s.ors[i].rest != [] {
        var tree := BuildOrTree(s.ors[i].rest);
        part := tree.value;
        assert forall env: Env, row :: Adds(env, tree, row) <==> AnyHolds(env, s.ors[i].rest, row);
      }
      parts := parts + [part];
      assert s.ors[..i + 1] == s.ors[..i] + [s.ors[i]];
      forall env: Env, row
        ensures AllHold(env, parts, row) <==> AllHold(env, s.equalities, row) && AllAbsorbed(env, s.ors[..i + 1], row)
      {
        AllHoldAppend(env, was, part, row);
        AllAbsorbedAppend(env, s.ors[..i], s.ors[i], row);
        assert AllHold(env, was, row) <==> AllHold(env, s.equalities, row) && AllAbsorbed(env, s.ors[..i], row);
      }
    }
    assert s.ors[..|s.ors|] == s.ors;
    ghost var was := parts;
    parts := parts + s.residual;
    forall env: Env, row
      ensures AllHold(env, parts, row) <==>
        AllHold(env, s.equalities, row) && AllAbsorbed(env, s.ors, row) && AllHold(env, s.residual, row)
    {
      AllHoldConcat(env, was, s.residual, row);
      assert AllHold(env, was, row) <==> AllHold(env, s.equalities, row) && AllAbsorbed(env, s.ors, row);
    }
  }

  lemma NothingAbsorbed()
    ensures forall env: Env, row :: AllAbsorbed(env, [], row)
  {
  }

  predicate HasPartial(cat: Catalog, ps: seq<Predicate>) {
    exists i :: 0 <= i < |ps| && PartialOr(cat, ps[i])
  }

  /** What the intersect plan selects: the rows on the index side of every
      conjunct, and with a partial OR also those on the scan side of every one. */
  ghost predicate IntersectSelects(env: Env, cat: Catalog, ps: seq<Predicate>, row: Row) {
    AllIndexSides(env, cat, ps, row) || (HasPartial(cat, ps) && AllScanSides(env, cat, ps, row))
  }

  /** The probes of all conjuncts that have some, and the rows they may miss. */
  ghost predicate IntersectOf(cat: Catalog, ps: seq<Predicate>, plan: Plan) {
    var s := SortAll(cat, ps);
    && plan.path == IntersectPath(s.children) && s.children != []
    && ((exists i :: 0 <= i < |s.ors| && s.ors[i].rest != []) ==>
         forall env: Env, row ::
           AllHold(env, s.equalities, row) && AllAbsorbed(env, s.ors, row) && AllHold(env, s.residual, row) ==>
             Adds(env, plan.complement, row))
  }

  method PlanAndIntersect(cat: Catalog, ps: seq<Predicate>) returns (plan: Option<Plan>)
    ensures plan.Some? ==> IntersectOf(cat, ps, plan.value)
    ensures plan.Some? ==> forall names :: AllNamed(ps, names) ==>
      Named(plan.value.residual, names) && Named(plan.value.complement, names)
    ensures plan.Some? ==> plan.value.path.IntersectPath? && |ps| >= 2 && PathIndexed(cat, plan.value.path)
    ensures plan.Some? && (forall i :: 0 <= i < |ps| ==> Clean(cat, ps[i])) ==>
      forall env: Env, row, wher :: Selects(env, plan.value, wher, row) <==> IntersectSelects(env, cat, ps, row)
  {
    hide AllNodes, AllHold, AllAbsorbed, AllIndexSides, AllScanSides, PartialOr;
    var s := SortConjuncts(cat, ps);
    if |s.children| < 2 {
      return None;
    }
    if * {
      return None;
    }
    var residual := BuildAndTree(s.residual);
    forall names | AllNamed(ps, names) ensures SortedNamed(s, names) {
      SortAllNamed(cat, ps, names);
    }
    if forall i :: 0 <= i < |s.ors| ==> s.ors[i].rest == [] {
      return Some(Plan(IntersectPath(s.children), residual, None));
    }
    var parts := ScanParts(cat, s);
    var complement := BuildAndTree(parts);
    return Some(Plan(IntersectPath(s.children), residual, complement));
  }

  // ----- Composite equality ---------------------------------------------------------------

  predicate PlainEquality(p: Predicate) {
    IsEquality(p) && p.expr.None?
  }

  /** Each column with the first conjunct that fixes it. */
  ghost predicate Fixes(ps: seq<Predicate>, m: map<string, nat>) {
    forall c :: c in m ==> m[c] < |ps| && PlainEquality(ps[m[c]]) && ps[m[c]].column == c
  }

  method EqualityByColumn(ps: seq<Predicate>) returns (m: map<string, nat>)
    ensures Fixes(ps, m)
  {
    m := map[];
    for i := 0 to |ps|
      invariant Fixes(ps, m)
    {
      if PlainEquality(ps[i]) && ps[i].column !in m {
        m := m[ps[i].column := i];
      }
    }
  }

  /** The conjuncts at the given positions, and the others. */
  function Others(ps: seq<Predicate>, taken: set<nat>, i: nat): seq<Predicate>
    requires i <= |ps|
    decreases |ps| - i
  {
    if i == |ps| then []
    else (if i in taken then [] else [ps[i]]) + Others(ps, taken, i + 1)
  }

  lemma {:induction false} OthersMean(env: Env, ps: seq<Predicate>, taken: set<nat>, i: nat, row: Row)
    requires i <= |ps|
    ensures AllHold(env, Others(ps, taken, i), row) <==>
      forall k :: i <= k < |ps| && k !in taken ==> Eval(env, ps[k], row)
    decreases |ps| - i
  {
    if i < |ps| {
      OthersMean(env, ps, taken, i + 1, row);
      AllHoldConcat(env, if i in taken then [] else [ps[i]], Others(ps, taken, i + 1), row);
      assert AllHold(env, [ps[i]], row) <==> Eval(env, ps[i], row) by { assert [ps[i]][0] == ps[i]; }
    }
  }

  method KeepOthers(ps: seq<Predicate>, taken: set<nat>) returns (rest: seq<Predicate>)
    ensures rest == Others(ps, taken, 0)
  {
    rest := [];
    for i := 0 to |ps|
      invariant rest + Others(ps, taken, i) == Others(ps, taken, 0)
    {
      if i !in taken {
        rest := rest + [ps[i]];
      }
    }
  }

  datatype Cover = Cover(columns: seq<string>, values: seq<Value>, taken: set<nat>)

  /** The probe asks for exactly what the absorbed conjuncts ask for. */
  ghost predicate Absorbs(ps: seq<Predicate>, c: Cover) {
    forall env: Env, row ::
      CompositeHolds(env, c.columns, c.values, row) <==> forall k :: k in c.taken ==> k < |ps| && Eval(env, ps[k], row)
  }

  /** None unless every column of the index is fixed by a conjunct. */
  method CoverComposite(ps: seq<Predicate>, m: map<string, nat>, columns: seq<string>) returns (c: Option<Cover>)
    requires Fixes(ps, m)
    ensures c.Some? <==> forall i :: 0 <= i < |columns| ==> columns[i] in m
    ensures c.Some? ==> c.value.columns == columns && Absorbs(ps, c.value) && |c.value.values| == |columns|
    ensures c.Some? ==> forall k :: k in c.value.taken ==> k < |ps|
    ensures c.Some? && columns != [] ==> CompositeOf(ps, CompositeEq(columns, c.value.values))
  {
    var values: seq<Value>, taken: set<nat> := [], {};
    for i := 0 to |columns|
      invariant |values| == i
      invariant forall j ::
        0 <= j < i ==> columns[j] in m && values[j] == ps[m[columns[j]]].value && m[columns[j]] in taken
      invariant forall k :: k in taken ==> k < |ps| && PlainEquality(ps[k])
      invariant forall k :: k in taken ==> exists j :: 0 <= j < i && m[columns[j]] == k
    {
      if columns[i] !in m {
        return None;
      }
      values := values + [ps[m[columns[i]]].value];
      taken := taken + {m[columns[i]]};
    }
    c := Some(Cover(columns, values, taken));
    if columns != [] {
      assert PlainEquality(ps[m[columns[0]]]) && ps[m[columns[0]]].column == columns[0];
    }
    forall env: Env, row
      ensures CompositeHolds(env, columns, values, row) <==>
        forall k :: k in taken ==> k < |ps| && Eval(env, ps[k], row)
    {
      forall j | 0 <= j < |columns|
        ensures env.cell(row, columns[j]) == values[j] <==> Eval(env, ps[m[columns[j]]], row)
      {
      }
      if CompositeHolds(env, columns, values, row) {
        forall k | k in taken ensures Eval(env, ps[k], row) {
          var j :| 0 <= j < |columns| && m[columns[j]] == k;
        }
      }
    }
  }

  /** The first column is fixed by one of the conjuncts. */
  ghost predicate CompositeOf(ps: seq<Predicate>, path: Path) {
    && path.CompositeEq? && path.columns != [] && path.values != []
    && exists k ::
       0 <= k < |ps| && PlainEquality(ps[k]) && ps[k].column == path.columns[0] && ps[k].value == path.values[0]
  }

  lemma {:induction false} OthersNamed(ps: seq<Predicate>, taken: set<nat>, i: nat, names: set<string>)
    requires i <= |ps| && AllNamed(ps, names)
    ensures AllNamed(Others(ps, taken, i), names)
    decreases |ps| - i
  {
    if i < |ps| {
      OthersNamed(ps, taken, i + 1, names);
    }
  }

  method PlanCompositeEq(cat: Catalog, ps: seq<Predicate>) returns (plan: Option<Plan>)
    ensures plan.Some? ==> plan.value.path.CompositeEq? && |plan.value.path.columns| >= 2
    ensures plan.Some? ==> plan.value.path.columns in cat.composites
    ensures plan.Some? ==> CompositeOf(ps, plan.value.path)
    ensures plan.Some? ==> forall names :: AllNamed(ps, names) ==> Named(plan.value.residual, names)
    ensures plan.Some? ==> plan.value.complement.None?
    ensures plan.Some? ==> forall env: Env, row, wher :: Selects(env, plan.value, wher, row) <==> AllHold(env, ps, row)
  {
    var m := EqualityByColumn(ps);
    if |m| < 2 {
      return None;
    }
    var best: Option<Cover> := None;
    for i := 0 to |cat.composites|
      invariant best.Some? ==>
        Absorbs(ps, best.value) && |best.value.columns| >= 2 && best.value.columns in cat.composites
      invariant best.Some? ==> forall k :: k in best.value.taken ==> k < |ps|
      invariant best.Some? ==> CompositeOf(ps, CompositeEq(best.value.columns, best.value.values))
    {
      if |cat.composites[i]| >= 2 {
        var c := CoverComposite(ps, m, cat.composites[i]);
        if c.Some? {
          if * {
            best := c;
          }
        }
      }
    }
    if best.None? {
      return None;
    }
    var rest := KeepOthers(ps, best.value.taken);
    var residual := BuildAndTree(rest);
    forall names | AllNamed(ps, names) ensures AllNamed(rest, names) {
      OthersNamed(ps, best.value.taken, 0, names);
    }
    plan := Some(Plan(CompositeEq(best.value.columns, best.value.values), residual, None));
    forall env: Env, row, wher ensures Selects(env, plan.value, wher, row) <==> AllHold(env, ps, row) {
      OthersMean(env, ps, best.value.taken, 0, row);
      assert Passes(env, residual, row) <==> AllHold(env, rest, row);
      assert CompositeHolds(env, best.value.columns, best.value.values, row) <==>
        forall k :: k in best.value.taken ==> k < |ps| && Eval(env, ps[k], row);
    }
  }

  // ----- The best single conjunct ----------------------------------------------------------

  function GramNodes(column: string, grams: seq<string>): seq<Node> {
    seq(|grams|, i requires 0 <= i < |grams| => Leaf(Probe(column, Some(Trigram(column)), Str(grams[i]))))
  }

  datatype Kind = ByEquality | ByRange | ByList | ByPrefix | ByTrigrams(grams: seq<Node>) | ByUnion(probes: seq<Node>)
  datatype Choice = NoIndex | Chosen(index: nat, kind: Kind)

  /** What makes a conjunct eligible for each kind of path. */
  predicate Eligible(cat: Catalog, p: Predicate, kind: Kind) {
    match kind
    case ByEquality => IsProbe(cat, p)
    case ByRange => p.Comparison? && p.rhs.None? && p.op != Eq && HasIndex(cat, p.column, p.expr)
    case ByList => p.InList? && p.values != [] && HasIndex(cat, p.column, p.expr)
    case ByPrefix => p.Like? && PrefixLiteral(p.pattern).Some? && p.column in cat.columns
    case ByTrigrams(grams) =>
      && p.Like? && PrefixLiteral(p.pattern).None? && ContainsLiteral(p.pattern).Some?
      && |ContainsLiteral(p.pattern).value| >= 3 && Trigram(p.column) in cat.exprs
      && grams == GramNodes(p.column, Grams(ContainsLiteral(p.pattern).value))
    case ByUnion(probes) =>
      p.Or? && probes == Probes(cat, Disjuncts(p)) && probes != [] && Unindexed(cat, Disjuncts(p)) == []
  }

  method TrigramNodes(column: string, needle: string) returns (nodes: seq<Node>)
    ensures nodes == GramNodes(column, Grams(needle))
  {
    var grams := ExtractTrigrams(needle);
    nodes := [];
    for i := 0 to |grams|
      invariant |nodes| == i
      invariant forall j :: 0 <= j < i ==> nodes[j] == Leaf(Probe(column, Some(Trigram(column)), Str(grams[j])))
    {
      nodes := nodes + [Leaf(Probe(column, Some(Trigram(column)), Str(grams[i])))];
    }
  }

  method ChooseBestConjunct(cat: Catalog, ps: seq<Predicate>) returns (best: Choice)
    ensures best.Chosen? ==> best.index < |ps| && Eligible(cat, ps[best.index], best.kind)
  {
    best := NoIndex;
    for i := 0 to |ps|
      invariant best.Chosen? ==> best.index < i && Eligible(cat, ps[best.index], best.kind)
    {
      var p := ps[i];
      if p.Comparison? && p.rhs.None? && HasIndex(cat, p.column, p.expr) {
        if * {
          best := Chosen(i, if p.op == Eq then ByEquality else ByRange);
        }
      }
      if p.InList? && p.values != [] && HasIndex(cat, p.column, p.expr) {
        if * {
          best := Chosen(i, ByList);
        }
      }
      if p.Like? {
        if PrefixLiteral(p.pattern).Some? {
          if p.column in cat.columns {
            if * {
              best := Chosen(i, ByPrefix);
            }
          }
        } else if ContainsLiteral(p.pattern).Some? {
          var needle := ContainsLiteral(p.pattern).value;
          if |needle| >= 3 && Trigram(p.column) in cat.exprs {
            var nodes := TrigramNodes(p.column, needle);
            if * {
              best := Chosen(i, ByTrigrams(nodes));
            }
          }
        }
      }
      var split := SplitOr(cat, p);
      if split.Some? && split.value.rest == [] {
        if * {
          best := Chosen(i, ByUnion(split.value.probes));
        }
      }
    }
  }

  /** Approximate probes keep their conjunct as a filter. */
  predicate Exact(kind: Kind) {
    !kind.ByPrefix? && !kind.ByTrigrams?
  }

  function PathFor(p: Predicate, kind: Kind): Path
    requires kind.ByEquality? || kind.ByRange? ==> p.Comparison?
    requires kind.ByList? ==> p.InList?
    requires kind.ByPrefix? ==> p.Like? && PrefixLiteral(p.pattern).Some?
  {
    match kind
    case ByEquality => HashEq(p.column, p.expr, p.value)
    case ByRange => OrderedRange(p.column, p.expr, p.op, p.value)
    case ByList => HashIn(p.column, p.expr, p.values)
    case ByPrefix => PrefixLike(p.column, PrefixLiteral(p.pattern).value)
    case ByTrigrams(grams) => IntersectPath(grams)
    case ByUnion(probes) => UnionPath(probes)
  }

  /** An exact path finds the rows of its conjunct; an approximate one finds at
      least those. */
  lemma PathMeans(env: Env, cat: Catalog, p: Predicate, kind: Kind, row: Row)
    requires Eligible(cat, p, kind) && Clean(cat, p)
    ensures Eval(env, p, row) ==> PathHolds(env, PathFor(p, kind), row)
    ensures Exact(kind) && PathHolds(env, PathFor(p, kind), row) ==> Eval(env, p, row)
  {
    match kind {
      case ByEquality => ProbeMeans(env, cat, p, row);
      case ByRange =>
      case ByList =>
        if Eval(env, p, row) {
          var i :| 0 <= i < |p.values| && p.values[i] == Operand(env, p.column, p.expr, row);
          assert ProbeHolds(env, Probe(p.column, p.expr, p.values[i]), row);
        }
      case ByPrefix =>
        if Eval(env, p, row) {
          PrefixFilter(env.cell(row, p.column).s, p.pattern);
        }
      case ByTrigrams(grams) =>
        if Eval(env, p, row) {
          var needle := ContainsLiteral(p.pattern).value;
          TrigramFilter(env.cell(row, p.column).s, p.pattern);
          forall i | 0 <= i < |grams| ensures NodeHolds(env, grams[i], row) {
            assert Grams(needle)[i] in Grams(needle);
          }
        }
      case ByUnion(probes) =>
        CleanParts(cat, p);
        DisjunctsMean(env, p, row);
        SplitMeans(env, cat, Disjuncts(p), row);
    }
  }

  /** `finalizeBestAccessPath`. */
  method FinalizeBest(cat: Catalog, ps: seq<Predicate>, best: Choice) returns (plan: Plan)
    requires best.Chosen? && best.index < |ps| && Eligible(cat, ps[best.index], best.kind)
    ensures plan.path == PathFor(ps[best.index], best.kind) && plan.complement.None?
    ensures best.kind.ByUnion? ==> (plan.residual.None? <==> |ps| == 1)
    ensures forall names :: AllNamed(ps, names) ==> Named(plan.residual, names)
    ensures best.kind.ByPrefix? ==> forall env: Env, row :: AllHold(env, ps, row) ==> Adds(env, plan.residual, row)
    ensures (forall i :: 0 <= i < |ps| ==> Clean(cat, ps[i])) && !best.kind.ByUnion? ==>
      forall env: Env, row, wher :: Selects(env, plan, wher, row) <==> AllHold(env, ps, row)
    ensures (forall i :: 0 <= i < |ps| ==> Clean(cat, ps[i])) && best.kind.ByUnion? ==>
      forall env: Env, row, wher :: Selects(env, plan, wher, row) <==>
        Eval(env, ps[best.index], row) || (|ps| > 1 && AllHold(env, Others(ps, {best.index}, 0), row))
    ensures (forall i :: 0 <= i < |ps| ==> Clean(cat, ps[i])) && best.kind.ByUnion? ==>
      forall env: Env, row, wher :: AllHold(env, ps, row) ==> Selects(env, plan, wher, row)
    ensures (forall i :: 0 <= i < |ps| ==> Clean(cat, ps[i])) && |ps| == 1 ==>
      forall env: Env, row, wher :: Selects(env, plan, wher, row) <==> AllHold(env, ps, row)
  {
    hide AllHold, PathHolds;
    var taken := if Exact(best.kind) then {best.index} else {};
    var rest := KeepOthers(ps, taken);
    var residual := BuildAndTree(rest);
    forall names | AllNamed(ps, names) ensures AllNamed(rest, names) {
      OthersNamed(ps, taken, 0, names);
    }
    if best.kind.ByPrefix? {
      OthersAll(ps, 0);
    }
    plan := Plan(PathFor(ps[best.index], best.kind), residual, None);
    OthersCount(ps, best.index, 0);
    if forall i :: 0 <= i < |ps| ==> Clean(cat, ps[i]) {
      forall env: Env, row
        ensures PathHolds(env, plan.path, row) && AllHold(env, rest, row) <==> AllHold(env, ps, row)
        ensures Passes(env, residual, row) <==> AllHold(env, rest, row)
        ensures best.kind.ByUnion? ==> (PathHolds(env, plan.path, row) <==> Eval(env, ps[best.index], row))
        ensures AllHold(env, ps, row) ==> Eval(env, ps[best.index], row)
        ensures |ps| == 1 ==> (AllHold(env, ps, row) <==> Eval(env, ps[best.index], row))
      {
        PathMeans(env, cat, ps[best.index], best.kind, row);
        OthersMean(env, ps, taken, 0, row);
        AllHoldUnfold(env, ps, row);
      }
    }
  }

  lemma AllHoldUnfold(env: Env, ps: seq<Predicate>, row: Row)
    ensures AllHold(env, ps, row) <==> forall i :: 0 <= i < |ps| ==> Eval(env, ps[i], row)
  {
  }

  lemma {:induction false} OthersAll(ps: seq<Predicate>, i: nat)
    requires i <= |ps|
    ensures Others(ps, {}, i) == ps[i..]
    decreases |ps| - i
  {
    if i < |ps| {
      OthersAll(ps, i + 1);
      assert ps[i..] == [ps[i]] + ps[i + 1..];
    }
  }

  lemma {:induction false} OthersCount(ps: seq<Predicate>, index: nat, i: nat)
    requires i <= |ps| && index < |ps|
    ensures |Others(ps, {index}, i)| == |ps| - i - (if i <= index then 1 else 0)
    decreases |ps| - i
  {
    if i < |ps| {
      OthersCount(ps, index, i + 1);
    }
  }

  // ----- The whole pipeline --------------------------------------------------------------------

  function FoldAll(ps: seq<Predicate>): seq<Predicate> {
    seq(|ps|, i requires 0 <= i < |ps| => Folded(ps[i]))
  }

  /** The conjuncts the planner works with. */
  function PlannedConjuncts(wher: Predicate): seq<Predicate> {
    FoldAll(Conjuncts(Folded(wher)))
  }

  lemma PlannedMeans(env: Env, wher: Predicate, row: Row)
    ensures AllHold(env, PlannedConjuncts(wher), row) <==> Eval(env, wher, row)
  {
    var raw := Conjuncts(Folded(wher));
    FoldedMeans(env, wher, row);
    ConjunctsMean(env, Folded(wher), row);
    forall i | 0 <= i < |raw| ensures Eval(env, PlannedConjuncts(wher)[i], row) <==> Eval(env, raw[i], row) {
      FoldedMeans(env, raw[i], row);
    }
  }

  lemma PlannedClean(cat: Catalog, wher: Predicate)
    requires Clean(cat, wher)
    ensures forall i :: 0 <= i < |PlannedConjuncts(wher)| ==> Clean(cat, PlannedConjuncts(wher)[i])
  {
    CleanFolded(cat, wher);
    CleanParts(cat, Folded(wher));
    var raw := Conjuncts(Folded(wher));
    forall i | 0 <= i < |raw| ensures Clean(cat, PlannedConjuncts(wher)[i]) {
      CleanFolded(cat, raw[i]);
    }
  }

  function PartialCount(cat: Catalog, ps: seq<Predicate>): nat {
    if ps == [] then 0 else PartialCount(cat, ps[1..]) + (if PartialOr(cat, ps[0]) then 1 else 0)
  }

  lemma {:induction false} CountBounds(cat: Catalog, ps: seq<Predicate>, i: nat, j: nat)
    requires i < j < |ps| && PartialOr(cat, ps[i]) && PartialOr(cat, ps[j])
    ensures PartialCount(cat, ps) >= 2
  {
    if i > 0 {
      CountBounds(cat, ps[1..], i - 1, j - 1);
    } else {
      CountsOne(cat, ps[1..], j - 1);
    }
  }

  lemma {:induction false} CountsOne(cat: Catalog, ps: seq<Predicate>, j: nat)
    requires j < |ps| && PartialOr(cat, ps[j])
    ensures PartialCount(cat, ps) >= 1
  {
    if j > 0 {
      CountsOne(cat, ps[1..], j - 1);
    }
  }

  /** The intersect plan never returns a wrong row, and loses none unless two of
      the conjuncts are partial ORs. */
  lemma IntersectMeans(env: Env, cat: Catalog, ps: seq<Predicate>, row: Row)
    requires forall i :: 0 <= i < |ps| ==> Clean(cat, ps[i])
    ensures IntersectSelects(env, cat, ps, row) ==> AllHold(env, ps, row)
    ensures PartialCount(cat, ps) <= 1 && AllHold(env, ps, row) ==> IntersectSelects(env, cat, ps, row)
  {
    hide PartialCount;
    forall i | 0 <= i < |ps|
      ensures Eval(env, ps[i], row) <==> IndexSide(env, cat, ps[i], row) || ScanSide(env, cat, ps[i], row)
    {
      SidesMean(env, cat, ps[i], row);
    }
    if PartialCount(cat, ps) <= 1 && AllHold(env, ps, row) {
      if HasPartial(cat, ps) {
        var j :| 0 <= j < |ps| && PartialOr(cat, ps[j]);
        forall i | 0 <= i < |ps| && i != j ensures IndexSide(env, cat, ps[i], row) && ScanSide(env, cat, ps[i], row) {
          if PartialOr(cat, ps[i]) {
            CountBounds(cat, ps, if i < j then i else j, if i < j then j else i);
          }
        }
        assert IndexSide(env, cat, ps[j], row) || ScanSide(env, cat, ps[j], row);
      }
    }
  }

  /** A row of the query is lost exactly when it meets one partial OR only by its
      indexable arms and another only by its other arms. */
  lemma LostExactly(env: Env, cat: Catalog, ps: seq<Predicate>, row: Row)
    requires (forall i :: 0 <= i < |ps| ==> Clean(cat, ps[i])) && AllHold(env, ps, row)
    ensures !IntersectSelects(env, cat, ps, row) <==> Torn(env, cat, ps, row)
  {
    if !IntersectSelects(env, cat, ps, row) {
      var j :| 0 <= j < |ps| && !IndexSide(env, cat, ps[j], row);
      assert PartialOr(cat, ps[j]);
      var i :| 0 <= i < |ps| && !ScanSide(env, cat, ps[i], row);
      assert PartialOr(cat, ps[i]);
    }
  }

  /** A union taken from one conjunct of several: its residual is meant as a
      filter, but the executor treats it as an alternative. */
  predicate MixedUnion(wher: Predicate, plan: Plan) {
    !wher.Or? && plan.path.UnionPath? && plan.residual.Some?
  }

  /** The two shapes whose plan means something else than the query. */
  predicate Misread(cat: Catalog, wher: Predicate, plan: Plan) {
    || MixedUnion(wher, plan)
    || (plan.path.IntersectPath? && PartialCount(cat, PlannedConjuncts(wher)) >= 2)
  }

  /** An OR all of whose arms are equality probes. */
  predicate ProbeOr(cat: Catalog, p: Predicate) {
    p.Or? && Probes(cat, Disjuncts(p)) != [] && Unindexed(cat, Disjuncts(p)) == []
  }

  /** At most one partial OR, and no OR of probes beside another conjunct. */
  predicate WellRead(cat: Catalog, query: Predicate) {
    var ps := PlannedConjuncts(query);
    PartialCount(cat, ps) <= 1 && (|ps| > 1 ==> forall i :: 0 <= i < |ps| ==> !ProbeOr(cat, ps[i]))
  }

  /** The rows of a union taken from conjunct `i`: they satisfy it or all the others. */
  ghost predicate EitherHolds(env: Env, ps: seq<Predicate>, i: nat, row: Row)
    requires i < |ps|
  {
    Eval(env, ps[i], row) || AllHold(env, Others(ps, {i}, 0), row)
  }

  /** The row meets one partial OR only by its indexable arms and another only by its
      other arms. */
  ghost predicate Torn(env: Env, cat: Catalog, ps: seq<Predicate>, row: Row) {
    exists i, j :: 0 <= i < |ps| && 0 <= j < |ps| && PartialOr(cat, ps[i]) && PartialOr(cat, ps[j]) &&
      !ScanSide(env, cat, ps[i], row) && !IndexSide(env, cat, ps[j], row)
  }

  ghost predicate ReadsExactly(ps: seq<Predicate>, plan: Plan) {
    forall env: Env, row, wher :: Selects(env, plan, wher, row) <==> AllHold(env, ps, row)
  }

  /** The plan adds exactly the rows that satisfy only the conjunct or only the others. */
  ghost predicate MixesAt(cat: Catalog, ps: seq<Predicate>, plan: Plan, i: nat) {
    && 1 < |ps| && i < |ps| && ProbeOr(cat, ps[i])
    && (AllClean(cat, ps) ==>
         forall env: Env, row, wher :: Selects(env, plan, wher, row) <==> EitherHolds(env, ps, i, row))
  }

  /** The plan loses exactly the rows that two partial ORs split. */
  ghost predicate LosesSplit(cat: Catalog, ps: seq<Predicate>, plan: Plan) {
    forall env: Env, row, wher ::
      Selects(env, plan, wher, row) <==> AllHold(env, ps, row) && !Torn(env, cat, ps, row)
  }

  lemma ChoiceIndexed(cat: Catalog, p: Predicate, kind: Kind)
    requires Eligible(cat, p, kind)
    ensures PathIndexed(cat, PathFor(p, kind))
  {
    if kind.ByUnion? {
      ProbesIndexed(cat, Disjuncts(p));
    }
  }

  /** Every plan the planner can produce for a query. */
  ghost predicate Emits(cat: Catalog, query: Predicate, plan: Plan) {
    var ps := PlannedConjuncts(query);
    && Named(plan.residual, Names(query)) && Named(plan.complement, Names(query))
    && (|| plan.path.FullScan?
        || UnionOf(cat, query, plan)
        || CompositeOf(ps, plan.path)
        || IntersectOf(cat, ps, plan)
        || ConjunctOf(cat, ps, plan))
  }

  /** The path of one conjunct; a prefix probe keeps its conjunct as a filter. */
  ghost predicate ConjunctOf(cat: Catalog, ps: seq<Predicate>, plan: Plan) {
    exists i, kind ::
      && 0 <= i < |ps| && Eligible(cat, ps[i], kind) && plan.path == PathFor(ps[i], kind)
      && (kind.ByPrefix? ==> forall env: Env, row :: AllHold(env, ps, row) ==> Adds(env, plan.residual, row))
  }

  lemma PlannedNamed(query: Predicate)
    ensures AllNamed(PlannedConjuncts(query), Names(query))
  {
    var raw := Conjuncts(Folded(query));
    FoldedNamed(query, Names(query));
    PartsNamed(Folded(query), Names(query));
    forall i | 0 <= i < |raw| ensures Names(PlannedConjuncts(query)[i]) <= Names(query) {
      FoldedNamed(raw[i], Names(query));
    }
  }

  /** The plan for a list of conjuncts; None for a full scan. */
  method PlanConjuncts(cat: Catalog, ps: seq<Predicate>) returns (plan: Option<Plan>)
    ensures plan.Some? ==> PathIndexed(cat, plan.value.path) && !plan.value.path.FullScan?
    ensures plan.Some? ==> forall names :: AllNamed(ps, names) ==>
      Named(plan.value.residual, names) && Named(plan.value.complement, names)
    ensures plan.Some? ==>
      CompositeOf(ps, plan.value.path) || IntersectOf(cat, ps, plan.value) || ConjunctOf(cat, ps, plan.value)
    ensures plan.Some? && plan.value.path.UnionPath? && |ps| == 1 ==> plan.value.residual.None?
    ensures plan.Some? && AllClean(cat, ps) && !Misreads(cat, ps, plan.value) ==>
      forall env: Env, row, wher :: Selects(env, plan.value, wher, row) <==> AllHold(env, ps, row)
    ensures plan.Some? && AllClean(cat, ps) && plan.value.path.UnionPath? ==>
      forall env: Env, row, wher :: AllHold(env, ps, row) ==> Selects(env, plan.value, wher, row)
    ensures plan.Some? && AllClean(cat, ps) && plan.value.path.IntersectPath? ==>
      forall env: Env, row, wher :: Selects(env, plan.value, wher, row) ==> AllHold(env, ps, row)
    ensures plan.Some? && plan.value.path.UnionPath? && plan.value.residual.Some? ==>
      exists i :: MixesAt(cat, ps, plan.value, i)
    ensures plan.Some? && AllClean(cat, ps) && plan.value.path.IntersectPath? ==>
      ReadsExactly(ps, plan.value) || LosesSplit(cat, ps, plan.value)
  {
    hide AllHold, IntersectSelects, PartialCount, Clean, CompositeOf, IntersectOf, AllNamed, Torn;
    var best := ChooseBestConjunct(cat, ps);
    plan := PlanCompositeEq(cat, ps);
    if plan.Some? {
      return;
    }
    plan := PlanAndIntersect(cat, ps);
    if plan.Some? {
      if AllClean(cat, ps) {
        forall env: Env, row
          ensures IntersectSelects(env, cat, ps, row) ==> AllHold(env, ps, row)
          ensures PartialCount(cat, ps) <= 1 && AllHold(env, ps, row) ==> IntersectSelects(env, cat, ps, row)
          ensures IntersectSelects(env, cat, ps, row) <==> AllHold(env, ps, row) && !Torn(env, cat, ps, row)
        {
          IntersectMeans(env, cat, ps, row);
          if AllHold(env, ps, row) {
            LostExactly(env, cat, ps, row);
          }
        }
        assert LosesSplit(cat, ps, plan.value);
      }
      return;
    }
    if best.NoIndex? {
      return None;
    }
    var p := FinalizeBest(cat, ps, best);
    ChoiceIndexed(cat, ps[best.index], best.kind);
    if best.kind.ByUnion? && p.residual.Some? {
      assert MixesAt(cat, ps, p, best.index);
    }
    return Some(p);
  }

  ghost predicate AllClean(cat: Catalog, ps: seq<Predicate>) {
    forall i :: 0 <= i < |ps| ==> Clean(cat, ps[i])
  }

  predicate Misreads(cat: Catalog, ps: seq<Predicate>, plan: Plan) {
    || (plan.path.UnionPath? && plan.residual.Some?)
    || (plan.path.IntersectPath? && PartialCount(cat, ps) >= 2)
  }

  /** Whatever the estimates say, the plan of a well-read query selects exactly the
      rows of the WHERE clause.  Otherwise a plan may be a mixed union, which adds
      exactly the rows that satisfy only the conjunct it came from or only the
      others, or an intersect over several partial ORs, which loses exactly the rows
      that two of them split. */
  method PlanSelect(cat: Catalog, query: Option<Predicate>) returns (plan: Plan)
    ensures query.None? ==> plan == Plan(FullScan, None, None)
    ensures PathIndexed(cat, plan.path)
    ensures query.Some? ==> Emits(cat, query.value, plan)
    ensures query.Some? && Clean(cat, query.value) && !Misread(cat, query.value, plan) ==>
      forall env: Env, row :: Selects(env, plan, query, row) <==> Eval(env, query.value, row)
    ensures query.Some? && Clean(cat, query.value) && MixedUnion(query.value, plan) ==>
      forall env: Env, row :: Eval(env, query.value, row) ==> Selects(env, plan, query, row)
    ensures query.Some? && Clean(cat, query.value) && plan.path.IntersectPath? ==>
      forall env: Env, row :: Selects(env, plan, query, row) ==> Eval(env, query.value, row)
    ensures query.Some? && Clean(cat, query.value) && WellRead(cat, query.value) ==>
      forall env: Env, row :: Selects(env, plan, query, row) <==> Eval(env, query.value, row)
    ensures query.Some? && MixedUnion(query.value, plan) ==>
      exists i :: MixesAt(cat, PlannedConjuncts(query.value), plan, i)
    ensures query.Some? && Clean(cat, query.value) && plan.path.IntersectPath? ==>
      var ps := PlannedConjuncts(query.value);
      ReadsExactly(ps, plan) || LosesSplit(cat, ps, plan)
  {
    hide AllHold, ProbeOr, ReadsExactly, LosesSplit, EitherHolds;
    hide PartialCount, Clean, Folded, UnionOf, CompositeOf, IntersectOf, ConjunctOf, AllNamed, PathIndexed;
    if query.None? {
      plan := Plan(FullScan, None, None);
      ScansAreIndexed(cat, plan);
      return;
    }
    var wher := query.value;
    var top := RewriteEqualityOrToIn(wher);
    if top.Some? {
      wher := top.value;
    }
    KeptWhenUnfoldable(query.value);
    assert wher == Folded(query.value);
    var union := PlanTopLevelOr(cat, wher);
    if union.Some? {
      plan := union.value;
      return;
    }
    var ps := RewriteConjuncts(wher);
    assert ps == PlannedConjuncts(query.value);
    assert query.value.Or? ==> |ps| == 1;
    PlannedNamed(query.value);
    forall env: Env, row ensures AllHold(env, ps, row) <==> Eval(env, query.value, row) {
      PlannedMeans(env, query.value, row);
    }
    if Clean(cat, query.value) {
      PlannedClean(cat, query.value);
    }
    var found := PlanConjuncts(cat, ps);
    if found.None? {
      plan := Plan(FullScan, query, None);
      ScansAreIndexed(cat, plan);
      return;
    }
    plan := found.value;
  }

  lemma ScansAreIndexed(cat: Catalog, plan: Plan)
    requires plan.path.FullScan?
    ensures PathIndexed(cat, plan.path)
  {
  }

  lemma KeptWhenUnfoldable(p: Predicate)
    ensures !Foldable(p) ==> Folded(p) == p
    ensures Folded(p).Or? ==> Folded(p) == p
    ensures Foldable(p) ==> Folded(p).InList?
  {
  }

  method RewriteConjuncts(wher: Predicate) returns (ps: seq<Predicate>)
    ensures ps == FoldAll(Conjuncts(wher))
  {
    var raw := Conjuncts(wher);
    ps := [];
    for i := 0 to |raw|
      invariant |ps| == i && forall j :: 0 <= j < i ==> ps[j] == Folded(raw[j])
    {
      var r := RewriteEqualityOrToIn(raw[i]);
      ps := ps + [if r.Some? then r.value else raw[i]];
    }
  }

  // ----- The shapes that are misread ---------------------------------------------------------

  function Column(name: string, op: CompareOp, n: int): Predicate {
    Comparison(name, None, op, Int(n), None)
  }

  /** A row of four cells named a, b, c and d. */
  function Four(): Env {
    Env((row, c) => if |row| != 4 then Null
                    else if c == "a" then row[0] else if c == "b" then row[1] else if c == "c" then row[2]
                    else if c == "d" then row[3] else Null,
        (e, row) => Null, (t, row) => false)
  }

  lemma FourCells(row: Row)
    requires |row| == 4
    ensures Four().cell(row, "a") == row[0] && Four().cell(row, "b") == row[1]
    ensures Four().cell(row, "c") == row[2] && Four().cell(row, "d") == row[3]
  {
  }

  const AB := Catalog({"a", "b"}, {}, [])

  /** `(a = 1 OR b = 2) AND c = 3` with indexes on a and b.  The union of the two
      probes is an eligible choice, and the plan made from it returns a row in
      which c is not 3. */
  lemma MixedUnionAddsRows()
    ensures
      var wher := And(Or(Column("a", Eq, 1), Column("b", Eq, 2)), Column("c", Eq, 3));
      var ps := PlannedConjuncts(wher);
      var plan := Plan(UnionPath(Probes(AB, Disjuncts(ps[0]))), Some(ps[1]), None);
      var row := [Int(1), Int(0), Int(0), Int(0)];
      && |ps| == 2 && Clean(AB, wher) && Eligible(AB, ps[0], ByUnion(Probes(AB, Disjuncts(ps[0]))))
      && Emits(AB, wher, plan)
      && MixedUnion(wher, plan) && Selects(Four(), plan, Some(wher), row) && !Eval(Four(), wher, row)
  {
    hide Four;
    var a, b, c := Column("a", Eq, 1), Column("b", Eq, 2), Column("c", Eq, 3);
    var row := [Int(1), Int(0), Int(0), Int(0)];
    FourCells(row);
    TwoArms(a, b);
    TwoConjuncts(Or(a, b), c);
    SplitPair(AB, a, b);
    var wher := And(Or(a, b), c);
    assert PlannedConjuncts(wher) == [Or(a, b), c];
    assert Clean(AB, Or(a, b)) && Clean(AB, c);
    var nodes := [Leaf(ProbeOf(a)), Leaf(ProbeOf(b))];
    assert Eligible(AB, Or(a, b), ByUnion(nodes));
    assert NodeHolds(Four(), nodes[0], row);
    assert AnyNode(Four(), nodes, row);
  }

  /** `(a = 1 OR c > 5) AND (b = 2 OR d > 5)` with indexes on a and b.  A row that
      satisfies one OR by its probe and the other by its scan is lost. */
  lemma TwoPartialOrsLoseRows()
    ensures
      var wher := And(Or(Column("a", Eq, 1), Column("c", Gt, 5)), Or(Column("b", Eq, 2), Column("d", Gt, 5)));
      var ps := PlannedConjuncts(wher);
      var row := [Int(1), Int(0), Int(0), Int(6)];
      && Clean(AB, wher) && PartialCount(AB, ps) == 2
      && Eval(Four(), wher, row) && !IntersectSelects(Four(), AB, ps, row)
  {
    hide Four, Foldable, Conjuncts, Disjuncts;
    var a, b, c, d := Column("a", Eq, 1), Column("b", Eq, 2), Column("c", Gt, 5), Column("d", Gt, 5);
    var p, q := Or(a, c), Or(b, d);
    var ps := PlannedConjuncts(And(p, q));
    var row := [Int(1), Int(0), Int(0), Int(6)];
    FourCells(row);
    TwoArms(a, c);
    TwoArms(b, d);
    TwoConjuncts(p, q);
    SplitPair(AB, a, c);
    SplitPair(AB, b, d);
    assert ps[1..] == [q] && ps[1..][1..] == [];
    assert !IndexSide(Four(), AB, ps[1], row);
    assert !ScanSide(Four(), AB, ps[0], row);
  }

  /** `(trigram(a)) = 'abc'` means a = 'abc', but its index answers for every text
      that contains the gram. */
  lemma TrigramEqualityAddsRows()
    ensures
      var cat := Catalog({}, {Trigram("a")}, []);
      var wher := Comparison("a", Some(Trigram("a")), Eq, Str("abc"), None);
      var plan := Plan(PathFor(wher, ByEquality), None, None);
      var row := [Str("xabc"), Null, Null, Null];
      && !Clean(cat, wher) && Eligible(cat, wher, ByEquality)
      && Selects(Four(), plan, Some(wher), row) && !Eval(Four(), wher, row)
  {
    hide Four;
    FourCells([Str("xabc"), Null, Null, Null]);
    assert Grams("xabc")[1] == "abc";
  }

  /** A trigram index answers an equality as written exactly when the literal is a text
      of one or two characters, which is its own only gram; `place` shows that the
      column can hold any value. */
  lemma TrigramEqualityExactly(env: Env, place: Value -> Row, column: string, c: string, value: Value)
    requires forall v :: env.cell(place(v), c) == v
    ensures (forall row :: ProbeHolds(env, Probe(column, Some(Trigram(c)), value), row) <==>
                             Eval(env, Comparison(column, Some(Trigram(c)), Eq, value, None), row)) <==>
      value.Str? && 1 <= |value.s| <= 2
  {
    var probe, meant := Probe(column, Some(Trigram(c)), value), Comparison(column, Some(Trigram(c)), Eq, value, None);
    var row := place(value);
    assert Eval(env, meant, row);
    if value.Str? && |value.s| == 3 {
      var longer := ['x'] + value.s;
      assert Grams(longer)[1] == value.s;
      var other := place(Str(longer));
      assert ProbeHolds(env, probe, other) && !Eval(env, meant, other);
    } else if value.Str? && 1 <= |value.s| <= 2 {
      forall r ensures ProbeHolds(env, probe, r) <==> Eval(env, meant, r) {
        GramLengths(env.cell(r, c), value.s);
      }
    } else if value.Str? {
      GramLengths(value, value.s);
      assert !ProbeHolds(env, probe, row);
    } else {
      assert !ProbeHolds(env, probe, row);
    }
  }

  lemma GramLengths(v: Value, g: string)
    ensures v.Str? && g in Grams(v.s) ==> 1 <= |g| <= 3 && (|g| < 3 ==> g == v.s)
  {
  }

  lemma TwoArms(a: Predicate, b: Predicate)
    requires !a.Or? && !b.Or? && !SameOperand(a, b)
    ensures Disjuncts(Or(a, b)) == [a, b] && !Foldable(Or(a, b))
  {
    var d := Disjuncts(Or(a, b));
    assert d == [a, b];
    assert !SameOperand(d[0], d[1]);
  }

  lemma TwoConjuncts(p: Predicate, q: Predicate)
    requires !p.And? && !q.And? && !Foldable(p) && !Foldable(q)
    ensures PlannedConjuncts(And(p, q)) == [p, q]
  {
    assert Conjuncts(And(p, q)) == [p, q];
  }

  lemma SplitPair(cat: Catalog, a: Predicate, b: Predicate)
    ensures Probes(cat, [a, b]) ==
      (if IsProbe(cat, a) then [Leaf(ProbeOf(a))] else []) + (if IsProbe(cat, b) then [Leaf(ProbeOf(b))] else [])
    ensures Unindexed(cat, [a, b]) ==
      (if IsProbe(cat, a) then [] else [a]) + (if IsProbe(cat, b) then [] else [b])
  {
    var tail := [b];
    assert [a, b][1..] == tail && tail[1..] == [];
    assert Probes(cat, tail) == if IsProbe(cat, b) then [Leaf(ProbeOf(b))] else [];
    assert Unindexed(cat, tail) == if IsProbe(cat, b) then [] else [b];
  }
}
