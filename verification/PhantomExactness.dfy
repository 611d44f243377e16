/** The phantom test fails no transaction without reason: a recorded predicate matches an
    image exactly when the comparison or LIKE it stands for is true of the row. */
module PhantomExactness {
  import opened Values
  import opened LikePatterns
  import opened Serializability
  import opened Transactions
  import opened Predicates
  import opened Plans
  import opened PhantomCoverage

  // ----- One recorded predicate against one image -------------------------------------

  /** The comparison or LIKE that a complete column predicate stands for. */
  function Says(p: SsiPredicate): Option<Predicate> {
    if p.like.Some? then Some(Like(p.column, p.like.value))
    else if p.op.Some? && p.value.Some? then Some(Comparison(p.column, None, p.op.value, p.value.value, None))
    else None
  }

  ghost predicate Named(image: SsiInsert, column: string) {
    exists k :: FirstNamed(image.columns, column, k)
  }

  /** The image is of the relation, and the predicate asks for membership, or the image has
      the column and what the predicate says is true of the pictured row. */
  ghost predicate Hits(env: Env, image: SsiInsert, row: Row, p: SsiPredicate) {
    && image.relation == p.relation
    && (p.column == "" ||
        (Named(image, p.column) && (Says(p).None? || Eval(env, Says(p).value, row))))
  }

  /** A recorded predicate matches the image of a row if and only if it asks for membership
      or the comparison or LIKE it was recorded for is true of the row. */
  lemma MatchesExactly(env: Env, image: SsiInsert, row: Row, p: SsiPredicate)
    requires p.column != "" && Named(image, p.column) ==> Pictured(env, image, row, p.column)
    ensures ImageMatches(image, p) <==> Hits(env, image, row, p)
  {
    hide Matches, Compare;
    if image.relation == p.relation && p.column != "" && Named(image, p.column) {
      ColumnCaught(env, image, row, p);
    }
  }

  // ----- What a WHERE tree records ----------------------------------------------------------

  /** The comparisons, IN lists and LIKEs of a tree. */
  function Leaves(p: Predicate): seq<Predicate> {
    match p
    case And(left, right) => Leaves(left) + Leaves(right)
    case Or(left, right) => Leaves(left) + Leaves(right)
    case _ => [p]
  }

  lemma LeafMatchesExactly(env: Env, relation: string, p: Predicate, image: SsiInsert, row: Row)
    requires ByColumns(p) && !p.And? && !p.Or?
    requires image.relation == relation && Pictures(env, image, row, Names(p))
    ensures Caught(TreeReads(relation, p), image) <==> Eval(env, p, row)
  {
    hide Compare, Matches;
    match p {
      case Comparison(column, _, op, value, _) =>
        MatchesExactly(env, image, row, OnColumn(relation, column, op, value));
        CaughtOne(OnColumn(relation, column, op, value), image);
      case InList(column, _, values) =>
        forall i | 0 <= i < |values|
          ensures ImageMatches(image, ListReads(relation, column, values)[i]) <==> env.cell(row, column) == values[i]
        {
          EqualityMatches(env, relation, column, values[i], image, row);
        }
      case Like(column, pattern) =>
        var q := SsiPredicate(relation, column, None, None, Some(pattern));
        MatchesExactly(env, image, row, q);
        CaughtOne(q, image);
    }
  }

  lemma EqualityMatches(env: Env, relation: string, column: string, value: Value, image: SsiInsert, row: Row)
    requires image.relation == relation && Pictured(env, image, row, column)
    ensures ImageMatches(image, OnColumn(relation, column, Eq, value)) <==> env.cell(row, column) == value
  {
    MatchesExactly(env, image, row, OnColumn(relation, column, Eq, value));
  }

  // ----- What a scan records -----------------------------------------------------------------

  function EqualityOf(p: Probe): Predicate {
    Comparison(p.column, p.expr, Eq, p.value, None)
  }

  function ProbesOf(nodes: seq<Node>): seq<Predicate>
    decreases nodes
  {
    if nodes == [] then []
    else
      (match nodes[0]
       case Leaf(p) => [EqualityOf(p)]
       case Intersection(children) => ProbesOf(children)
       case Union(children) => ProbesOf(children))
      + ProbesOf(nodes[1..])
  }

  /** The comparisons that an access path looks up; a full scan has the WHERE clause. */
  function LookedUp(path: Path, wher: Predicate): seq<Predicate> {
    match path
    case FullScan => Leaves(wher)
    case HashEq(column, expr, value) => [Comparison(column, expr, Eq, value, None)]
    case CompositeEq(columns, values) =>
      seq(if |columns| <= |values| then |columns| else |values|,
          i requires 0 <= i < |columns| && i < |values| => Comparison(columns[i], None, Eq, values[i], None))
    case OrderedRange(column, expr, op, value) => [Comparison(column, expr, op, value, None)]
    case HashIn(column, expr, values) => [InList(column, expr, values)]
    case PrefixLike(_, _) => []
    case IntersectPath(children) => ProbesOf(children)
    case UnionPath(children) => ProbesOf(children)
  }

  function LeavesOf(p: Option<Predicate>): seq<Predicate> {
    if p.Some? then Leaves(p.value) else []
  }

  ghost predicate Plain(ps: seq<Predicate>, names: set<string>) {
    forall i :: 0 <= i < |ps| ==> ByColumns(ps[i]) && !ps[i].And? && !ps[i].Or? && Names(ps[i]) <= names
  }

  /** The image of a row of the relation, with the columns that the list names. */
  ghost predicate Shows(env: Env, relation: string, image: SsiInsert, row: Row, ps: seq<Predicate>) {
    image.relation == relation && exists names :: Plain(ps, names) && Pictures(env, image, row, names)
  }

  lemma ShowsParts(env: Env, relation: string, image: SsiInsert, row: Row, a: seq<Predicate>, b: seq<Predicate>)
    requires Shows(env, relation, image, row, a + b)
    ensures Shows(env, relation, image, row, a) && Shows(env, relation, image, row, b)
  {
    var names :| Plain(a + b, names) && Pictures(env, image, row, names);
    forall i | 0 <= i < |a|
      ensures ByColumns(a[i]) && !a[i].And? && !a[i].Or? && Names(a[i]) <= names { assert (a + b)[i] == a[i]; }
    forall i | 0 <= i < |b|
      ensures ByColumns(b[i]) && !b[i].And? && !b[i].Or? && Names(b[i]) <= names { assert (a + b)[|a| + i] == b[i]; }
    assert Plain(a, names) && Plain(b, names);
  }

  lemma ShowsOne(env: Env, relation: string, image: SsiInsert, row: Row, p: Predicate)
    requires Shows(env, relation, image, row, [p])
    ensures ByColumns(p) && !p.And? && !p.Or? && image.relation == relation && Pictures(env, image, row, Names(p))
    ensures AnyHolds(env, [p], row) <==> Eval(env, p, row)
  {
    hide Eval;
    var names :| Plain([p], names) && Pictures(env, image, row, names);
    assert [p][0] == p;
  }

  lemma {:induction false} ProbesMatchExactly(
      env: Env, relation: string, nodes: seq<Node>, image: SsiInsert, row: Row)
    requires Shows(env, relation, image, row, ProbesOf(nodes))
    ensures Caught(NodesReads(relation, nodes), image) <==> AnyHolds(env, ProbesOf(nodes), row)
    decreases nodes
  {
    hide Shows, Caught, AnyHolds, Eval;
    if nodes == [] {
      NothingCaught(env, image, row);
    } else {
      var rest := nodes[1..];
      match nodes[0] {
        case Leaf(p) =>
          ShowsParts(env, relation, image, row, [EqualityOf(p)], ProbesOf(rest));
          ShowsOne(env, relation, image, row, EqualityOf(p));
          LeafMatchesExactly(env, relation, EqualityOf(p), image, row);
          AnyHoldsConcat(env, [EqualityOf(p)], ProbesOf(rest), row);
        case Intersection(children) =>
          ShowsParts(env, relation, image, row, ProbesOf(children), ProbesOf(rest));
          ProbesMatchExactly(env, relation, children, image, row);
          AnyHoldsConcat(env, ProbesOf(children), ProbesOf(rest), row);
        case Union(children) =>
          ShowsParts(env, relation, image, row, ProbesOf(children), ProbesOf(rest));
          ProbesMatchExactly(env, relation, children, image, row);
          AnyHoldsConcat(env, ProbesOf(children), ProbesOf(rest), row);
      }
      ProbesMatchExactly(env, relation, rest, image, row);
      CaughtConcat(NodeReads(relation, nodes[0]), NodesReads(relation, rest), image);
    }
  }

  lemma NothingCaught(env: Env, image: SsiInsert, row: Row)
    ensures !Caught([], image) && !AnyHolds(env, [], row)
  {
  }

  /** An image conflicts with the reads of a tree that is recorded by columns if and only if
      some leaf of the tree is true of the row. */
  lemma {:induction false} TreeMatchesExactly(env: Env, relation: string, p: Predicate, image: SsiInsert, row: Row)
    requires Shows(env, relation, image, row, Leaves(p))
    ensures Caught(TreeReads(relation, p), image) <==> AnyHolds(env, Leaves(p), row)
    ensures ByColumns(p)
  {
    hide Shows, Caught, AnyHolds, Eval;
    if p.And? || p.Or? {
      ShowsParts(env, relation, image, row, Leaves(p.left), Leaves(p.right));
      TreeMatchesExactly(env, relation, p.left, image, row);
      TreeMatchesExactly(env, relation, p.right, image, row);
      CaughtConcat(TreeReads(relation, p.left), TreeReads(relation, p.right), image);
      AnyHoldsConcat(env, Leaves(p.left), Leaves(p.right), row);
    } else {
      ShowsOne(env, relation, image, row, p);
      LeafMatchesExactly(env, relation, p, image, row);
    }
  }

  lemma PathMatchesExactly(env: Env, relation: string, path: Path, wher: Predicate, image: SsiInsert, row: Row)
    requires Shows(env, relation, image, row, LookedUp(path, wher))
    ensures Caught(PathReads(relation, path, wher), image) <==> AnyHolds(env, LookedUp(path, wher), row)
  {
    match path {
      case FullScan => TreeMatchesExactly(env, relation, wher, image, row);
      case HashEq(column, expr, value) => SingleMatches(env, relation, LookedUp(path, wher)[0], image, row);
      case CompositeEq(columns, values) => PartsMatch(env, relation, path, wher, image, row);
      case OrderedRange(column, expr, op, value) =>
        SingleMatches(env, relation, LookedUp(path, wher)[0], image, row);
      case HashIn(column, expr, values) => SingleMatches(env, relation, LookedUp(path, wher)[0], image, row);
      case PrefixLike(_, _) => NothingCaught(env, image, row);
      case IntersectPath(children) => ProbesMatchExactly(env, relation, children, image, row);
      case UnionPath(children) => ProbesMatchExactly(env, relation, children, image, row);
    }
  }

  lemma SingleMatches(env: Env, relation: string, p: Predicate, image: SsiInsert, row: Row)
    requires Shows(env, relation, image, row, [p])
    ensures Caught(TreeReads(relation, p), image) <==> AnyHolds(env, [p], row)
    ensures ByColumns(p)
  {
    hide Shows, Caught, AnyHolds, Eval;
    ShowsOne(env, relation, image, row, p);
    LeafMatchesExactly(env, relation, p, image, row);
  }

  lemma PartsMatch(env: Env, relation: string, path: Path, wher: Predicate, image: SsiInsert, row: Row)
    requires path.CompositeEq? && Shows(env, relation, image, row, LookedUp(path, wher))
    ensures Caught(PathReads(relation, path, wher), image) <==> AnyHolds(env, LookedUp(path, wher), row)
  {
    var ps, reads_ := LookedUp(path, wher), PathReads(relation, path, wher);
    var names :| Plain(ps, names) && Pictures(env, image, row, names);
    forall i | 0 <= i < |ps| ensures ImageMatches(image, reads_[i]) <==> Eval(env, ps[i], row) {
      assert path.columns[i] in Names(ps[i]);
      EqualityMatches(env, relation, path.columns[i], path.values[i], image, row);
    }
  }

  /** A scan that is recorded by columns conflicts with an image if and only if some
      comparison of its path, its residual or its complement is true of the row. */
  lemma ScanMatchesExactly(env: Env, relation: string, plan: Plan, wher: Predicate, image: SsiInsert, row: Row)
    requires Shows(env, relation, image, row,
      LookedUp(plan.path, wher) + LeavesOf(plan.residual) + LeavesOf(plan.complement))
    ensures Caught(ScanReads(relation, plan, wher), image) <==>
      AnyHolds(env, LookedUp(plan.path, wher) + LeavesOf(plan.residual) + LeavesOf(plan.complement), row)
  {
    hide Shows, Caught, AnyHolds, PathReads, TreeReads, LookedUp, Leaves;
    var a, b, c := LookedUp(plan.path, wher), LeavesOf(plan.residual), LeavesOf(plan.complement);
    ShowsParts(env, relation, image, row, a + b, c);
    ShowsParts(env, relation, image, row, a, b);
    PathMatchesExactly(env, relation, plan.path, wher, image, row);
    var x, y := PathReads(relation, plan.path, wher), OptionReads(relation, plan.residual);
    OptionMatches(env, relation, plan.residual, image, row);
    OptionMatches(env, relation, plan.complement, image, row);
    AnyHoldsConcat(env, a + b, c, row);
    AnyHoldsConcat(env, a, b, row);
    CaughtConcat(x, y, image);
    CaughtConcat(x + y, OptionReads(relation, plan.complement), image);
  }

  function OptionReads(relation: string, p: Option<Predicate>): seq<SsiPredicate> {
    if p.Some? then TreeReads(relation, p.value) else []
  }

  lemma OptionMatches(env: Env, relation: string, p: Option<Predicate>, image: SsiInsert, row: Row)
    requires Shows(env, relation, image, row, LeavesOf(p))
    ensures Caught(OptionReads(relation, p), image) <==> AnyHolds(env, LeavesOf(p), row)
  {
    if p.Some? {
      TreeMatchesExactly(env, relation, p.value, image, row);
    }
  }

  // ----- The commit test ---------------------------------------------------------------------

  /** The value that an image gives for a column. */
  function CellOf(columns: seq<(string, Value)>, name: string): Value {
    if columns == [] then Null
    else if columns[0].0 == name then columns[0].1
    else CellOf(columns[1..], name)
  }

  /** The image read as a row. */
  function ImageEnv(image: SsiInsert): Env {
    Env((_, c) => CellOf(image.columns, c), (_, _) => Null, (_, _) => false)
  }

  lemma {:induction false} FirstIsCell(columns: seq<(string, Value)>, name: string, k: int)
    requires FirstNamed(columns, name, k)
    ensures columns[k].1 == CellOf(columns, name)
  {
    if k > 0 {
      assert columns[0].0 != name;
      FirstIsCell(columns[1..], name, k - 1);
    }
  }

  /** Some image makes what some predicate says true. */
  ghost predicate Disturbs(inserts: seq<SsiInsert>, preds: seq<SsiPredicate>) {
    exists a, b :: 0 <= a < |preds| && 0 <= b < |inserts| && Hits(ImageEnv(inserts[b]), inserts[b], [], preds[a])
  }

  lemma PhantomExactly(preds: seq<SsiPredicate>, inserts: seq<SsiInsert>)
    ensures Phantom(preds, inserts) <==> Disturbs(inserts, preds)
  {
    hide ImageMatches, Hits;
    forall a, b | 0 <= a < |preds| && 0 <= b < |inserts|
      ensures ImageMatches(inserts[b], preds[a]) <==> Hits(ImageEnv(inserts[b]), inserts[b], [], preds[a])
    {
      var image, p := inserts[b], preds[a];
      if p.column != "" && Named(image, p.column) {
        var k :| FirstNamed(image.columns, p.column, k);
        FirstIsCell(image.columns, p.column, k);
      }
      MatchesExactly(ImageEnv(image), image, [], p);
    }
  }

  /** No transaction that committed after the snapshot wrote a row that this one read or
      wrote, and neither one's rows make a predicate true that the other recorded. */
  ghost predicate Apart(h: History, f: Footprint) {
    forall i :: 0 <= i < |h| && f.snapshot <= i ==>
      && h[i].writeSet !! f.readSet && h[i].writeSet !! f.writeSet
      && !Disturbs(h[i].inserts, f.preds) && !Disturbs(f.inserts, h[i].preds)
  }

  lemma DisjointSets(a: set<ConflictKey>, b: set<ConflictKey>)
    ensures a !! b <==> a * b == {}
  {
    if a * b == {} {
      forall x | x in a ensures x !in b {
        assert x !in a * b;
      }
    }
  }

  lemma ConflictedExactly(h: History, f: Footprint)
    ensures Conflicted(h, f) <==> !Apart(h, f)
  {
    hide Phantom, Disturbs;
    forall i | 0 <= i < |h| && f.snapshot <= i
      ensures Clash(h[i], f) <==>
        !(h[i].writeSet !! f.readSet && h[i].writeSet !! f.writeSet
          && !Disturbs(h[i].inserts, f.preds) && !Disturbs(f.inserts, h[i].preds))
    {
      PhantomExactly(f.preds, h[i].inserts);
      PhantomExactly(h[i].preds, f.inserts);
      DisjointSets(h[i].writeSet, f.readSet);
      DisjointSets(h[i].writeSet, f.writeSet);
    }
  }

  /** A live transaction commits if and only if it is apart from every commit since its
      snapshot. */
  method CommitsExactly(tm: TransactionManager, id: TxnId) returns (r: CommitResult)
    requires tm.Valid() && Live(tm.transactions, id)
    modifies tm
    ensures tm.Valid() && Tracked(old(tm.View()), id)
    ensures r.Done? <==> Apart(old(tm.history), FootprintOf(old(tm.View()), id))
    ensures !r.Done? ==> r.SerializationFailure?
  {
    hide Apart, Conflicted;
    ghost var s := tm.View();
    r := tm.Commit(id);
    ConflictedExactly(s.history, FootprintOf(s, id));
  }
}
