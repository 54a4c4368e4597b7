/** Every reachable notebook table is a forest whose paths mirror it, and reordering sorts exactly the siblings. */
module NotebookRuns {
  import opened Domain
  import opened Text
  import opened Records
  import opened SyncLog
  import opened Notebooks

  // ----- the forest -----

  /** Ids are generated identifiers: not empty, and without a slash. */
  predicate IdOk(id: string) {
    id != "" && '/' !in id
  }

  predicate RowOk(t: Table, id: string)
    requires id in t
  {
    var row := t[id];
    && row.id == id && IdOk(id)
    && match row.parentId
       case None => row.path == "/" + id && row.depth == 0
       case Some(p) => p in t && row.path == t[p].path + "/" + id && row.depth == t[p].depth + 1
  }

  predicate Forest(t: Table) {
    forall id :: id in t ==> RowOk(t, id)
  }

  /** The ids from the root down to the parent. */
  function Ancestors(t: Table, id: string): seq<string>
    requires Forest(t) && id in t
    decreases t[id].depth
  {
    assert RowOk(t, id);
    match t[id].parentId
    case None => []
    case Some(p) => Ancestors(t, p) + [p]
  }

  function PathOf(ids: seq<string>): string {
    if ids == [] then "" else PathOf(ids[..|ids| - 1]) + "/" + ids[|ids| - 1]
  }

  lemma PathOfSnoc(whole: seq<string>, ids: seq<string>, id: string)
    requires whole == ids + [id]
    ensures PathOf(whole) == PathOf(ids) + "/" + id
  {
    assert whole[..|ids|] == ids;
  }

  /** Depth counts the ancestors, the path lists them from the root, and they are all above. */
  lemma {:induction false} PathMirrorsAncestors(t: Table, id: string)
    requires Forest(t) && id in t
    ensures t[id].path == PathOf(Ancestors(t, id) + [id])
    ensures t[id].depth == |Ancestors(t, id)|
    ensures forall i :: 0 <= i < |Ancestors(t, id)| ==> Ancestors(t, id)[i] in t && t[Ancestors(t, id)[i]].depth == i
    decreases t[id].depth
  {
    assert RowOk(t, id);
    match t[id].parentId
    case None =>
      PathOfSnoc(Ancestors(t, id) + [id], [], id);
    case Some(p) =>
      PathMirrorsAncestors(t, p);
      PathOfSnoc(Ancestors(t, id) + [id], Ancestors(t, id), id);
  }

  /** No notebook is its own ancestor. */
  lemma {:induction false} Acyclic(t: Table, id: string)
    requires Forest(t) && id in t
    ensures id !in Ancestors(t, id)
  {
    PathMirrorsAncestors(t, id);
  }

  /** Going up from `id`, every ancestor has its own ancestors as the ones before it. */
  lemma {:induction false} AncestorsNest(t: Table, id: string, i: nat)
    requires Forest(t) && id in t && i < |Ancestors(t, id)|
    ensures Ancestors(t, id)[i] in t && Ancestors(t, Ancestors(t, id)[i]) == Ancestors(t, id)[..i]
    decreases t[id].depth
  {
    PathMirrorsAncestors(t, id);
    assert RowOk(t, id);
    var p := t[id].parentId.value;
    if i < |Ancestors(t, p)| {
      AncestorsNest(t, p, i);
      assert Ancestors(t, id)[..i] == Ancestors(t, p)[..i];
    } else {
      assert Ancestors(t, id)[..i] == Ancestors(t, p);
    }
  }

  // ----- prefixes -----

  predicate IdsOk(ids: seq<string>) {
    forall i :: 0 <= i < |ids| ==> IdOk(ids[i])
  }

  lemma {:induction false} PathOfCons(whole: seq<string>, first: string, rest: seq<string>)
    requires whole == [first] + rest
    ensures PathOf(whole) == "/" + first + PathOf(rest)
    decreases |rest|
  {
    if rest == [] {
      PathOfSnoc(whole, [], first);
    } else {
      var init, last := rest[..|rest| - 1], rest[|rest| - 1];
      var front := whole[..|rest|];
      PathOfCons(front, first, init);
      PathOfSnoc(whole, front, last);
      PathOfSnoc(rest, init, last);
      JoinRight("/" + first, PathOf(init), last);
    }
  }

  lemma JoinRight(a: string, b: string, c: string)
    ensures a + b + "/" + c == a + (b + "/" + c)
  {
  }

  /** A slash ends the first id, so two paths that continue alike start with the same id. */
  lemma FirstIdsAgree(a: string, x: string, b: string, y: string)
    requires IdOk(a) && IdOk(b) && "/" <= x && (y == "" || "/" <= y)
    requires a + x <= b + y
    ensures a == b && x <= y && "/" <= y
  {
    assert (b + y)[..|a + x|] == a + x;
    assert (a + x)[|a|] == '/';
    assert (b + y)[|a|] == '/';
    assert forall k :: 0 <= k < |a| ==> (b + y)[k] == a[k] && a[k] != '/';
    assert forall k :: 0 <= k < |b| ==> (b + y)[k] == b[k] && b[k] != '/';
    assert y != "" ==> (b + y)[|b|] == '/';
    assert |a| <= |b|;
    assert |b| <= |a|;
    assert a == (a + x)[..|a|] && b == (b + y)[..|b|];
    assert x == (a + x)[|a|..] && y == (b + y)[|b|..];
  }

  lemma ProperPrefixCons(a: string, xs: seq<string>, b: string, ys: seq<string>)
    ensures [a] + xs < [b] + ys <==> a == b && xs < ys
  {
    var x, y := [a] + xs, [b] + ys;
    assert x[1..] == xs && y[1..] == ys;
    if x < y {
      assert x[0] == y[0] && |xs| < |ys|;
      forall i | 0 <= i < |xs| ensures xs[i] == ys[i] {
        assert x[i + 1] == y[i + 1];
      }
    }
    if a == b && xs < ys {
      assert forall i :: 0 <= i < |x| ==> x[i] == y[i];
    }
  }

  /** A path with a slash after it is a prefix of another exactly when its ids are the first of the other's. */
  lemma {:induction false} PrefixIff(xs: seq<string>, ys: seq<string>)
    requires IdsOk(xs) && IdsOk(ys)
    ensures PathOf(xs) + "/" <= PathOf(ys) <==> xs < ys
    decreases |xs|
  {
    StartsWithSlash(ys);
    if xs == [] || ys == [] {
    } else {
      var a, b, xs', ys' := xs[0], ys[0], xs[1..], ys[1..];
      assert xs == [a] + xs' && ys == [b] + ys';
      PrefixIff(xs', ys');
      PrefixCons(a, PathOf(xs') + "/", b, PathOf(ys'), xs', ys');
      ProperPrefixCons(a, xs', b, ys');
      SlashPaths(a, xs', b, ys');
    }
  }

  lemma SlashPaths(a: string, xs: seq<string>, b: string, ys: seq<string>)
    ensures PathOf([a] + xs) + "/" <= PathOf([b] + ys) <==> a + (PathOf(xs) + "/") <= b + PathOf(ys)
  {
    PathOfCons([a] + xs, a, xs);
    PathOfCons([b] + ys, b, ys);
    Regroup(a, PathOf(xs), "/");
    Regroup(b, PathOf(ys), "");
    SlashPrefix(a + (PathOf(xs) + "/"), b + PathOf(ys));
  }

  lemma Regroup(a: string, x: string, end: string)
    ensures "/" + a + x + end == "/" + (a + (x + end))
    ensures x + "" == x && "/" + a + x == "/" + (a + x)
  {
  }

  lemma SlashPrefix(u: string, v: string)
    ensures "/" + u <= "/" + v <==> u <= v
  {
    assert ("/" + u)[1..] == u && ("/" + v)[1..] == v;
  }

  lemma StartsWithSlash(ids: seq<string>)
    ensures ids == [] ==> PathOf(ids) == ""
    ensures ids != [] ==> "/" <= PathOf(ids)
  {
    if ids != [] {
      PathOfCons(ids, ids[0], ids[1..]);
    }
  }

  lemma PrefixCons(a: string, x: string, b: string, y: string, xs: seq<string>, ys: seq<string>)
    requires IdOk(a) && IdOk(b) && x == PathOf(xs) + "/" && y == PathOf(ys)
    ensures a + x <= b + y <==> a == b && x <= y
  {
    StartsWithSlash(xs);
    StartsWithSlash(ys);
    if a + x <= b + y {
      FirstIdsAgree(a, x, b, y);
    }
    if a == b && x <= y {
      assert (b + y)[..|a + x|] == a + x;
    }
  }

  lemma LineageOk(t: Table, id: string)
    requires Forest(t) && id in t
    ensures IdsOk(Ancestors(t, id) + [id])
  {
    PathMirrorsAncestors(t, id);
    assert RowOk(t, id);
    forall i | 0 <= i < |Ancestors(t, id)| ensures IdOk(Ancestors(t, id)[i]) {
      assert RowOk(t, Ancestors(t, id)[i]);
    }
  }

  lemma LastOfPrefix(p: seq<string>, a: string, q: seq<string>, b: string)
    requires p + [a] < q + [b]
    ensures |p| < |q| && q[|p|] == a
  {
    assert (p + [a])[|p|] == (q + [b])[|p|];
  }

  lemma PrefixUpTo(p: seq<string>, a: string, q: seq<string>, b: string)
    requires |p| < |q| && q[|p|] == a && p == q[..|p|]
    ensures p + [a] < q + [b]
  {
    assert forall k :: 0 <= k < |p + [a]| ==> (p + [a])[k] == (q + [b])[k];
  }

  lemma LineageIff(t: Table, a: string, b: string)
    requires Forest(t) && a in t && b in t
    ensures Ancestors(t, a) + [a] < Ancestors(t, b) + [b] <==> a in Ancestors(t, b)
  {
    var above := Ancestors(t, b);
    if Ancestors(t, a) + [a] < above + [b] {
      LastOfPrefix(Ancestors(t, a), a, above, b);
    } else if a in above {
      var i :| 0 <= i < |above| && above[i] == a;
      AncestorsNest(t, b, i);
      PrefixUpTo(Ancestors(t, a), a, above, b);
    }
  }

  /** A notebook's path followed by a slash is a prefix of another's path exactly when it is a proper ancestor of it. */
  lemma {:induction false} PrefixIsAncestry(t: Table, a: string, b: string)
    requires Forest(t) && a in t && b in t
    ensures t[a].path + "/" <= t[b].path <==> a in Ancestors(t, b)
  {
    PathMirrorsAncestors(t, a);
    PathMirrorsAncestors(t, b);
    LineageOk(t, a);
    LineageOk(t, b);
    PrefixIff(Ancestors(t, a) + [a], Ancestors(t, b) + [b]);
    LineageIff(t, a, b);
  }

  // ----- runs -----

  /** `Seed` is one row of the tree a new workspace gets. */
  datatype Op =
    | Seed(name: string, slug: Option<string>, parent: Option<string>, order: int, id: string)
    | CreateOp(name: string, parent: Option<string>, order: int, id: string)
    | RenameOp(id: string, name: string)
    | DeleteOp(id: string, liveMemos: nat)
    | ReorderOp(parent: Option<string>, ids: seq<string>)
    | OtherWrite(change: Change)

  predicate Enabled(db: NotebookDb, op: Op) {
    && (op.CreateOp? || op.Seed? ==> IdOk(op.id) && op.id !in db.notebooks)
    && (op.Seed? ==> op.parent.None? || op.parent.value in db.notebooks)
  }

  function Apply(db: NotebookDb, op: Op, now: nat): NotebookDb {
    if !Enabled(db, op) then db
    else
      match op
      case Seed(name, slug, parent, order, id) =>
        db.(notebooks := db.notebooks[id := Planted(db.notebooks, name, slug, parent, order, id, now)])
      case CreateOp(name, parent, order, id) => Create(db, name, parent, order, id, now).0
      case RenameOp(id, name) => Rename(db, id, name, now).0
      case DeleteOp(id, liveMemos) => SoftDelete(db, id, liveMemos, now).0
      case ReorderOp(parent, ids) => Reorder(db, parent, ids, now).0
      case OtherWrite(change) => db.(log := Appended(db.log, change))
  }

  function Run(db: NotebookDb, ops: seq<(Op, nat)>): NotebookDb {
    if ops == [] then db else Apply(Run(db, ops[..|ops| - 1]), ops[|ops| - 1].0, ops[|ops| - 1].1)
  }

  /** The rows are in the same places. */
  predicate SameShape(t: Table, t': Table) {
    && t.Keys == t'.Keys
    && forall id :: id in t ==>
         t'[id].id == t[id].id && t'[id].parentId == t[id].parentId && t'[id].path == t[id].path && t'[id].depth == t[id].depth
  }

  lemma ShapeKeepsForest(t: Table, t': Table)
    requires Forest(t) && SameShape(t, t')
    ensures Forest(t')
  {
    forall id | id in t' ensures RowOk(t', id) {
      assert RowOk(t, id);
    }
  }

  lemma PlantKeepsForest(t: Table, name: string, slug: Option<string>, parent: Option<string>, order: int, id: string, now: nat)
    requires Forest(t) && IdOk(id) && id !in t && (parent.None? || parent.value in t)
    ensures Forest(t[id := Planted(t, name, slug, parent, order, id, now)])
  {
    var t' := t[id := Planted(t, name, slug, parent, order, id, now)];
    forall x | x in t' ensures RowOk(t', x) {
      if x != id {
        assert RowOk(t, x);
      }
    }
  }

  lemma {:induction false} PlacedShape(t: Table, ids: seq<string>, now: nat)
    ensures SameShape(t, Placed(t, ids, now))
  {
    if ids == [] {
    } else {
      PlacedShape(t, ids[..|ids| - 1], now);
    }
  }

  lemma SameShapeStep(db: NotebookDb, op: Op, now: nat)
    requires !op.Seed? && !op.CreateOp?
    ensures SameShape(db.notebooks, Apply(db, op, now).notebooks)
  {
    if op.ReorderOp? {
      PlacedShape(db.notebooks, op.ids, now);
    }
  }

  lemma ForestStep(db: NotebookDb, op: Op, now: nat)
    requires Forest(db.notebooks)
    ensures Forest(Apply(db, op, now).notebooks)
  {
    if !op.Seed? && !op.CreateOp? {
      SameShapeStep(db, op, now);
      ShapeKeepsForest(db.notebooks, Apply(db, op, now).notebooks);
    } else if Enabled(db, op) && (op.parent.None? || op.parent.value in db.notebooks) {
      PlantKeepsForest(db.notebooks, op.name, if op.Seed? then op.slug else None, op.parent, op.order, op.id, now);
    }
  }

  lemma {:induction false} ForestRun(db: NotebookDb, ops: seq<(Op, nat)>)
    requires db.notebooks == map[]
    ensures Forest(Run(db, ops).notebooks)
  {
    if ops == [] {
    } else {
      ForestRun(db, ops[..|ops| - 1]);
      ForestStep(Run(db, ops[..|ops| - 1]), ops[|ops| - 1].0, ops[|ops| - 1].1);
    }
  }

  /** In every reachable table the parent relation is acyclic, depth counts the ancestors, paths list them from the root,
      and path prefixes are exactly ancestry. */
  lemma {:induction false} PathsMirrorForest(db: NotebookDb, ops: seq<(Op, nat)>, a: string, b: string)
    requires db.notebooks == map[] && a in Run(db, ops).notebooks && b in Run(db, ops).notebooks
    ensures var t := Run(db, ops).notebooks;
            && Forest(t)
            && a !in Ancestors(t, a)
            && t[a].depth == |Ancestors(t, a)|
            && t[a].path == PathOf(Ancestors(t, a) + [a])
            && (t[a].path + "/" <= t[b].path <==> a in Ancestors(t, b))
  {
    ForestRun(db, ops);
    PathMirrorsAncestors(Run(db, ops).notebooks, a);
    Acyclic(Run(db, ops).notebooks, a);
    PrefixIsAncestry(Run(db, ops).notebooks, a, b);
  }

  /** A notebook never moves: later operations leave its parent, path and depth as they were created. */
  lemma {:induction false} NeverMoves(db: NotebookDb, ops: seq<(Op, nat)>, id: string)
    requires id in db.notebooks
    ensures var t, t' := db.notebooks, Run(db, ops).notebooks;
            id in t' && t'[id].parentId == t[id].parentId && t'[id].path == t[id].path && t'[id].depth == t[id].depth
  {
    if ops == [] {
    } else {
      NeverMoves(db, ops[..|ops| - 1], id);
      var middle := Run(db, ops[..|ops| - 1]);
      if ops[|ops| - 1].0.ReorderOp? {
        PlacedShape(middle.notebooks, ops[|ops| - 1].0.ids, ops[|ops| - 1].1);
      }
    }
  }

  // ----- reorder -----

  predicate Distinct(ids: seq<string>) {
    forall i, j :: 0 <= i < j < |ids| ==> ids[i] != ids[j]
  }

  lemma MembersSnoc(init: seq<string>, last: string)
    ensures Members(init + [last]) == Members(init) + {last}
  {
    var ids := init + [last];
    forall x ensures x in Members(ids) <==> x in Members(init) + {last} {
      if x in Members(init) {
        var i :| 0 <= i < |init| && init[i] == x;
        assert ids[i] == x;
      }
      if x == last {
        assert ids[|init|] == x;
      }
    }
  }

  lemma DistinctSnoc(init: seq<string>, last: string)
    ensures Distinct(init + [last]) <==> Distinct(init) && last !in Members(init)
  {
    var ids := init + [last];
    assert forall i :: 0 <= i < |init| ==> ids[i] == init[i] && init[i] in Members(init);
    if last in Members(init) {
      var i :| 0 <= i < |init| && init[i] == last;
      assert ids[i] == ids[|init|];
    }
  }

  lemma {:induction false} MembersSize(ids: seq<string>)
    ensures |Members(ids)| <= |ids|
    ensures |Members(ids)| == |ids| <==> Distinct(ids)
  {
    if ids == [] {
    } else {
      var init, last := ids[..|ids| - 1], ids[|ids| - 1];
      assert ids == init + [last];
      MembersSize(init);
      MembersSnoc(init, last);
      DistinctSnoc(init, last);
    }
  }

  lemma SubsetOfSameSize(a: set<string>, b: set<string>)
    requires a <= b && |a| == |b|
    ensures a == b
  {
    assert b == a + (b - a) && |b| == |a| + |b - a|;
  }

  /** A reorder is accepted exactly when it lists every live sibling once and nothing else. */
  lemma AcceptedIff(db: NotebookDb, parent: Option<string>, ids: seq<string>, now: nat)
    ensures Reorder(db, parent, ids, now).1.Ok? <==> Distinct(ids) && forall id :: id in ids <==> IsSibling(db.notebooks, parent, id)
    ensures Reorder(db, parent, ids, now).1.Err? ==> Reorder(db, parent, ids, now).0 == db
  {
    MembersSize(ids);
    var s, m := Siblings(db.notebooks, parent), Members(ids);
    assert forall id :: id in ids <==> id in m;
    assert forall id :: id in s <==> IsSibling(db.notebooks, parent, id);
    if CompleteOrder(db.notebooks, parent, ids) {
      SubsetOfSameSize(s, m);
    }
    if Distinct(ids) && forall id :: id in ids <==> IsSibling(db.notebooks, parent, id) {
      assert s == m;
    }
  }

  lemma {:induction false} PlacedAt(t: Table, ids: seq<string>, now: nat, id: string)
    requires Distinct(ids) && id in t
    ensures SameShape(t, Placed(t, ids, now))
    ensures id !in ids ==> Placed(t, ids, now)[id] == t[id]
    ensures forall i :: 0 <= i < |ids| && ids[i] == id ==> Placed(t, ids, now)[id] == t[id].(sortOrder := i, updatedAt := now)
  {
    if ids == [] {
    } else {
      var n := |ids| - 1;
      var init := ids[..n];
      PlacedAt(t, init, now, id);
      assert ids == init + [ids[n]];
    }
  }

  /** After an accepted reorder the live siblings carry the positions 0, 1, 2, … of the list, and no other notebook has
      changed. */
  lemma ReorderSorts(db: NotebookDb, parent: Option<string>, ids: seq<string>, now: nat, id: string)
    requires Reorder(db, parent, ids, now).1.Ok? && id in db.notebooks
    ensures var t := Reorder(db, parent, ids, now).0.notebooks;
            && id in t
            && (!IsSibling(db.notebooks, parent, id) ==> t[id] == db.notebooks[id])
            && (IsSibling(db.notebooks, parent, id) ==>
                  0 <= t[id].sortOrder < |ids| && ids[t[id].sortOrder] == id
                  && t[id] == db.notebooks[id].(sortOrder := t[id].sortOrder, updatedAt := now))
  {
    AcceptedIff(db, parent, ids, now);
    PlacedAt(db.notebooks, ids, now, id);
    if IsSibling(db.notebooks, parent, id) {
      var i :| 0 <= i < |ids| && ids[i] == id;
    }
  }
}
