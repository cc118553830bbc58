/** Depth-first dependency resolution (TestsSplitter::resolveDependencies and
    the loop of SplitTestsByGroupsTask::run that drives it over every test). */
module Resolver {
  import opened Results
  import opened Seqs
  import opened TestInventory

  type Deps = map<string, seq<string>>

  /** `$items[$item]`: PHP iterates nothing over an undefined entry. */
  function DepsOf(items: Deps, x: string): (r: seq<string>)
    ensures forall d | d in r :: IsDependency(items, d)
    ensures x !in items ==> r == []
  {
    if x in items then items[x] else []
  }

  /** `x` is listed as a dependency of some test. */
  ghost predicate IsDependency(items: Deps, x: string) {
    exists y | y in items :: x in items[y]
  }

  /** Every resolved name's dependencies occur strictly before it. */
  ghost predicate Ordered(items: Deps, r: seq<string>) {
    forall i | 0 <= i < |r| :: forall d | d in DepsOf(items, r[i]) :: d in r[..i]
  }

  /** Number of test names not yet on the unresolved path. */
  function Pending(items: Deps, u: seq<string>): nat {
    |items.Keys - set x | x in u|
  }

  lemma PendingAppend(items: Deps, u: seq<string>, x: string)
    ensures Pending(items, u + [x]) <= Pending(items, u)
    ensures x in items && x !in u ==> Pending(items, u + [x]) < Pending(items, u)
  {
    var su := set y | y in u;
    var su' := set y | y in u + [x];
    assert su' == su + {x};
    var before := items.Keys - su;
    assert items.Keys - su' == before - {x};
    if x in before {
      assert |before - {x}| == |before| - 1;
    } else {
      assert before - {x} == before;
    }
  }

  /** resolveDependencies($item, $items, $resolved, $unresolved): pushes
      `item` on the path, resolves each dependency not yet resolved, fails on
      one already on the path, then appends `item` if absent and pops every
      copy of it from the path. The result is the pair (resolved, unresolved). */
  function Resolve(items: Deps, item: string, r: seq<string>, u: seq<string>)
    : (res: Result<(seq<string>, seq<string>), SplitError>)
    ensures res.Err? ==> res.error.CircularDependency?
    ensures res.Ok? ==> res.value.1 == RemoveAll(u, item)
    ensures res.Ok? ==> r <= res.value.0 && item in res.value.0
    ensures res.Ok? && NoDup(r) ==> NoDup(res.value.0)
    ensures res.Ok? && Ordered(items, r) ==> Ordered(items, res.value.0)
    ensures res.Ok? ==> forall y | y in u && y != item && y !in r :: y !in res.value.0
    ensures item !in r && item in DepsOf(items, item) ==> res.Err?
    ensures res.Ok? ==> forall x | x in res.value.0 :: x in r || x == item || IsDependency(items, x)
    decreases Pending(items, u), if item in items then 1 else 0, 1, 0
  {
    var u1 := u + [item];
    PendingAppend(items, u, item);
    RemoveAllAppendSame(u, item);
    var inner := if item in items then ResolveDeps(items, item, items[item], r, u1) else Ok((r, u1));
    match inner
    case Err(e) => Err(e)
    case Ok((r1, u2)) =>
      assert u2 == u1;
      assert forall d | d in DepsOf(items, item) :: d in r1;
      assert forall y | y in u && y !in r :: y !in r1 by {
        assert forall y | y in u :: y in u1;
      }
      Ok((Settle(items, item, r1), RemoveAll(u1, item)))
  }

  /** `$resolved[] = $item` unless `item` is already resolved, once every
      dependency of `item` is. */
  function Settle(items: Deps, item: string, r: seq<string>): (r2: seq<string>)
    requires forall d | d in DepsOf(items, item) :: d in r
    ensures r <= r2 && item in r2
    ensures forall x | x in r2 :: x in r || x == item
    ensures NoDup(r) ==> NoDup(r2)
    ensures Ordered(items, r) ==> Ordered(items, r2)
  {
    if item in r then r
    else
      AppendResolved(items, r, item);
      r + [item]
  }

  /** Appending a name whose dependencies are all resolved, and which is not
      resolved yet, keeps the resolved list duplicate-free and ordered. */
  lemma AppendResolved(items: Deps, r: seq<string>, item: string)
    requires item !in r && forall d | d in DepsOf(items, item) :: d in r
    ensures NoDup(r) ==> NoDup(r + [item])
    ensures Ordered(items, r) ==> Ordered(items, r + [item])
  {
    var r' := r + [item];
    assert r'[..|r|] == r;
    if Ordered(items, r) {
      forall i | 0 <= i < |r'| ensures forall d | d in DepsOf(items, r'[i]) :: d in r'[..i] {
        if i < |r| {
          assert r'[..i] == r[..i];
        }
      }
    }
  }

  /** The `foreach ($items[$item] as $dep)` loop of resolveDependencies over
      the remaining dependencies `ds`, with `item` already on the path `u`. */
  function ResolveDeps(items: Deps, item: string, ds: seq<string>, r: seq<string>, u: seq<string>)
    : (res: Result<(seq<string>, seq<string>), SplitError>)
    requires item in items && item in u
    ensures res.Err? ==> res.error.CircularDependency?
    ensures res.Ok? ==> res.value.1 == u
    ensures res.Ok? ==> r <= res.value.0
    ensures res.Ok? ==> forall d | d in ds :: d in res.value.0
    ensures res.Ok? && NoDup(r) ==> NoDup(res.value.0)
    ensures res.Ok? && Ordered(items, r) ==> Ordered(items, res.value.0)
    ensures res.Ok? ==> forall y | y in u && y !in r :: y !in res.value.0
    ensures ds != [] && ds[0] !in r && ds[0] in u ==> res == Err(CircularDependency(item, ds[0]))
    ensures item !in r && item in ds ==> res.Err?
    ensures res.Ok? ==> forall x | x in res.value.0 :: x in r || x in ds || IsDependency(items, x)
    decreases Pending(items, u), 1, 0, |ds|
  {
    if ds == [] then Ok((r, u))
    else
      var d := ds[0];
      if d in r then ResolveDeps(items, item, ds[1..], r, u)
      else if d in u then Err(CircularDependency(item, d))
      else
        PendingAppend(items, u, d);
        match Resolve(items, d, r, u + [d])
        case Err(e) => Err(e)
        case Ok((r1, u1)) =>
          RemoveAllAppendSame(u, d);
          ResolveDeps(items, item, ds[1..], r1, u1)
  }

  /** The driver loop over every test name in key order, threading the
      resolved list and the path between calls. */
  function ResolveEach(items: Deps, keys: seq<string>, r: seq<string>, u: seq<string>)
    : (res: Result<(seq<string>, seq<string>), SplitError>)
    ensures res.Err? ==> res.error.CircularDependency?
    ensures res.Ok? && u == [] ==> res.value.1 == []
    ensures res.Ok? ==> r <= res.value.0
    ensures res.Ok? ==> forall k | k in keys :: k in res.value.0
    ensures res.Ok? && NoDup(r) ==> NoDup(res.value.0)
    ensures res.Ok? && Ordered(items, r) ==> Ordered(items, res.value.0)
    ensures res.Ok? ==> forall x | x in res.value.0 :: x in r || x in keys || IsDependency(items, x)
  {
    if keys == [] then Ok((r, u))
    else
      match Resolve(items, keys[0], r, u)
      case Err(e) => Err(e)
      case Ok((r1, u1)) => ResolveEach(items, keys[1..], r1, u1)
  }

  /** The ordered list of tests: every name of `keys` and, before each, the
      names it depends on. */
  function ResolveAll(items: Deps, keys: seq<string>): (res: Result<seq<string>, SplitError>)
    ensures res.Err? ==> res.error.CircularDependency?
    ensures res.Ok? ==> NoDup(res.value) && Ordered(items, res.value)
    ensures res.Ok? ==> forall k | k in keys :: k in res.value
    ensures res.Ok? ==> forall x | x in res.value :: x in keys || IsDependency(items, x)
  {
    match ResolveEach(items, keys, [], [])
    case Err(e) => Err(e)
    case Ok((r, _)) => Ok(r)
  }

  lemma IndexBefore(r: seq<string>, d: string, k: nat)
    requires k <= |r| && d in r[..k]
    ensures d in r && IndexOf(r, d) < k
  {
    var i :| 0 <= i < k && r[..k][i] == d;
    assert r[i] == d;
  }

  /** In a successful resolution every dependency of a test comes before it. */
  lemma DependenciesPrecede(items: Deps, keys: seq<string>, x: string, d: string)
    requires ResolveAll(items, keys).Ok? && x in keys && d in DepsOf(items, x)
    ensures d in ResolveAll(items, keys).value
    ensures IndexOf(ResolveAll(items, keys).value, d) < IndexOf(ResolveAll(items, keys).value, x)
  {
    var r := ResolveAll(items, keys).value;
    var i := IndexOf(r, x);
    assert d in r[..i];
    IndexBefore(r, d, i);
  }

  /** A closed walk along dependency edges: each name depends on the next and
      the last depends on the first; `[x]` with x depending on itself is one. */
  ghost predicate IsCycle(items: Deps, c: seq<string>) {
    |c| >= 1 && forall i | 0 <= i < |c| :: c[Next(c, i)] in DepsOf(items, c[i])
  }

  /** The position after `i` on a closed walk. */
  function Next(c: seq<string>, i: nat): (j: nat)
    requires i < |c|
    ensures j < |c|
  {
    if i + 1 < |c| then i + 1 else 0
  }

  lemma OrderedAt(items: Deps, r: seq<string>, x: string, d: string)
    requires Ordered(items, r) && x in r && d in DepsOf(items, x)
    ensures d in r && IndexOf(r, d) < IndexOf(r, x)
  {
    var p := IndexOf(r, x);
    assert d in r[..p];
    IndexBefore(r, d, p);
  }

  /** Positions that drop by at least one per step add up: after k steps
      along the walk the position is at least k lower. */
  lemma {:induction false} CycleDescends(r: seq<string>, c: seq<string>, k: nat)
    requires forall i | 0 <= i < |c| :: c[i] in r
    requires forall i | 0 < i < |c| :: IndexOf(r, c[i]) < IndexOf(r, c[i - 1])
    requires k < |c|
    ensures IndexOf(r, c[k]) + k <= IndexOf(r, c[0])
  {
    if k > 0 {
      CycleDescends(r, c, k - 1);
    }
  }

  /** No list that is dependency-ordered can hold a whole cycle. */
  lemma OrderedHasNoCycle(items: Deps, r: seq<string>, c: seq<string>)
    requires Ordered(items, r) && IsCycle(items, c)
    ensures exists x | x in c :: x !in r
  {
    if forall x | x in c :: x in r {
      assert forall i | 0 <= i < |c| :: c[i] in r;
      CycleStepsDescend(items, r, c);
      CycleDescends(r, c, |c| - 1);
    }
  }

  /** In an ordered list each step along a cycle moves to an earlier
      position, the step that closes the cycle included. */
  lemma CycleStepsDescend(items: Deps, r: seq<string>, c: seq<string>)
    requires Ordered(items, r) && IsCycle(items, c)
    requires forall i | 0 <= i < |c| :: c[i] in r
    ensures forall i | 0 < i < |c| :: IndexOf(r, c[i]) < IndexOf(r, c[i - 1])
    ensures IndexOf(r, c[0]) < IndexOf(r, c[|c| - 1])
  {
    forall i | 0 < i < |c|
      ensures IndexOf(r, c[i]) < IndexOf(r, c[i - 1])
    {
      assert c[i] in DepsOf(items, c[i - 1]) by { assert Next(c, i - 1) == i; }
      OrderedAt(items, r, c[i - 1], c[i]);
    }
    var n := |c|;
    assert c[0] in DepsOf(items, c[n - 1]) by { assert Next(c, n - 1) == 0; }
    OrderedAt(items, r, c[n - 1], c[0]);
  }

  /** Cycle detection: when every test with dependencies is resolved, any
      cycle makes the resolution fail with a circular-dependency error. */
  lemma CycleFails(items: Deps, keys: seq<string>, c: seq<string>)
    requires forall k | k in items :: k in keys
    requires IsCycle(items, c)
    ensures ResolveAll(items, keys).Err?
    ensures ResolveAll(items, keys).error.CircularDependency?
  {
    if ResolveAll(items, keys).Ok? {
      var r := ResolveAll(items, keys).value;
      forall x | x in c ensures x in r {
        var i :| 0 <= i < |c| && c[i] == x;
        assert c[Next(c, i)] in DepsOf(items, x);
      }
      OrderedHasNoCycle(items, r, c);
      assert false;
    }
  }

  /** The dependency graph admits an order with every dependency first. */
  ghost predicate HasDependencyFirstOrder(items: Deps) {
    exists topo :: Ordered(items, topo) && forall k | k in items :: k in topo
  }

  /** The dependency graph has no cycle. */
  ghost predicate Acyclic(items: Deps) {
    forall c :: !IsCycle(items, c)
  }

  /** A walk along dependency edges: each name depends on the next. */
  ghost predicate Walk(items: Deps, w: seq<string>) {
    forall k | 0 <= k < |w| - 1 :: w[k + 1] in DepsOf(items, w[k])
  }

  lemma WalkExtend(items: Deps, w: seq<string>, d: string)
    requires Walk(items, w) && w != [] && d in DepsOf(items, w[|w| - 1])
    ensures Walk(items, w + [d])
  {
    var w' := w + [d];
    forall k | 0 <= k < |w'| - 1 ensures w'[k + 1] in DepsOf(items, w'[k]) {
      if k + 1 < |w| {
        assert w'[k + 1] == w[k + 1] && w'[k] == w[k];
      }
    }
  }

  /** A walk whose last name depends on one of its names closes into a cycle
      from that name on. */
  lemma ClosedWalk(items: Deps, w: seq<string>, j: nat)
    requires Walk(items, w) && j < |w| && w[j] in DepsOf(items, w[|w| - 1])
    ensures IsCycle(items, w[j..])
  {
    var c := w[j..];
    forall i | 0 <= i < |c| ensures c[Next(c, i)] in DepsOf(items, c[i]) {
      if i + 1 < |c| {
        assert c[i + 1] == w[j + i + 1] && c[i] == w[j + i];
      }
    }
  }

  /** The path of a resolution is covered by a walk ending at the name being
      resolved: each name was pushed as a dependency of the one before it.
      So a dependency found on the path closes a cycle. */
  lemma {:induction false} ResolveFailsOnCycle(items: Deps, item: string, r: seq<string>, u: seq<string>,
                                               w: seq<string>)
    requires Walk(items, w) && w != [] && w[|w| - 1] == item
    requires forall y | y in u :: y in w
    ensures Resolve(items, item, r, u).Err? ==> exists c :: IsCycle(items, c)
    decreases Pending(items, u), if item in items then 1 else 0, 1, 0
  {
    PendingAppend(items, u, item);
    if item in items {
      ResolveDepsFailsOnCycle(items, item, items[item], r, u + [item], w);
    }
  }

  lemma {:induction false} ResolveDepsFailsOnCycle(items: Deps, item: string, ds: seq<string>, r: seq<string>,
                                                   u: seq<string>, w: seq<string>)
    requires item in items && item in u
    requires forall d | d in ds :: d in items[item]
    requires Walk(items, w) && w != [] && w[|w| - 1] == item
    requires forall y | y in u :: y in w
    ensures ResolveDeps(items, item, ds, r, u).Err? ==> exists c :: IsCycle(items, c)
    decreases Pending(items, u), 1, 0, |ds|
  {
    if ds != [] {
      var d := ds[0];
      if d in r {
        ResolveDepsFailsOnCycle(items, item, ds[1..], r, u, w);
      } else if d in u {
        var j :| 0 <= j < |w| && w[j] == d;
        ClosedWalk(items, w, j);
      } else {
        PendingAppend(items, u, d);
        WalkExtend(items, w, d);
        ResolveFailsOnCycle(items, d, r, u + [d], w + [d]);
        match Resolve(items, d, r, u + [d])
        case Err(_) =>
        case Ok((r1, u1)) =>
          RemoveAllAppendSame(u, d);
          ResolveDepsFailsOnCycle(items, item, ds[1..], r1, u1, w);
      }
    }
  }

  lemma {:induction false} ResolveEachFailsOnCycle(items: Deps, keys: seq<string>, r: seq<string>)
    ensures ResolveEach(items, keys, r, []).Err? ==> exists c :: IsCycle(items, c)
  {
    if keys != [] {
      ResolveFailsOnCycle(items, keys[0], r, [], [keys[0]]);
      match Resolve(items, keys[0], r, [])
      case Err(_) =>
      case Ok((r1, u1)) =>
        ResolveEachFailsOnCycle(items, keys[1..], r1);
    }
  }

  /** The resolver fails only on a cycle: a failure exhibits one. */
  lemma ResolveAllFailsOnCycle(items: Deps, keys: seq<string>)
    ensures ResolveAll(items, keys).Err? ==> exists c :: IsCycle(items, c)
  {
    ResolveEachFailsOnCycle(items, keys, []);
  }

  lemma {:induction false} ResolveSucceeds(items: Deps, topo: seq<string>, item: string, r: seq<string>, u: seq<string>)
    requires Ordered(items, topo) && forall k | k in items :: k in topo
    requires item in items ==> forall y | y in u :: y in topo && IndexOf(topo, item) <= IndexOf(topo, y)
    ensures Resolve(items, item, r, u).Ok?
    decreases Pending(items, u), if item in items then 1 else 0, 1, 0
  {    PendingAppend(items, u, item);
    if item in items {
      ResolveDepsSucceed(items, topo, item, items[item], r, u + [item]);
    }
  }

  lemma {:induction false} ResolveDepsSucceed(items: Deps, topo: seq<string>, item: string, ds: seq<string>,
                                              r: seq<string>, u: seq<string>)
    requires Ordered(items, topo) && forall k | k in items :: k in topo
    requires item in items && item in u
    requires forall d | d in ds :: d in items[item]
    requires forall y | y in u :: y in topo && IndexOf(topo, item) <= IndexOf(topo, y)
    ensures ResolveDeps(items, item, ds, r, u).Ok?
    decreases Pending(items, u), 1, 0, |ds|
  {
    if ds != [] {
      var d := ds[0];
      if d in r {
        ResolveDepsSucceed(items, topo, item, ds[1..], r, u);
      } else {
        OrderedAt(items, topo, item, d);
        PendingAppend(items, u, d);
        ResolveSucceeds(items, topo, d, r, u + [d]);
        var res := Resolve(items, d, r, u + [d]);
        RemoveAllAppendSame(u, d);
        ResolveDepsSucceed(items, topo, item, ds[1..], res.value.0, res.value.1);
      }
    }
  }

  lemma {:induction false} ResolveEachSucceeds(items: Deps, topo: seq<string>, keys: seq<string>, r: seq<string>)
    requires Ordered(items, topo) && forall k | k in items :: k in topo
    ensures ResolveEach(items, keys, r, []).Ok?
  {
    if keys != [] {
      ResolveSucceeds(items, topo, keys[0], r, []);
      var res := Resolve(items, keys[0], r, []);
      ResolveEachSucceeds(items, topo, keys[1..], res.value.0);
    }
  }

  /** The resolver succeeds exactly when the dependency graph has no cycle,
      when every test with dependencies is one of the names resolved. */
  lemma ResolveAllOkIffAcyclic(items: Deps, keys: seq<string>)
    requires forall k | k in items :: k in keys
    ensures ResolveAll(items, keys).Ok? <==> Acyclic(items)
  {
    if ResolveAll(items, keys).Ok? {
      forall c ensures !IsCycle(items, c) {
        if IsCycle(items, c) {
          CycleFails(items, keys, c);
        }
      }
    } else {
      ResolveAllFailsOnCycle(items, keys);
    }
  }

  /** The resolver succeeds exactly when some order puts every dependency
      first; with the lemma above, such an order exists exactly when the
      graph has no cycle. */
  lemma ResolveAllOkIffOrderExists(items: Deps, keys: seq<string>)
    requires forall k | k in items :: k in keys
    ensures ResolveAll(items, keys).Ok? <==> HasDependencyFirstOrder(items)
  {
    if HasDependencyFirstOrder(items) {
      var topo :| Ordered(items, topo) && forall k | k in items :: k in topo;
      ResolveEachSucceeds(items, topo, keys, []);
    }
  }
}
