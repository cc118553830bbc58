/** The dependency-aware even split of SplitTestsByGroupsTask::run: order the
    tests (resolving dependencies when any test declares one), then cut the
    ordered list into contiguous groups 1..numGroups in one pass. */
module BalancedSplit {
  import opened Results
  import opened Seqs
  import opened TestInventory
  import DependencyNames
  import Resolver
  import Arith

  /** The rules the grouping pass obeys, for group size target `target`:
      groups are non-empty and at most `numGroups`; a group is opened only by
      a test without dependencies once the previous group holds `target`
      tests; and a group that could have been closed before one of its tests
      was only kept open because that test has dependencies. */
  ghost predicate Grouped(gs: seq<seq<string>>, deps: map<string, seq<string>>, target: nat, numGroups: nat) {
    && |gs| <= numGroups
    && (forall j | 0 <= j < |gs| :: gs[j] != [])
    && (forall j | 1 <= j < |gs| :: NoDeps(deps, gs[j][0]))
    && (forall j | 0 <= j < |gs| - 1 :: |gs[j]| >= target)
    && (forall j, p | 0 <= j < |gs| && 1 <= p < |gs[j]| && target <= p && j + 1 < numGroups ::
          !NoDeps(deps, gs[j][p]))
  }

  /** One iteration of the loop: `$i` moves on when the current group is
      non-empty, holds at least `target` tests, is not the last group, and
      `test` has no dependencies; `test` joins group `$i`. */
  function Place(gs: seq<seq<string>>, test: string, deps: map<string, seq<string>>, target: nat, numGroups: nat)
    : (r: seq<seq<string>>)
    ensures |r| == |gs| + 1 ==> r == gs + [[test]]
    ensures gs != [] && |r| == |gs| + 1 ==> NoDeps(deps, test) && |gs| < numGroups
    ensures |r| != |gs| + 1 ==> gs != [] && r == gs[|gs| - 1 := gs[|gs| - 1] + [test]]
  {
    if gs == [] then [[test]]
    else if |gs[|gs| - 1]| >= target && |gs| <= numGroups - 1 && NoDeps(deps, test) then gs + [[test]]
    else gs[|gs| - 1 := gs[|gs| - 1] + [test]]
  }

  /** One placement appends the test to the concatenation and keeps the rules. */
  lemma PlaceKeepsGrouped(gs: seq<seq<string>>, test: string, deps: map<string, seq<string>>, target: nat, numGroups: nat)
    requires numGroups >= 1 && Grouped(gs, deps, target, numGroups)
    ensures Grouped(Place(gs, test, deps, target, numGroups), deps, target, numGroups)
    ensures Concat(Place(gs, test, deps, target, numGroups)) == Concat(gs) + [test]
    ensures Place(gs, test, deps, target, numGroups) != []
  {
    if gs == [] {
      assert Place(gs, test, deps, target, numGroups) == [[test]];
      ConcatAppend([], [test]);
      FirstGroupGrouped(test, deps, target, numGroups);
    } else if |gs[|gs| - 1]| >= target && |gs| <= numGroups - 1 && NoDeps(deps, test) {
      assert Place(gs, test, deps, target, numGroups) == gs + [[test]];
      ConcatAppend(gs, [test]);
      OpenKeepsGrouped(gs, test, deps, target, numGroups);
    } else {
      assert Place(gs, test, deps, target, numGroups) == gs[|gs| - 1 := gs[|gs| - 1] + [test]];
      ConcatUpdateLast(gs, test);
      ExtendKeepsGrouped(gs, test, deps, target, numGroups);
    }
  }

  /** The first test opens group 1. */
  lemma FirstGroupGrouped(test: string, deps: map<string, seq<string>>, target: nat, numGroups: nat)
    requires numGroups >= 1
    ensures Grouped([[test]], deps, target, numGroups)
  {
  }

  lemma OpenKeepsGrouped(gs: seq<seq<string>>, test: string, deps: map<string, seq<string>>, target: nat, numGroups: nat)
    requires Grouped(gs, deps, target, numGroups) && gs != []
    requires |gs[|gs| - 1]| >= target && |gs| < numGroups && NoDeps(deps, test)
    ensures Grouped(gs + [[test]], deps, target, numGroups)
  {
    var r := gs + [[test]];
    forall j, p | 0 <= j < |r| && 1 <= p < |r[j]| && target <= p && j + 1 < numGroups
      ensures !NoDeps(deps, r[j][p])
    {
      assert j < |gs| && r[j] == gs[j];
    }
  }

  lemma ExtendKeepsGrouped(gs: seq<seq<string>>, test: string, deps: map<string, seq<string>>, target: nat, numGroups: nat)
    requires Grouped(gs, deps, target, numGroups) && gs != []
    requires !(|gs[|gs| - 1]| >= target && |gs| <= numGroups - 1 && NoDeps(deps, test))
    ensures Grouped(gs[|gs| - 1 := gs[|gs| - 1] + [test]], deps, target, numGroups)
  {
    var last := |gs| - 1;
    var r := gs[last := gs[last] + [test]];
    forall j | 0 <= j < |r| ensures r[j] != [] {
      if j == last { assert |r[j]| > 0; }
    }
    forall j | 1 <= j < |r| ensures NoDeps(deps, r[j][0]) {
      if j == last { assert r[j][0] == gs[j][0]; }
    }
    forall j, p | 0 <= j < |r| && 1 <= p < |r[j]| && target <= p && j + 1 < numGroups
      ensures !NoDeps(deps, r[j][p])
    {
      if j == last && p < |gs[last]| {
        assert r[j][p] == gs[j][p];
      }
    }
  }

  /** The loop over the remaining tests `rest`. */
  function Fill(gs: seq<seq<string>>, rest: seq<string>, deps: map<string, seq<string>>, target: nat, numGroups: nat)
    : (r: seq<seq<string>>)
    requires numGroups >= 1 && Grouped(gs, deps, target, numGroups)
    ensures Grouped(r, deps, target, numGroups)
    ensures Concat(r) == Concat(gs) + rest
    ensures rest != [] ==> r != []
    decreases |rest|
  {
    if rest == [] then gs
    else
      var placed := Place(gs, rest[0], deps, target, numGroups);
      PlaceKeepsGrouped(gs, rest[0], deps, target, numGroups);
      assert Concat(gs) + rest == Concat(placed) + rest[1..];
      Fill(placed, rest[1..], deps, target, numGroups)
  }

  /** `floor($n / $numGroups)`, the group size the pass aims for: the most
      tests per group that `numGroups` groups can all hold. */
  function Target(n: nat, numGroups: nat): (t: nat)
    requires numGroups >= 1
    ensures numGroups * t <= n < numGroups * (t + 1)
  {
    n / numGroups
  }

  /** The grouping pass with target `Target(|ordered|, numGroups)`. Group j+1
      of the source is `r[j]`; only groups that receive a test exist. */
  function Split(ordered: seq<string>, deps: map<string, seq<string>>, numGroups: nat): (r: seq<seq<string>>)
    requires numGroups >= 1
    ensures Concat(r) == ordered
    ensures Grouped(r, deps, Target(|ordered|, numGroups), numGroups)
    ensures ordered != [] <==> r != []
  {
    Fill([], ordered, deps, Target(|ordered|, numGroups), numGroups)
  }

  /** Some test declares at least one dependency (`$testsHaveAtLeastOneDependency`). */
  predicate AnyDependency(inv: Inventory) {
    exists n | n in inv.deps :: inv.deps[n] != []
  }

  /** The loading loop's flag: false at first, set once a loaded test
      declares a dependency, never cleared. */
  method DetectDependencies(inv: Inventory) returns (found: bool)
    requires inv.Valid()
    ensures found <==> AnyDependency(inv)
  {
    found := false;
    var k := 0;
    while k < |inv.names|
      invariant 0 <= k <= |inv.names|
      invariant found <==> exists j | 0 <= j < k :: inv.deps[inv.names[j]] != []
    {
      if !found && inv.deps[inv.names[k]] != [] {
        found := true;
      }
      k := k + 1;
    }
    if AnyDependency(inv) {
      var n :| n in inv.deps && inv.deps[n] != [];
      var j := IndexOf(inv.names, n);
      assert inv.deps[inv.names[j]] != [];
    }
  }

  /** The ordered list of tests and the dependency lists the grouping pass
      consults: resolved order and canonical lists when some test declares a
      dependency, otherwise the key order and the lists as declared. */
  function OrderTests(inv: Inventory): (r: Result<(seq<string>, map<string, seq<string>>), SplitError>)
    requires inv.Valid()
    ensures !AnyDependency(inv) ==> r == Ok((inv.names, inv.deps))
    ensures r.Ok? ==> NoDup(r.value.0) && (forall n | n in inv.names :: n in r.value.0)
    ensures r.Ok? ==> Resolver.Ordered(r.value.1, r.value.0)
    ensures r.Ok? ==> SameShape(r.value.1, inv.deps)
    ensures r.Ok? ==> forall x | x in r.value.0 :: x in inv.names || NamesDependency(inv, x)
    ensures AnyDependency(inv) ==>
              (r.Err? && r.error.UnresolvedDependency? <==> DependencyNames.Canonicalize(inv).Err?)
    ensures AnyDependency(inv) && r.Ok? ==>
              r.value.1 == DependencyNames.Canonicalize(inv).value.deps
    ensures AnyDependency(inv) && DependencyNames.Canonicalize(inv).Ok? ==>
              (r.Ok? <==> Resolver.Acyclic(DependencyNames.Canonicalize(inv).value.deps))
  {
    if AnyDependency(inv) then
      match DependencyNames.Canonicalize(inv)
      case Err(e) => Err(e)
      case Ok(canon) =>
        CanonicalOrder(inv, canon);
        match Resolver.ResolveAll(canon.deps, canon.names)
        case Err(e) => Err(e)
        case Ok(ordered) => Ok((ordered, canon.deps))
    else
      LoaderOrderIsOrdered(inv);
      Ok((inv.names, inv.deps))
  }

  /** Canonicalisation keeps the tests and the shape of their lists, and the
      resolver then succeeds exactly on an acyclic graph. */
  lemma CanonicalOrder(inv: Inventory, canon: Inventory)
    requires inv.Valid() && DependencyNames.Canonicalize(inv) == Ok(canon)
    ensures canon.names == inv.names && SameShape(canon.deps, inv.deps)
    ensures Resolver.ResolveAll(canon.deps, canon.names).Ok? <==> Resolver.Acyclic(canon.deps)
    ensures Resolver.ResolveAll(canon.deps, canon.names).Ok? ==>
              forall x | x in Resolver.ResolveAll(canon.deps, canon.names).value ::
                x in inv.names || NamesDependency(inv, x)
  {
    Resolver.ResolveAllOkIffAcyclic(canon.deps, canon.names);
    forall x | Resolver.IsDependency(canon.deps, x) ensures NamesDependency(inv, x) {
      CanonicalNamesDependency(inv, canon, x);
    }
  }

  /** `x` is the full name some declared dependency canonicalises to. */
  ghost predicate NamesDependency(inv: Inventory, x: string) {
    exists n, d | n in inv.deps && d in inv.deps[n] :: DependencyNames.CanonicalDependency(inv.names, n, d) == Ok(x)
  }

  /** Every name in a canonical dependency list is the full name of a
      declared dependency. */
  lemma CanonicalNamesDependency(inv: Inventory, canon: Inventory, x: string)
    requires inv.Valid() && DependencyNames.Canonicalize(inv) == Ok(canon)
    requires Resolver.IsDependency(canon.deps, x)
    ensures NamesDependency(inv, x)
  {
    var n :| n in canon.deps && x in canon.deps[n];
    var i :| 0 <= i < |canon.deps[n]| && canon.deps[n][i] == x;
    assert n in inv.deps;
    assert inv.deps[n][i] in inv.deps[n];
  }

  /** Without dependencies the loader order is trivially dependency-first. */
  lemma LoaderOrderIsOrdered(inv: Inventory)
    requires inv.Valid() && !AnyDependency(inv)
    ensures Resolver.Ordered(inv.deps, inv.names)
  {
    forall i | 0 <= i < |inv.names| ensures Resolver.DepsOf(inv.deps, inv.names[i]) == [] {
      assert inv.names[i] in inv.deps;
    }
  }

  /** The grouping rules read only whether a test has dependencies. */
  lemma GroupedDepsAgree(gs: seq<seq<string>>, d1: map<string, seq<string>>, d2: map<string, seq<string>>,
                         target: nat, numGroups: nat)
    requires SameShape(d1, d2)
    ensures Grouped(gs, d1, target, numGroups) <==> Grouped(gs, d2, target, numGroups)
  {
  }

  lemma SplitUnderDeclaredDeps(ordered: seq<string>, deps: map<string, seq<string>>,
                               declared: map<string, seq<string>>, numGroups: nat)
    requires numGroups >= 1
    requires SameShape(deps, declared)
    ensures Grouped(Split(ordered, deps, numGroups), declared, Target(|ordered|, numGroups), numGroups)
  {
    var gs := Split(ordered, deps, numGroups);
    var target := Target(|ordered|, numGroups);
    assert Grouped(gs, deps, target, numGroups);
    GroupedDepsAgree(gs, deps, declared, target, numGroups);
  }

  /** SplitTestsByGroupsTask::run without the loading and the file writes:
      group j+1 of the result is `r.value[j]`. */
  function SplitTestsByGroups(inv: Inventory, numGroups: nat): (r: Result<seq<seq<string>>, SplitError>)
    requires inv.Valid() && numGroups >= 1
    ensures !AnyDependency(inv) ==> r.Ok? && Concat(r.value) == inv.names
    ensures r.Ok? ==> NoDup(Concat(r.value)) && (forall n | n in inv.names :: n in Concat(r.value))
    ensures r.Ok? ==> forall x | x in Concat(r.value) :: x in inv.names || NamesDependency(inv, x)
    ensures r.Ok? ==> Grouped(r.value, inv.deps, Target(|Concat(r.value)|, numGroups), numGroups)
    ensures r.Ok? ==> (inv.names != [] <==> r.value != [])
    ensures r.Ok? && AnyDependency(inv) ==>
              DependencyNames.Canonicalize(inv).Ok?
              && Resolver.Ordered(DependencyNames.Canonicalize(inv).value.deps, Concat(r.value))
    ensures r.Err? <==>
              (AnyDependency(inv) && (DependencyNames.Canonicalize(inv).Err?
                                      || !Resolver.Acyclic(DependencyNames.Canonicalize(inv).value.deps)))
  {
    var o :- OrderTests(inv);
    SplitUnderDeclaredDeps(o.0, o.1, inv.deps, numGroups);
    Ok(Split(o.0, o.1, numGroups))
  }

  /** A dependent test never opens a group: with A, B (depending on A), C
      and D in two groups, B stays with A and C opens group 2. */
  lemma ChainStaysTogether()
    ensures Split(["A", "B", "C", "D"], map["A" := [], "B" := ["A"], "C" := [], "D" := []], 2)
            == [["A", "B"], ["C", "D"]]
  {
    var deps := map["A" := [], "B" := ["A"], "C" := [], "D" := []];
    assert Target(0, 2) == 0 && Target(2, 2) == 1 && Target(4, 2) == 2;
    var g1 := Place([], "A", deps, 2, 2);
    assert g1 == [["A"]];
    assert !NoDeps(deps, "B") && NoDeps(deps, "C") && NoDeps(deps, "D");
    assert ["A"] + ["B"] == ["A", "B"] && ["C"] + ["D"] == ["C", "D"];
    var g2 := Place(g1, "B", deps, 2, 2);
    assert g2 == [["A", "B"]];
    var g3 := Place(g2, "C", deps, 2, 2);
    assert g3 == [["A", "B"], ["C"]];
    var g4 := Place(g3, "D", deps, 2, 2);
    assert g4 == [["A", "B"], ["C", "D"]];
    assert ["A", "B", "C", "D"][1..] == ["B", "C", "D"];
    assert ["B", "C", "D"][1..] == ["C", "D"];
    assert ["C", "D"][1..] == ["D"];
    assert ["D"][1..] == [];
  }
}
