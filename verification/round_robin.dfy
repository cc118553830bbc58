/** The round-robin splits: SplitTestFilesByGroupsTask over discovered files
    and SplitTestsFilesByFailedTask over the lines of the failed-test log.
    The item at position k joins group `(k % numGroups) + 1`, which here is
    `gs[k % numGroups]`; only groups that receive an item exist. */
module RoundRobin {
  import opened Results
  import opened Strings
  import opened Arith
  import opened Seqs

  function Min(a: nat, b: nat): nat {
    if a <= b then a else b
  }

  /** `$groups[$g + 1][] = $x`: appends `x` to group `g`, creating it when
      it is the next one. */
  function AddTo(gs: seq<seq<string>>, g: nat, x: string): (r: seq<seq<string>>)
    requires g <= |gs|
    ensures |r| == if g == |gs| then |gs| + 1 else |gs|
    ensures r[g] == (if g < |gs| then gs[g] else []) + [x]
    ensures forall j | 0 <= j < |gs| && j != g :: r[j] == gs[j]
  {
    if g == |gs| then gs + [[x]] else gs[g := gs[g] + [x]]
  }

  /** The items at positions g, g + m, g + 2m, ...: what group g of a
      round-robin deal over m groups should hold. */
  function Column(items: seq<string>, m: nat, g: nat): seq<string>
    requires m >= 1
    decreases |items| - g
  {
    if g >= |items| then [] else [items[g]] + Column(items, m, g + m)
  }

  /** `gs` is the round-robin distribution of `items` over `m` groups: as
      many groups as items, up to m, and group g is Column g. */
  ghost predicate RoundRobin(items: seq<string>, m: nat, gs: seq<seq<string>>)
    requires m >= 1
  {
    && |gs| == Min(|items|, m)
    && forall g | 0 <= g < |gs| :: gs[g] == Column(items, m, g)
  }

  /** The splitting loop `foreach ... $groups[($i % $numGroups) + 1][] = ...`. */
  function Distribute(items: seq<string>, numGroups: nat): (gs: seq<seq<string>>)
    requires numGroups >= 1
    ensures RoundRobin(items, numGroups, gs)
    decreases |items|
  {
    if items == [] then []
    else
      var n := |items| - 1;
      var prev := Distribute(items[..n], numGroups);
      DistributeLast(items, numGroups, prev);
      AddTo(prev, n % numGroups, items[n])
  }

  /** The loop's last iteration, stated on the whole list. */
  lemma DistributeLast(items: seq<string>, m: nat, prev: seq<seq<string>>)
    requires m >= 1 && items != [] && RoundRobin(items[..|items| - 1], m, prev)
    ensures (|items| - 1) % m <= |prev|
    ensures RoundRobin(items, m, AddTo(prev, (|items| - 1) % m, items[|items| - 1]))
  {
    var n := |items| - 1;
    DistributeStep(items[..n], m, prev, items[n]);
    assert items[..n] + [items[n]] == items;
  }

  /** Below m, g is the residue of n exactly when m divides n - g. */
  lemma ResidueIff(n: nat, m: nat, g: nat)
    requires m >= 1 && g < m && g <= n
    ensures (n - g) % m == 0 <==> n % m == g
  {
    var q, r := n / m, n % m;
    assert n == m * q + r;
    if r == g {
      DivModUnique(n - g, m, q, 0);
    }
    if (n - g) % m == 0 {
      var q' := (n - g) / m;
      assert n - g == m * q';
      DivModUnique(n, m, q', g);
    }
  }

  /** Position n lies in the column through g exactly when it lies in the
      column through g + m, for g before n. */
  lemma ResidueShift(n: nat, m: nat, g: nat)
    requires m >= 1 && g < n
    ensures (n - g) % m == 0 <==> (g + m <= n && (n - g - m) % m == 0)
  {
    if g + m <= n {
      DivModUnique(n - g, m, (n - g - m) / m + 1, (n - g - m) % m);
    } else {
      DivModUnique(n - g, m, 0, n - g);
    }
  }

  /** Appending an item extends exactly the column it falls in. */
  lemma {:induction false} ColumnAppend(items: seq<string>, m: nat, g: nat, x: string)
    requires m >= 1
    ensures Column(items + [x], m, g)
         == Column(items, m, g) + (if g <= |items| && (|items| - g) % m == 0 then [x] else [])
    decreases |items| - g
  {
    var n := |items|;
    if g < n {
      ColumnAppend(items, m, g + m, x);
      ResidueShift(n, m, g);
      assert Column(items + [x], m, g) == [items[g]] + Column(items + [x], m, g + m);
    } else if g == n {
      assert Column(items + [x], m, g + m) == [];
    }
  }

  /** One iteration of the loop keeps the distribution round-robin. */
  lemma DistributeStep(items: seq<string>, m: nat, gs: seq<seq<string>>, x: string)
    requires m >= 1 && RoundRobin(items, m, gs)
    ensures |items| % m <= |gs|
    ensures RoundRobin(items + [x], m, AddTo(gs, |items| % m, x))
  {
    var n := |items|;
    var g0 := n % m;
    if n < m {
      DivModUnique(n, m, 0, n);
    }
    var gs' := AddTo(gs, g0, x);
    forall g | 0 <= g < |gs'| ensures gs'[g] == Column(items + [x], m, g) {
      ColumnAppend(items, m, g, x);
      ResidueIff(n, m, g);
    }
  }

  /** Group g's share of n + 1 items is its share of n, plus one when item n
      falls in group g. */
  lemma ShareStep(n: nat, m: nat, g: nat)
    requires m >= 1 && g < m
    ensures n / m + (if g < n % m then 1 else 0) + (if g <= n && (n - g) % m == 0 then 1 else 0)
         == (n + 1) / m + (if g < (n + 1) % m then 1 else 0)
  {
    DivModNext(n, m);
    if g <= n {
      ResidueIff(n, m, g);
    } else {
      DivModUnique(n, m, 0, n);
      DivModUnique(n + 1, m, 0, n + 1);
    }
  }

  /** Group g (the source's group g + 1) receives `n / m` of n items, plus
      one when g is below the remainder. */
  lemma {:induction false} ColumnLength(items: seq<string>, m: nat, g: nat)
    requires m >= 1 && g < m
    ensures |Column(items, m, g)| == |items| / m + (if g < |items| % m then 1 else 0)
    decreases |items|
  {
    var n := |items|;
    if n > 0 {
      var init, x := items[..n - 1], items[n - 1];
      assert init + [x] == items;
      var before, after := |Column(init, m, g)|, |Column(items, m, g)|;
      var step := if g <= n - 1 && (n - 1 - g) % m == 0 then 1 else 0;
      assert after == before + step by {
        ColumnAppend(init, m, g, x);
      }
      assert before == (n - 1) / m + (if g < (n - 1) % m then 1 else 0) by {
        ColumnLength(init, m, g);
      }
      ShareStep(n - 1, m, g);
    }
  }

  /** Entry j of column g is the item at position g + m * j. */
  lemma {:induction false} ColumnIndex(items: seq<string>, m: nat, g: nat, j: nat)
    requires m >= 1 && g + m * j < |items|
    ensures j < |Column(items, m, g)| && Column(items, m, g)[j] == items[g + m * j]
    decreases j
  {
    if j > 0 {
      assert g + m + m * (j - 1) == g + m * j;
      ColumnIndex(items, m, g + m, j - 1);
    }
  }

  /** The item at position k (from 0) is item `k / m` of group `k % m`, the
      source's group `(k % m) + 1`. */
  lemma PositionOfItem(items: seq<string>, m: nat, gs: seq<seq<string>>, k: nat)
    requires m >= 1 && RoundRobin(items, m, gs) && k < |items|
    ensures k % m < |gs| && k / m < |gs[k % m]| && gs[k % m][k / m] == items[k]
  {
    if k < m {
      DivModUnique(k, m, 0, k);
    }
    assert k == k % m + m * (k / m);
    ColumnIndex(items, m, k % m, k / m);
  }

  /** Adding an item to a group adds exactly that item to the union. */
  lemma AddToMultiset(gs: seq<seq<string>>, g: nat, x: string)
    requires g <= |gs|
    ensures multiset(Concat(AddTo(gs, g, x))) == multiset(Concat(gs)) + multiset{x}
  {
    if g == |gs| {
      ConcatAppend(gs, [x]);
    } else {
      ConcatUpdateMultiset(gs, g, x);
    }
  }

  /** Every item lands in exactly one group: the groups together are a
      permutation of the input. */
  lemma {:induction false} DistributeKeepsItems(items: seq<string>, m: nat)
    requires m >= 1
    ensures multiset(Concat(Distribute(items, m))) == multiset(items)
    decreases |items|
  {
    if items != [] {
      var n := |items| - 1;
      var init, x := items[..n], items[n];
      assert init + [x] == items;
      assert multiset(items) == multiset(init) + multiset{x};
      var prev := Distribute(init, m);
      assert n % m <= |prev| by { DistributeStep(init, m, prev, x); }
      assert Distribute(items, m) == AddTo(prev, n % m, x);
      DistributeKeepsItems(init, m);
      AddToMultiset(prev, n % m, x);
    }
  }

  /** `trim($text, "\n")` split on "\n": the failed-test log's lines. An
      empty log yields one empty line, and blank lines inside are kept. */
  function FailedTests(text: string): (lines: seq<string>)
    ensures |lines| >= 1
    ensures forall l | l in lines :: '\n' !in l
    ensures Join(lines, '\n') == Trim(text, '\n')
  {
    JoinExplode(Trim(text, '\n'), '\n');
    Explode(Trim(text, '\n'), '\n')
  }

  /** Why the failed-tests split cannot run. */
  datatype FailedError = NoFailedReport

  /** SplitTestsFilesByFailedTask::run without the file system: `report` is
      the failed-test log's content, None when the file does not exist. */
  function SplitFailed(report: Option<string>, numGroups: nat): (r: Result<seq<seq<string>>, FailedError>)
    requires numGroups >= 1
    ensures r.Err? <==> report.None?
    ensures r.Err? ==> r.error == NoFailedReport
    ensures r.Ok? ==> RoundRobin(FailedTests(report.value), numGroups, r.value)
    ensures r.Ok? ==> multiset(Concat(r.value)) == multiset(FailedTests(report.value))
  {
    match report
    case None => Err(NoFailedReport)
    case Some(text) =>
      DistributeKeepsItems(FailedTests(text), numGroups);
      Ok(Distribute(FailedTests(text), numGroups))
  }

  /** SplitTestFilesByGroupsTask::run without discovery and writes, over the
      discovered relative path names in discovery order. */
  function SplitFiles(files: seq<string>, numGroups: nat): (gs: seq<seq<string>>)
    requires numGroups >= 1
    ensures RoundRobin(files, numGroups, gs)
    ensures multiset(Concat(gs)) == multiset(files)
  {
    DistributeKeepsItems(files, numGroups);
    Distribute(files, numGroups)
  }

  /** Three files over two groups: the first and third share group 1. */
  lemma ThreeFilesTwoGroups()
    ensures SplitFiles(["a", "b", "c"], 2) == [["a", "c"], ["b"]]
  {
    var a, ab, abc := ["a"], ["a", "b"], ["a", "b", "c"];
    assert a[..0] == [] && ab[..1] == a && abc[..2] == ab;
    var g1, g2 := [["a"]], [["a"], ["b"]];
    assert Distribute(a, 2) == AddTo([], 0, "a") == g1;
    assert Distribute(ab, 2) == AddTo(g1, 1, "b") == g2;
    assert ["a"] + ["c"] == ["a", "c"];
    assert AddTo(g2, 0, "c") == g2[0 := ["a", "c"]] == [["a", "c"], ["b"]];
    assert Distribute(abc, 2) == AddTo(g2, 2 % 2, "c");
  }
}
