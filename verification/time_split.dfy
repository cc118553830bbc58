/** The historical-time split of SplitTestsFilesByTimeTask::run: each file
    costs the sum of the report times whose key contains its name; files are
    taken in non-increasing cost order and each joins the group whose running
    sum is smallest. Times are whole units (say milliseconds). */
module TimeSplit {
  import opened Results
  import opened Seqs
  import opened Strings

  /** One `key => time` entry of the decoded time report. */
  datatype Entry = Entry(key: string, time: nat)

  /** One output group: its files in placement order and their total time. */
  datatype Group = Group(tests: seq<string>, sum: nat)

  /** `$timesCat` for `file`: the times of the entries whose key contains
      `file`, added up. The loop adds them to a running total in report
      order, so the total after the last entry is the total before it plus
      that entry's time when its key matches. */
  function Cost(report: seq<Entry>, file: string): (r: nat)
    ensures report != [] ==>
              var last := report[|report| - 1];
              r == Cost(report[..|report| - 1], file) + (if Contains(last.key, file) then last.time else 0)
  {
    if report == [] then 0
    else
      assert report[1..] != [] ==> report[1..][..|report| - 2] == report[..|report| - 1][1..];
      if Contains(report[0].key, file) then report[0].time + Cost(report[1..], file)
      else Cost(report[1..], file)
  }

  /** Every matching entry counts toward the cost, and a file no key mentions
      costs nothing. */
  lemma {:induction false} CostFacts(report: seq<Entry>, file: string)
    ensures forall e | e in report && Contains(e.key, file) :: e.time <= Cost(report, file)
    ensures (forall e | e in report :: !Contains(e.key, file)) ==> Cost(report, file) == 0
    ensures forall e :: Cost([e], file) == if Contains(e.key, file) then e.time else 0
  {
    forall e ensures Cost([e], file) == if Contains(e.key, file) then e.time else 0 {
      assert [e][1..] == [];
    }
    if report != [] {
      CostFacts(report[1..], file);
      assert forall e | e in report :: e == report[0] || e in report[1..];
    }
  }

  /** The cost of a report is additive: entries contribute independently. */
  lemma {:induction false} CostAppend(r1: seq<Entry>, r2: seq<Entry>, file: string)
    ensures Cost(r1 + r2, file) == Cost(r1, file) + Cost(r2, file)
  {
    if r1 != [] {
      assert (r1 + r2)[1..] == r1[1..] + r2;
      CostAppend(r1[1..], r2, file);
    } else {
      assert r1 + r2 == r2;
    }
  }

  /** Total cost of the files `ts`. */
  function TotalCost(report: seq<Entry>, ts: seq<string>): nat {
    if ts == [] then 0 else TotalCost(report, ts[..|ts| - 1]) + Cost(report, ts[|ts| - 1])
  }

  /** One `$fileName => $timesCat` entry of `$filesWithTime`. */
  datatype Costed = Costed(file: string, cost: nat)

  /** `$filesWithTime` before sorting: each file with its cost, in
      discovery order. */
  function FilesWithTime(report: seq<Entry>, files: seq<string>): (r: seq<Costed>)
    ensures |r| == |files|
    ensures forall i | 0 <= i < |files| :: r[i] == Costed(files[i], Cost(report, files[i]))
  {
    seq(|files|, i requires 0 <= i < |files| => Costed(files[i], Cost(report, files[i])))
  }

  /** Every entry carries its file's cost. */
  ghost predicate WellCosted(report: seq<Entry>, ps: seq<Costed>) {
    forall p | p in ps :: p.cost == Cost(report, p.file)
  }

  /** Costs never increase along `ps` (the order `arsort` produces). */
  ghost predicate NonIncreasing(ps: seq<Costed>) {
    forall i | 0 <= i < |ps| - 1 :: ps[i].cost >= ps[i + 1].cost
  }

  /** Inserts `p` after every leading entry costing at least as much. */
  function Insert(p: Costed, sorted: seq<Costed>): (r: seq<Costed>)
    ensures multiset(r) == multiset(sorted) + multiset{p}
    ensures r[0] == p || (sorted != [] && r[0] == sorted[0])
  {
    if sorted == [] then [p]
    else if sorted[0].cost >= p.cost then
      assert sorted == [sorted[0]] + sorted[1..];
      [sorted[0]] + Insert(p, sorted[1..])
    else [p] + sorted
  }

  /** Insertion keeps a non-increasing list non-increasing. */
  lemma {:induction false} InsertKeepsOrder(p: Costed, sorted: seq<Costed>)
    requires NonIncreasing(sorted)
    ensures NonIncreasing(Insert(p, sorted))
  {
    if sorted != [] && sorted[0].cost >= p.cost {
      var rest := sorted[1..];
      var tail := Insert(p, rest);
      InsertKeepsOrder(p, rest);
      var r := [sorted[0]] + tail;
      assert Insert(p, sorted) == r;
      assert sorted[0].cost >= tail[0].cost by {
        if rest != [] { assert rest[0] == sorted[1]; }
      }
      forall i | 0 <= i < |r| - 1 ensures r[i].cost >= r[i + 1].cost {
        if i > 0 { assert r[i] == tail[i - 1] && r[i + 1] == tail[i]; }
      }
    } else if sorted != [] {
      var r := [p] + sorted;
      assert Insert(p, sorted) == r;
      forall i | 0 <= i < |r| - 1 ensures r[i].cost >= r[i + 1].cost {
        if i > 0 { assert r[i] == sorted[i - 1] && r[i + 1] == sorted[i]; }
      }
    }
  }

  /** `arsort($filesWithTime)`: the entries by non-increasing cost. The
      order among equal costs is this model's (stable) choice. */
  function SortByCost(ps: seq<Costed>): (r: seq<Costed>)
    ensures NonIncreasing(r)
    ensures multiset(r) == multiset(ps)
  {
    if ps == [] then []
    else
      assert ps == ps[..|ps| - 1] + [ps[|ps| - 1]];
      InsertKeepsOrder(ps[|ps| - 1], SortByCost(ps[..|ps| - 1]));
      Insert(ps[|ps| - 1], SortByCost(ps[..|ps| - 1]))
  }

  /** getMinGroup from position `i` on, with `best` the index found so far. */
  function MinGroupFrom(gs: seq<Group>, i: nat, best: nat): (k: nat)
    requires best < |gs| && best <= i <= |gs|
    requires forall j | 0 <= j < i :: gs[best].sum <= gs[j].sum
    requires forall j | 0 <= j < best :: gs[j].sum > gs[best].sum
    ensures k < |gs|
    ensures forall j | 0 <= j < |gs| :: gs[k].sum <= gs[j].sum
    ensures forall j | 0 <= j < k :: gs[j].sum > gs[k].sum
    decreases |gs| - i
  {
    if i == |gs| then best
    else if gs[i].sum < gs[best].sum then MinGroupFrom(gs, i + 1, i)
    else MinGroupFrom(gs, i + 1, best)
  }

  /** getMinGroup: the lowest index whose sum is minimal. */
  function MinGroup(gs: seq<Group>): (k: nat)
    requires |gs| >= 1
    ensures k < |gs|
    ensures forall j | 0 <= j < |gs| :: gs[k].sum <= gs[j].sum
    ensures forall j | 0 <= j < k :: gs[j].sum > gs[k].sum
  {
    MinGroupFrom(gs, 0, 0)
  }

  /** Every group's sum is the cost of its files. */
  ghost predicate SumsMatch(report: seq<Entry>, gs: seq<Group>) {
    forall j | 0 <= j < |gs| :: gs[j].sum == TotalCost(report, gs[j].tests)
  }

  /** No two group sums differ by more than `bound`. */
  ghost predicate Balanced(gs: seq<Group>, bound: nat) {
    forall j, k | 0 <= j < |gs| && 0 <= k < |gs| :: gs[j].sum <= gs[k].sum + bound
  }

  /** All files of all groups. */
  function AllTests(gs: seq<Group>): multiset<string> {
    if gs == [] then multiset{} else AllTests(gs[..|gs| - 1]) + multiset(gs[|gs| - 1].tests)
  }

  lemma {:induction false} AllTestsAdd(gs: seq<Group>, i: nat, f: string, s: nat)
    requires i < |gs|
    ensures AllTests(gs[i := Group(gs[i].tests + [f], s)]) == AllTests(gs) + multiset{f}
    decreases |gs|
  {
    var gs' := gs[i := Group(gs[i].tests + [f], s)];
    if i == |gs| - 1 {
      assert gs'[..|gs'| - 1] == gs[..|gs| - 1];
    } else {
      AllTestsAdd(gs[..|gs| - 1], i, f, s);
      assert gs'[..|gs'| - 1] == gs[..|gs| - 1][i := Group(gs[i].tests + [f], s)];
    }
  }

  /** One iteration of the placement loop: `file` joins group getMinGroup,
      whose sum grows by the file's cost; every other group is unchanged. */
  function Place(gs: seq<Group>, p: Costed): (r: seq<Group>)
    requires |gs| >= 1
    ensures |r| == |gs|
    ensures var k := MinGroup(gs);
              r[k] == Group(gs[k].tests + [p.file], gs[k].sum + p.cost)
              && forall j | 0 <= j < |gs| && j != k :: r[j] == gs[j]
    ensures AllTests(r) == AllTests(gs) + multiset{p.file}
  {
    var k := MinGroup(gs);
    AllTestsAdd(gs, k, p.file, gs[k].sum + p.cost);
    gs[k := Group(gs[k].tests + [p.file], gs[k].sum + p.cost)]
  }

  /** Placing a file with its own cost keeps every sum equal to its files' cost. */
  lemma PlaceKeepsSums(report: seq<Entry>, gs: seq<Group>, p: Costed)
    requires |gs| >= 1 && SumsMatch(report, gs) && p.cost == Cost(report, p.file)
    ensures SumsMatch(report, Place(gs, p))
  {
    var k := MinGroup(gs);
    var r := Place(gs, p);
    forall j | 0 <= j < |r| ensures r[j].sum == TotalCost(report, r[j].tests) {
      if j == k {
        var t := r[k].tests;
        assert t == gs[k].tests + [p.file];
        assert t[..|t| - 1] == gs[k].tests;
        assert TotalCost(report, t) == TotalCost(report, gs[k].tests) + Cost(report, p.file);
      } else {
        assert r[j] == gs[j];
      }
    }
  }

  /** Placing a file of cost at most `bound` keeps the groups within
      `bound` of one another: it lands on a smallest group. */
  lemma PlaceKeepsBalanced(gs: seq<Group>, p: Costed, bound: nat)
    requires |gs| >= 1 && Balanced(gs, bound) && p.cost <= bound
    ensures Balanced(Place(gs, p), bound)
  {
    var k := MinGroup(gs);
    var r := Place(gs, p);
    forall j, l | 0 <= j < |r| && 0 <= l < |r| ensures r[j].sum <= r[l].sum + bound {
      assert gs[k].sum <= gs[l].sum && gs[k].sum <= gs[j].sum;
    }
  }

  /** The placement loop `foreach ($filesWithTime as $file => $time)`. */
  function PlaceAll(gs: seq<Group>, ps: seq<Costed>): (r: seq<Group>)
    requires |gs| >= 1
    ensures |r| == |gs|
    ensures AllTests(r) == AllTests(gs) + multiset(Files(ps))
    decreases |ps|
  {
    if ps == [] then gs
    else
      assert Files(ps) == [ps[0].file] + Files(ps[1..]);
      PlaceAll(Place(gs, ps[0]), ps[1..])
  }

  /** The file names of `ps`, in order. */
  function Files(ps: seq<Costed>): (r: seq<string>)
    ensures |r| == |ps|
  {
    if ps == [] then [] else [ps[0].file] + Files(ps[1..])
  }

  lemma {:induction false} PlaceAllKeepsSums(report: seq<Entry>, gs: seq<Group>, ps: seq<Costed>)
    requires |gs| >= 1 && SumsMatch(report, gs) && WellCosted(report, ps)
    ensures SumsMatch(report, PlaceAll(gs, ps))
    decreases |ps|
  {
    if ps != [] {
      assert ps[0] in ps;
      PlaceKeepsSums(report, gs, ps[0]);
      PlaceAllKeepsSums(report, Place(gs, ps[0]), ps[1..]);
    }
  }

  lemma {:induction false} PlaceAllKeepsBalanced(gs: seq<Group>, ps: seq<Costed>, bound: nat)
    requires |gs| >= 1 && Balanced(gs, bound)
    requires forall p | p in ps :: p.cost <= bound
    ensures Balanced(PlaceAll(gs, ps), bound)
    decreases |ps|
  {
    if ps != [] {
      PlaceKeepsBalanced(gs, ps[0], bound);
      PlaceAllKeepsBalanced(Place(gs, ps[0]), ps[1..], bound);
    }
  }

  /** `numGroups` empty groups with sum 0. */
  function EmptyGroups(numGroups: nat): (r: seq<Group>)
    ensures |r| == numGroups && forall j | 0 <= j < numGroups :: r[j] == Group([], 0)
  {
    seq(numGroups, _ => Group([], 0))
  }

  lemma EmptyGroupsFacts(report: seq<Entry>, numGroups: nat, bound: nat)
    ensures AllTests(EmptyGroups(numGroups)) == multiset{}
    ensures SumsMatch(report, EmptyGroups(numGroups)) && Balanced(EmptyGroups(numGroups), bound)
    decreases numGroups
  {
    if numGroups > 0 {
      EmptyGroupsFacts(report, numGroups - 1, bound);
      assert EmptyGroups(numGroups)[..numGroups - 1] == EmptyGroups(numGroups - 1);
    }
  }

  /** SplitTestsFilesByTimeTask::run without the file reads and writes: all
      `numGroups` groups, every file in exactly one of them, each group's sum
      the cost of its files. */
  function SplitByTime(report: seq<Entry>, files: seq<string>, numGroups: nat): (r: seq<Group>)
    requires numGroups >= 1
    ensures |r| == numGroups
    ensures AllTests(r) == multiset(files)
    ensures SumsMatch(report, r)
  {
    var sorted := SortByCost(FilesWithTime(report, files));
    SortedFiles(report, files);
    EmptyGroupsFacts(report, numGroups, 0);
    PlaceAllKeepsSums(report, EmptyGroups(numGroups), sorted);
    PlaceAll(EmptyGroups(numGroups), sorted)
  }

  /** Sorting the costed files keeps the files and their costs. */
  lemma SortedFiles(report: seq<Entry>, files: seq<string>)
    ensures multiset(Files(SortByCost(FilesWithTime(report, files)))) == multiset(files)
    ensures WellCosted(report, SortByCost(FilesWithTime(report, files)))
  {
    var costed := FilesWithTime(report, files);
    assert Files(costed) == files by { CostedFiles(report, files); }
    SortFiles(costed);
    CostedCosts(report, files);
  }

  lemma CostedFiles(report: seq<Entry>, files: seq<string>)
    ensures Files(FilesWithTime(report, files)) == files
  {
    var costed := FilesWithTime(report, files);
    forall i | 0 <= i < |files| ensures Files(costed)[i] == files[i] {
      FilesIndex(costed, i);
    }
  }

  lemma CostedCosts(report: seq<Entry>, files: seq<string>)
    ensures WellCosted(report, SortByCost(FilesWithTime(report, files)))
  {
    var costed := FilesWithTime(report, files);
    var sorted := SortByCost(costed);
    forall p | p in sorted ensures p.cost == Cost(report, p.file) {
      assert p in multiset(costed);
    }
  }

  lemma {:induction false} FilesIndex(ps: seq<Costed>, i: nat)
    requires i < |ps|
    ensures Files(ps)[i] == ps[i].file
  {
    if i > 0 {
      FilesIndex(ps[1..], i - 1);
    }
  }

  lemma {:induction false} FilesConcat(x: seq<Costed>, y: seq<Costed>)
    ensures Files(x + y) == Files(x) + Files(y)
  {
    if x != [] {
      assert (x + y)[1..] == x[1..] + y;
      FilesConcat(x[1..], y);
    } else {
      assert x + y == y;
    }
  }

  lemma {:induction false} InsertFiles(p: Costed, sorted: seq<Costed>)
    ensures multiset(Files(Insert(p, sorted))) == multiset(Files(sorted)) + multiset{p.file}
  {
    if sorted == [] {
      assert Files([p]) == [p.file];
    } else if sorted[0].cost >= p.cost {
      InsertFiles(p, sorted[1..]);
      InsertFilesStep(p, sorted);
    } else {
      assert Insert(p, sorted) == [p] + sorted;
      assert Files([p] + sorted) == [p.file] + Files(sorted);
    }
  }

  lemma InsertFilesStep(p: Costed, sorted: seq<Costed>)
    requires sorted != [] && sorted[0].cost >= p.cost
    requires multiset(Files(Insert(p, sorted[1..]))) == multiset(Files(sorted[1..])) + multiset{p.file}
    ensures multiset(Files(Insert(p, sorted))) == multiset(Files(sorted)) + multiset{p.file}
  {
    var head, rest := sorted[0], sorted[1..];
    var tail := Insert(p, rest);
    var fa, fb := Files(tail), Files(rest);
    assert Files(Insert(p, sorted)) == [head.file] + fa by {
      assert Insert(p, sorted) == [head] + tail;
      assert ([head] + tail)[1..] == tail;
    }
    assert Files(sorted) == [head.file] + fb;
    MultisetCons(head.file, fa, fb, p.file);
  }

  lemma MultisetCons(h: string, a: seq<string>, b: seq<string>, x: string)
    requires multiset(a) == multiset(b) + multiset{x}
    ensures multiset([h] + a) == multiset([h] + b) + multiset{x}
  {
  }

  /** Sorting permutes the file names. */
  lemma {:induction false} SortFiles(ps: seq<Costed>)
    ensures multiset(Files(SortByCost(ps))) == multiset(Files(ps))
  {
    if ps != [] {
      var init, last := ps[..|ps| - 1], ps[|ps| - 1];
      assert ps == init + [last];
      assert Files([last]) == [last.file];
      FilesConcat(init, [last]);
      assert multiset(Files(ps)) == multiset(Files(init)) + multiset{last.file};
      assert SortByCost(ps) == Insert(last, SortByCost(init));
      SortFiles(init);
      InsertFiles(last, SortByCost(init));
    }
  }

  /** Load balance: when no file costs more than `bound`, no group's sum
      exceeds another's by more than `bound`. */
  lemma SplitByTimeBalanced(report: seq<Entry>, files: seq<string>, numGroups: nat, bound: nat)
    requires numGroups >= 1
    requires forall f | f in files :: Cost(report, f) <= bound
    ensures forall j, k | 0 <= j < numGroups && 0 <= k < numGroups ::
              SplitByTime(report, files, numGroups)[j].sum <= SplitByTime(report, files, numGroups)[k].sum + bound
  {
    var costed := FilesWithTime(report, files);
    var sorted := SortByCost(costed);
    forall p | p in sorted ensures p.cost <= bound {
      assert p in multiset(costed);
      var i :| 0 <= i < |costed| && costed[i] == p;
      assert files[i] in files;
    }
    EmptyGroupsFacts(report, numGroups, bound);
    PlaceAllKeepsBalanced(EmptyGroups(numGroups), sorted, bound);
  }

  /** Why the time split cannot run. */
  datatype TimeError = NoTimeReport

  /** The Robo task's entry point: `report` is None when the time report file does
      not exist, which aborts the Robo task before any file is considered. */
  function RunByTime(report: Option<seq<Entry>>, files: seq<string>, numGroups: nat): (r: Result<seq<Group>, TimeError>)
    requires numGroups >= 1
    ensures r.Err? <==> report.None?
    ensures r.Err? ==> r.error == NoTimeReport
    ensures r.Ok? ==> |r.value| == numGroups && AllTests(r.value) == multiset(files)
    ensures r.Ok? ==> SumsMatch(report.value, r.value)
  {
    match report
    case None => Err(NoTimeReport)
    case Some(data) => Ok(SplitByTime(data, files, numGroups))
  }
}
