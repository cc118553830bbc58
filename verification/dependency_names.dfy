/** Canonicalisation of declared dependencies to full test names
    (TestsSplitter::resolveDependenciesToFullNames). */
module DependencyNames {
  import opened Results
  import Seqs
  import opened Strings
  import opened TestInventory

  /** The declaring test's file part: its name up to the last ':', with ':'
      trimmed from both ends; empty when the name has no ':'. */
  function Scope(testName: string): (r: string)
    ensures r == [] || (r[0] != ':' && r[|r| - 1] != ':')
    ensures ':' !in testName ==> r == []
    ensures ':' in testName ==>
              exists p, a, b | 0 <= a <= b <= p < |testName| ::
                && testName[p] == ':' && ':' !in testName[p + 1..]
                && r == testName[a..b]
                && (forall i | 0 <= i < a :: testName[i] == ':')
                && (forall i | b <= i < p :: testName[i] == ':')
  {
    match LastIndexOf(testName, ':')
    case None => ""
    case Some(p) =>
      ScopeSlice(testName, p);
      Trim(testName[..p], ':')
  }

  /** Trimming the text before the last ':' keeps a slice of the name and
      drops only ':' around it. */
  lemma ScopeSlice(testName: string, p: nat)
    requires p < |testName|
    ensures exists a, b | 0 <= a <= b <= p ::
              && Trim(testName[..p], ':') == testName[a..b]
              && (forall i | 0 <= i < a :: testName[i] == ':')
              && (forall i | b <= i < p :: testName[i] == ':')
  {
    var a, b := TrimBounds(testName, p);
  }

  lemma TrimBounds(testName: string, p: nat) returns (a: nat, b: nat)
    requires p < |testName|
    ensures a <= b <= p && Trim(testName[..p], ':') == testName[a..b]
    ensures forall i | 0 <= i < a :: testName[i] == ':'
    ensures forall i | b <= i < p :: testName[i] == ':'
  {
    a, b := TrimWitness(testName[..p], ':');
    PrefixAgrees(testName, p, a, b, ':');
  }

  lemma TrimWitness(s: string, c: char) returns (a: nat, b: nat)
    ensures a <= b <= |s| && Trim(s, c) == s[a..b]
    ensures forall i | 0 <= i < a :: s[i] == c
    ensures forall i | b <= i < |s| :: s[i] == c
  {
    a, b :| 0 <= a <= b <= |s| && Trim(s, c) == s[a..b]
           && (forall i | 0 <= i < a :: s[i] == c) && (forall i | b <= i < |s| :: s[i] == c);
  }

  /** What holds of a prefix's characters holds of the whole name's. */
  lemma PrefixAgrees(t: string, p: nat, a: nat, b: nat, c: char)
    requires a <= b <= p <= |t|
    requires forall i | 0 <= i < a :: t[..p][i] == c
    requires forall i | b <= i < p :: t[..p][i] == c
    ensures t[..p][a..b] == t[a..b]
    ensures forall i | 0 <= i < a :: t[i] == c
    ensures forall i | b <= i < p :: t[i] == c
  {
    forall i | 0 <= i < a ensures t[i] == c {
      assert t[..p][i] == t[i];
    }
    forall i | b <= i < p ensures t[i] == c {
      assert t[..p][i] == t[i];
    }
  }

  /** The file and method of a qualified reference after `::` became `:`:
      the first two pieces of the reference split on ':'. They are the text
      up to the first ':' and the text from there up to the end or the next
      ':'. */
  function Target(dep: string): (r: (string, string))
    requires ':' in dep
    ensures ':' !in r.0 && ':' !in r.1
    ensures var s := CollapseDoubleColon(dep); var n := |r.0| + 1 + |r.1|;
            r.0 + ":" + r.1 <= s && (|s| == n || s[n] == ':')
  {
    var parts := Explode(CollapseDoubleColon(dep), ':');
    assert parts[0] in parts && parts[1] in parts;
    JoinExplode(CollapseDoubleColon(dep), ':');
    JoinFirstTwo(parts, ':');
    (parts[0], parts[1])
  }

  /** The text a key must contain to be the target of a qualified reference. */
  function Needle(dep: string): string
    requires ':' in dep
  {
    Target(dep).0 + ".php:" + Target(dep).1
  }

  /** Both spellings of a reference to method `m` of file `f` look for
      `f.php:m`. */
  lemma NeedleOfReference(f: string, m: string)
    requires ':' !in f && ':' !in m
    ensures ':' in f + "::" + m && ':' in f + ":" + m
    ensures Needle(f + "::" + m) == f + ".php:" + m
    ensures Needle(f + ":" + m) == f + ".php:" + m
  {
    var single := f + ":" + m;
    assert single[|f|] == ':' && (f + "::" + m)[|f|] == ':';
    assert Join([f, m], ':') == single by {
      assert [f, m][1..] == [m];
    }
    ExplodeJoin([f, m], ':');
    NoDoubleColon(f, m);
    CollapseAfterPlain(f, m);
    forall i | 0 <= i < |m| - 1 ensures !(m[i] == ':' && m[i + 1] == ':') {
      assert m[i] in m;
    }
    NoAdjacentColons(m);
  }

  /** `f:m` has no two adjacent ':' when neither part holds a ':'. */
  lemma NoDoubleColon(f: string, m: string)
    requires ':' !in f && ':' !in m
    ensures !Contains(f + ":" + m, "::")
  {
    var s := f + ":" + m;
    forall i | 0 <= i < |s| - 1 ensures !(s[i] == ':' && s[i + 1] == ':') {
      if i < |f| {
        assert s[i] == f[i] && f[i] in f;
      } else if i == |f| {
        assert s[i + 1] == m[0] && m[0] in m;
      } else {
        assert s[i] == m[i - |f| - 1] && m[i - |f| - 1] in m;
      }
    }
    NoAdjacentColons(s);
  }

  /** Text with no two adjacent ':' does not contain `::`. */
  lemma NoAdjacentColons(s: string)
    requires forall i | 0 <= i < |s| - 1 :: !(s[i] == ':' && s[i + 1] == ':')
    ensures !Contains(s, "::")
  {
    ContainsIff(s, "::");
    forall i | 0 <= i <= |s| ensures !OccursAt(s, "::", i) {
      if i + 2 <= |s| {
        assert s[i..i + 2][0] == s[i] && s[i..i + 2][1] == s[i + 1];
      }
    }
  }

  /** Position of the first key containing `needle`. */
  function FirstMatch(keys: seq<string>, needle: string): (r: Option<nat>)
    ensures r.Some? ==> r.value < |keys| && Contains(keys[r.value], needle)
    ensures r.Some? ==> forall j | 0 <= j < r.value :: !Contains(keys[j], needle)
    ensures r.None? <==> forall k | k in keys :: !Contains(k, needle)
  {
    if keys == [] then None
    else if Contains(keys[0], needle) then Some(0)
    else match FirstMatch(keys[1..], needle)
      case None => None
      case Some(i) => Some(i + 1)
  }

  /** One dependency of `testName` rewritten to a full test name. */
  function CanonicalDependency(keys: seq<string>, testName: string, dep: string): (r: Result<string, SplitError>)
    ensures ':' !in dep ==> r == Ok(Scope(testName) + ":" + dep)
    ensures ':' in dep && r.Ok? ==> r.value in keys
    ensures r.Err? ==> ':' in dep && r.error == UnresolvedDependency(testName, CollapseDoubleColon(dep))
  {
    if ':' !in dep then Ok(Scope(testName) + ":" + dep)
    else match FirstMatch(keys, Needle(dep))
      case None => Err(UnresolvedDependency(testName, CollapseDoubleColon(dep)))
      case Some(i) => Ok(keys[i])
  }

  /** A qualified reference resolves exactly when some key contains
      `<file>.php:<method>`, and then to the first such key in key order. */
  lemma QualifiedLookup(keys: seq<string>, testName: string, dep: string)
    requires ':' in dep
    ensures CanonicalDependency(keys, testName, dep).Ok? <==> exists k | k in keys :: Contains(k, Needle(dep))
    ensures CanonicalDependency(keys, testName, dep).Ok? ==>
              exists i | 0 <= i < |keys| ::
                keys[i] == CanonicalDependency(keys, testName, dep).value && Contains(keys[i], Needle(dep))
                && forall j | 0 <= j < i :: !Contains(keys[j], Needle(dep))
  {
  }

  /** The dependency list of one test, rewritten entry by entry; the first
      unresolvable entry aborts. */
  function CanonicalDependencies(keys: seq<string>, testName: string, deps: seq<string>): (r: Result<seq<string>, SplitError>)
    ensures r.Ok? ==> |r.value| == |deps|
    ensures r.Ok? ==> forall i | 0 <= i < |deps| :: CanonicalDependency(keys, testName, deps[i]) == Ok(r.value[i])
    ensures r.Err? <==> exists i | 0 <= i < |deps| :: CanonicalDependency(keys, testName, deps[i]).Err?
    ensures r.Err? ==> exists i | 0 <= i < |deps| ::
              CanonicalDependency(keys, testName, deps[i]) == Err(r.error)
              && forall j | 0 <= j < i :: CanonicalDependency(keys, testName, deps[j]).Ok?
  {
    var rs := seq(|deps|, i requires 0 <= i < |deps| => CanonicalDependency(keys, testName, deps[i]));
    FirstFailingDependency(keys, testName, deps, rs);
    AllOk(rs)
  }

  lemma FirstFailingDependency(keys: seq<string>, testName: string, deps: seq<string>, rs: seq<Result<string, SplitError>>)
    requires |rs| == |deps| && forall i | 0 <= i < |deps| :: rs[i] == CanonicalDependency(keys, testName, deps[i])
    ensures AllOk(rs).Err? ==> exists i | 0 <= i < |deps| ::
              CanonicalDependency(keys, testName, deps[i]) == Err(AllOk(rs).error)
              && forall j | 0 <= j < i :: CanonicalDependency(keys, testName, deps[j]).Ok?
  {
    if AllOk(rs).Err? {
      var i :| 0 <= i < |rs| && rs[i] == Err(AllOk(rs).error) && forall j | 0 <= j < i :: rs[j].Ok?;
      assert CanonicalDependency(keys, testName, deps[i]) == Err(AllOk(rs).error);
    }
  }

  /** The outcome of canonicalising each test's list, in key order. */
  function ListResults(inv: Inventory): (rs: seq<Result<seq<string>, SplitError>>)
    requires inv.Valid()
    ensures |rs| == |inv.names|
    ensures forall k | 0 <= k < |inv.names| ::
              rs[k] == CanonicalDependencies(inv.names, inv.names[k], inv.deps[inv.names[k]])
  {
    seq(|inv.names|, k requires 0 <= k < |inv.names| =>
      CanonicalDependencies(inv.names, inv.names[k], inv.deps[inv.names[k]]))
  }

  /** The outer loop over `names[i..]`: the map from each name to its
      rewritten list, or the first failing list's error. */
  function CollectFrom(names: seq<string>, lists: seq<Result<seq<string>, SplitError>>, i: nat)
    : (r: Result<map<string, seq<string>>, SplitError>)
    requires |lists| == |names| && i <= |names|
    ensures r.Ok? ==> forall n :: n in r.value <==> n in names[i..]
    decreases |names| - i
  {
    if i == |names| then Ok(map[])
    else
      assert names[i..] == [names[i]] + names[i + 1..];
      if lists[i].Err? then Err(lists[i].error)
      else
        var rest := CollectFrom(names, lists, i + 1);
        if rest.Err? then Err(rest.error)
        else Ok(rest.value[names[i] := lists[i].value])
  }

  /** On success each name in `names[i..]` maps to its own rewritten list. */
  lemma {:induction false} CollectFromOk(names: seq<string>, lists: seq<Result<seq<string>, SplitError>>, i: nat)
    requires |lists| == |names| && i <= |names| && Seqs.NoDup(names)
    requires CollectFrom(names, lists, i).Ok?
    ensures forall k | i <= k < |names| :: lists[k] == Ok(CollectFrom(names, lists, i).value[names[k]])
    decreases |names| - i
  {
    if i < |names| {
      CollectFromOk(names, lists, i + 1);
      var rest := CollectFrom(names, lists, i + 1).value;
      assert CollectFrom(names, lists, i).value == rest[names[i] := lists[i].value];
      CollectStep(names, lists, i, rest);
    }
  }

  /** Adding the entry for `names[i]` keeps the later names' entries. */
  lemma CollectStep(names: seq<string>, lists: seq<Result<seq<string>, SplitError>>, i: nat,
                    rest: map<string, seq<string>>)
    requires |lists| == |names| && i < |names| && Seqs.NoDup(names) && lists[i].Ok?
    requires forall k | i < k < |names| :: names[k] in rest && lists[k] == Ok(rest[names[k]])
    ensures forall k | i <= k < |names| :: lists[k] == Ok(rest[names[i] := lists[i].value][names[k]])
  {
    forall k | i < k < |names| ensures names[k] != names[i] {
    }
  }

  /** The loop over `names[i..]` fails exactly when some list fails. */
  lemma {:induction false} CollectFromErr(names: seq<string>, lists: seq<Result<seq<string>, SplitError>>, i: nat)
    requires |lists| == |names| && i <= |names|
    ensures CollectFrom(names, lists, i).Err? <==> exists k | i <= k < |names| :: lists[k].Err?
    decreases |names| - i
  {
    if i < |names| && lists[i].Ok? {
      CollectFromErr(names, lists, i + 1);
    }
  }

  /** A failing loop over `names[i..]` reports the first failing list's error. */
  lemma {:induction false} CollectFromFirstErr(names: seq<string>, lists: seq<Result<seq<string>, SplitError>>, i: nat)
    returns (k: nat)
    requires |lists| == |names| && i <= |names|
    requires CollectFrom(names, lists, i).Err?
    ensures i <= k < |names| && lists[k] == Err(CollectFrom(names, lists, i).error)
    ensures forall j | i <= j < k :: lists[j].Ok?
    decreases |names| - i
  {
    if lists[i].Err? {
      k := i;
    } else {
      k := CollectFromFirstErr(names, lists, i + 1);
    }
  }

  /** resolveDependenciesToFullNames: the same tests in the same order, every
      dependency rewritten to a full name, or the error of the first
      unresolvable one, in key order and then list order. */
  function Canonicalize(inv: Inventory): (r: Result<Inventory, SplitError>)
    requires inv.Valid()
    ensures r.Ok? ==> r.value.Valid() && r.value.names == inv.names
    ensures r.Ok? ==> forall n | n in inv.deps :: |r.value.deps[n]| == |inv.deps[n]|
    ensures r.Ok? ==> forall n, i | n in inv.deps && 0 <= i < |inv.deps[n]| ::
              CanonicalDependency(inv.names, n, inv.deps[n][i]) == Ok(r.value.deps[n][i])
    ensures r.Err? <==> exists n, d | n in inv.deps && d in inv.deps[n] ::
              CanonicalDependency(inv.names, n, d).Err?
    ensures r.Err? ==> r.error.UnresolvedDependency?
  {
    CollectFails(inv);
    match CollectFrom(inv.names, ListResults(inv), 0)
    case Err(e) =>
      assert e.UnresolvedDependency? by { FirstFailingList(inv); }
      Err(e)
    case Ok(m) =>
      CanonicalizeOk(inv, m);
      Ok(Inventory(inv.names, m))
  }

  /** The error reported is that of the first failing test in key order,
      and within its list (`CanonicalDependencies`) the first failing entry. */
  lemma CanonicalizeFirstError(inv: Inventory)
    requires inv.Valid() && Canonicalize(inv).Err?
    ensures exists k | 0 <= k < |inv.names| ::
              CanonicalDependencies(inv.names, inv.names[k], inv.deps[inv.names[k]]) == Err(Canonicalize(inv).error)
              && forall j | 0 <= j < k :: CanonicalDependencies(inv.names, inv.names[j], inv.deps[inv.names[j]]).Ok?
  {
    FirstFailingList(inv);
  }

  /** The loop over all names fails exactly when some dependency fails. */
  lemma CollectFails(inv: Inventory)
    requires inv.Valid()
    ensures CollectFrom(inv.names, ListResults(inv), 0).Err? <==>
            exists n, d | n in inv.deps && d in inv.deps[n] :: CanonicalDependency(inv.names, n, d).Err?
  {
    CollectFromErr(inv.names, ListResults(inv), 0);
    CanonicalizeFails(inv);
  }

  /** A successful loop yields an inventory over the same names whose lists
      are the rewritten ones. */
  lemma CanonicalizeOk(inv: Inventory, m: map<string, seq<string>>)
    requires inv.Valid() && CollectFrom(inv.names, ListResults(inv), 0) == Ok(m)
    ensures Inventory(inv.names, m).Valid()
    ensures forall n | n in inv.deps :: n in m && |m[n]| == |inv.deps[n]|
    ensures forall n, i | n in inv.deps && 0 <= i < |inv.deps[n]| ::
              CanonicalDependency(inv.names, n, inv.deps[n][i]) == Ok(m[n][i])
  {
    var lists := ListResults(inv);
    assert inv.names[0..] == inv.names;
    CollectFromOk(inv.names, lists, 0);
    forall n | n in inv.deps
      ensures n in m && CanonicalDependencies(inv.names, n, inv.deps[n]) == Ok(m[n])
    {
      var k := Seqs.IndexOf(inv.names, n);
      assert lists[k] == Ok(m[n]);
    }
  }

  /** A failing canonicalisation carries the first failing list's error. */
  lemma FirstFailingList(inv: Inventory)
    requires inv.Valid()
    requires CollectFrom(inv.names, ListResults(inv), 0).Err?
    ensures exists k | 0 <= k < |inv.names| ::
              CanonicalDependencies(inv.names, inv.names[k], inv.deps[inv.names[k]])
                == Err(CollectFrom(inv.names, ListResults(inv), 0).error)
              && forall j | 0 <= j < k :: CanonicalDependencies(inv.names, inv.names[j], inv.deps[inv.names[j]]).Ok?
  {
    var lists := ListResults(inv);
    var k := CollectFromFirstErr(inv.names, lists, 0);
    forall j | 0 <= j < k
      ensures CanonicalDependencies(inv.names, inv.names[j], inv.deps[inv.names[j]]).Ok?
    {
      assert lists[j].Ok?;
    }
    assert CanonicalDependencies(inv.names, inv.names[k], inv.deps[inv.names[k]]) == lists[k];
  }

  /** Some list fails exactly when some single dependency fails. */
  lemma CanonicalizeFails(inv: Inventory)
    requires inv.Valid()
    ensures (exists k | 0 <= k < |inv.names| :: ListResults(inv)[k].Err?) <==>
            (exists n, d | n in inv.deps && d in inv.deps[n] :: CanonicalDependency(inv.names, n, d).Err?)
  {
    if exists n, d | n in inv.deps && d in inv.deps[n] :: CanonicalDependency(inv.names, n, d).Err? {
      var n, d :| n in inv.deps && d in inv.deps[n] && CanonicalDependency(inv.names, n, d).Err?;
      var k := Seqs.IndexOf(inv.names, n);
      var i := Seqs.IndexOf(inv.deps[n], d);
      DependencyFailsList(inv, k, i);
    }
    if exists k | 0 <= k < |inv.names| :: ListResults(inv)[k].Err? {
      var k :| 0 <= k < |inv.names| && ListResults(inv)[k].Err?;
      ListFailsAtDependency(inv, k);
    }
  }

  /** One unresolvable entry makes its whole list fail. */
  lemma DependencyFailsList(inv: Inventory, k: nat, i: nat)
    requires inv.Valid() && k < |inv.names| && i < |inv.deps[inv.names[k]]|
    requires CanonicalDependency(inv.names, inv.names[k], inv.deps[inv.names[k]][i]).Err?
    ensures ListResults(inv)[k].Err?
  {
  }

  /** A failing list has an unresolvable entry. */
  lemma ListFailsAtDependency(inv: Inventory, k: nat)
    requires inv.Valid() && k < |inv.names| && ListResults(inv)[k].Err?
    ensures exists n, d | n in inv.deps && d in inv.deps[n] :: CanonicalDependency(inv.names, n, d).Err?
  {
    var n := inv.names[k];
    var i :| 0 <= i < |inv.deps[n]| && CanonicalDependency(inv.names, n, inv.deps[n][i]).Err?;
    assert inv.deps[n][i] in inv.deps[n];
  }

  /** The lookup is a plain substring test: `A::t` resolves to the first
      key containing `A.php:t`, here test `tx` of `BA.php`, listed before
      `A.php:t` itself. */
  lemma SubstringLookup()
    ensures CanonicalDependency(["BA.php:tx", "A.php:t"], "C.php:c", "A::t") == Ok("BA.php:tx")
  {
    var key := "BA.php:tx";
    assert Needle("A::t") == "A.php:t" by { ExampleNeedle(); }
    assert Contains(key, "A.php:t") by { ExampleContains(); }
    assert FirstMatch([key, "A.php:t"], "A.php:t") == Some(0);
  }

  /** `A.php:t` occurs in `BA.php:tx` one character in. */
  lemma ExampleContains()
    ensures Contains("BA.php:tx", "A.php:t")
  {
    var key := "BA.php:tx";
    assert key[1..][..7] == "A.php:t";
    assert OccursAt(key[1..], "A.php:t", 0);
  }

  /** `A::t` is looked up as `A.php:t`. */
  lemma ExampleNeedle()
    ensures Needle("A::t") == "A.php:t"
  {
    assert CollapseDoubleColon("A::t") == "A:t" by { ExampleCollapse(); }
    assert Explode("A:t", ':') == ["A", "t"] by { ExampleExplode(); }
    assert Target("A::t") == ("A", "t");
  }

  /** `A:t` splits into `A` and `t`. */
  lemma ExampleExplode()
    ensures Explode("A:t", ':') == ["A", "t"]
  {
    assert Join(["A", "t"], ':') == "A:t";
    ExplodeJoin(["A", "t"], ':');
  }

  /** `A::t` becomes `A:t`. */
  lemma ExampleCollapse()
    ensures CollapseDoubleColon("A::t") == "A:t"
  {
    var dep := "A::t";
    assert CollapseDoubleColon(dep[3..]) == "t";
    assert CollapseDoubleColon(dep[1..]) == ":" + CollapseDoubleColon(dep[3..]);
    assert CollapseDoubleColon(dep) == [dep[0]] + CollapseDoubleColon(dep[1..]);
  }
}
