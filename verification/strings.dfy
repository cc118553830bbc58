/** The PHP string built-ins the splitter relies on (strpos, strrpos, trim,
    str_replace, explode, implode), on strings as sequences of characters. */
module Strings {
  import opened Results

  /** `needle` occurs in `hay` starting at position `i`. */
  predicate OccursAt(hay: string, needle: string, i: nat) {
    i + |needle| <= |hay| && hay[i..i + |needle|] == needle
  }

  /** `strpos($hay, $needle) !== false`, as a left-to-right scan: `needle`
      occurs at the start of `hay` or somewhere after its first character. */
  predicate Contains(hay: string, needle: string)
    decreases |hay|
  {
    OccursAt(hay, needle, 0) || (hay != [] && Contains(hay[1..], needle))
  }

  /** The scan finds `needle` exactly when it occurs at some position. */
  lemma {:induction false} ContainsIff(hay: string, needle: string)
    ensures Contains(hay, needle) <==> exists i | 0 <= i <= |hay| :: OccursAt(hay, needle, i)
    decreases |hay|
  {
    if hay != [] {
      ContainsIff(hay[1..], needle);
      if exists i | 0 <= i <= |hay| :: OccursAt(hay, needle, i) {
        var i :| 0 <= i <= |hay| && OccursAt(hay, needle, i);
        if i > 0 {
          assert hay[1..][i - 1..i - 1 + |needle|] == hay[i..i + |needle|];
          assert OccursAt(hay[1..], needle, i - 1);
        }
      }
      if Contains(hay[1..], needle) && !OccursAt(hay, needle, 0) {
        var i :| 0 <= i <= |hay[1..]| && OccursAt(hay[1..], needle, i);
        assert hay[1..][i..i + |needle|] == hay[i + 1..i + 1 + |needle|];
        assert OccursAt(hay, needle, i + 1);
      }
    }
  }

  /** `strrpos($s, $c)`: the last position holding `c`, if any. */
  function LastIndexOf(s: string, c: char): (r: Option<nat>)
    ensures r.None? <==> c !in s
    ensures r.Some? ==> r.value < |s| && s[r.value] == c && c !in s[r.value + 1..]
  {
    if s == [] then None
    else if s[|s| - 1] == c then Some(|s| - 1)
    else
      var r := LastIndexOf(s[..|s| - 1], c);
      assert r.Some? ==> s[r.value + 1..] == s[..|s| - 1][r.value + 1..] + [s[|s| - 1]];
      assert r.None? ==> s == s[..|s| - 1] + [s[|s| - 1]];
      r
  }

  /** `ltrim($s, $c)`: drops the leading run of `c`. */
  function TrimLeft(s: string, c: char): (r: string)
    ensures |r| <= |s| && r == s[|s| - |r|..]
    ensures r == [] || r[0] != c
    ensures forall i | 0 <= i < |s| - |r| :: s[i] == c
  {
    if s != [] && s[0] == c then
      var r := TrimLeft(s[1..], c);
      assert forall i | 1 <= i < |s| - |r| :: s[i] == s[1..][i - 1];
      r
    else s
  }

  /** `rtrim($s, $c)`: drops the trailing run of `c`. */
  function TrimRight(s: string, c: char): (r: string)
    ensures |r| <= |s| && r == s[..|r|]
    ensures r == [] || r[|r| - 1] != c
    ensures forall i | |r| <= i < |s| :: s[i] == c
  {
    if s != [] && s[|s| - 1] == c then
      var r := TrimRight(s[..|s| - 1], c);
      assert forall i | |r| <= i < |s| - 1 :: s[i] == s[..|s| - 1][i];
      r
    else s
  }

  /** `trim($s, $c)`: drops `c` from both ends. */
  function Trim(s: string, c: char): (r: string)
    ensures r == [] || (r[0] != c && r[|r| - 1] != c)
    ensures exists a, b | 0 <= a <= b <= |s| ::
              (r == s[a..b] && (forall i | 0 <= i < a :: s[i] == c) && (forall i | b <= i < |s| :: s[i] == c))
  {
    TrimBothEnds(s, c);
    TrimmedEnds(s, c);
    TrimRight(TrimLeft(s, c), c)
  }

  /** Trimming the left run and then the right run leaves a slice of `s`
      with only `c` outside it. */
  lemma TrimBothEnds(s: string, c: char)
    ensures exists a, b | 0 <= a <= b <= |s| ::
              (TrimRight(TrimLeft(s, c), c) == s[a..b]
               && (forall i | 0 <= i < a :: s[i] == c) && (forall i | b <= i < |s| :: s[i] == c))
  {
    var l := TrimLeft(s, c);
    var r := TrimRight(l, c);
    var a := |s| - |l|;
    var b := a + |r|;
    assert r == s[a..b] by { assert l == s[a..]; }
    assert forall i | 0 <= i < a :: s[i] == c;
    assert forall i | b <= i < |s| :: s[i] == c by {
      forall i | b <= i < |s| ensures s[i] == c {
        assert s[i] == l[i - a];
      }
    }
  }

  /** Neither end of the trimmed string is `c`. */
  lemma TrimmedEnds(s: string, c: char)
    ensures var r := TrimRight(TrimLeft(s, c), c); r == [] || (r[0] != c && r[|r| - 1] != c)
  {
    var l := TrimLeft(s, c);
    var r := TrimRight(l, c);
    if r != [] {
      assert r[0] == l[0];
    }
  }

  /** `str_replace('::', ':', $s)`: every non-overlapping `::`, scanned left to
      right, becomes a single `:`. */
  function CollapseDoubleColon(s: string): (r: string)
    ensures (':' in r) <==> (':' in s)
    ensures |r| <= |s|
    ensures !Contains(s, "::") ==> r == s
  {
    if |s| >= 2 && s[0] == ':' && s[1] == ':' then
      assert OccursAt(s, "::", 0) by { assert s[0..2] == "::"; }
      ":" + CollapseDoubleColon(s[2..])
    else if s == [] then []
    else [s[0]] + CollapseDoubleColon(s[1..])
  }

  /** Text before the first `::` is copied and that `::` becomes `:`. */
  lemma {:induction false} CollapseAfterPlain(a: string, b: string)
    requires ':' !in a
    ensures CollapseDoubleColon(a + "::" + b) == a + ":" + CollapseDoubleColon(b)
  {
    if a == [] {
      assert a + "::" + b == "::" + b;
      CollapseLeading(b);
    } else {
      assert a[0] != ':' by { assert a[0] in a; }
      SplitFirst(a, "::", b);
      CollapseKeepsFirst(a[0], a[1..] + "::" + b);
      CollapseAfterPlain(a[1..], b);
      SplitFirst(a, ":", CollapseDoubleColon(b));
    }
  }

  lemma SplitFirst(a: string, m: string, t: string)
    requires a != []
    ensures a + m + t == [a[0]] + (a[1..] + m + t)
  {
    assert a == [a[0]] + a[1..];
  }

  lemma CollapseLeading(b: string)
    ensures CollapseDoubleColon("::" + b) == ":" + CollapseDoubleColon(b)
  {
    assert ("::" + b)[2..] == b;
  }

  lemma CollapseKeepsFirst(x: char, rest: string)
    requires x != ':'
    ensures CollapseDoubleColon([x] + rest) == [x] + CollapseDoubleColon(rest)
  {
    assert ([x] + rest)[1..] == rest;
  }

  /** Index of the first `c` in `s`. */
  function FirstIndexOf(s: string, c: char): (r: Option<nat>)
    ensures r.None? <==> c !in s
    ensures r.Some? ==> r.value < |s| && s[r.value] == c && c !in s[..r.value]
  {
    if s == [] then None
    else if s[0] == c then Some(0)
    else match FirstIndexOf(s[1..], c)
      case None => None
      case Some(i) => Some(i + 1)
  }

  /** `explode($c, $s)`: the pieces between the separators; never empty, and
      the empty string gives one empty piece. */
  function Explode(s: string, c: char): (r: seq<string>)
    ensures |r| >= 1
    ensures forall p | p in r :: c !in p
    ensures (c in s) <==> |r| >= 2
    decreases |s|
  {
    match FirstIndexOf(s, c)
    case None => [s]
    case Some(i) => [s[..i]] + Explode(s[i + 1..], c)
  }

  /** `implode($c, $pieces)`. */
  function Join(pieces: seq<string>, c: char): (r: string)
    ensures pieces != [] ==> pieces[0] <= r
    ensures |pieces| == 1 ==> r == pieces[0]
    ensures |pieces| >= 2 ==> |pieces[0]| < |r| && r[|pieces[0]|] == c
    ensures (forall p | p in pieces :: c !in p) ==> (c in r <==> |pieces| >= 2)
  {
    if pieces == [] then []
    else if |pieces| == 1 then pieces[0]
    else pieces[0] + [c] + Join(pieces[1..], c)
  }

  /** Joining the exploded pieces gives the original string back. */
  lemma {:induction false} JoinExplode(s: string, c: char)
    ensures Join(Explode(s, c), c) == s
    decreases |s|
  {
    match FirstIndexOf(s, c)
    case None =>
    case Some(i) =>
      JoinExplode(s[i + 1..], c);
      assert s == s[..i] + [c] + s[i + 1..];
  }

  /** Exploding a join of separator-free pieces gives the pieces back. */
  lemma {:induction false} ExplodeJoin(pieces: seq<string>, c: char)
    requires |pieces| >= 1
    requires forall p | p in pieces :: c !in p
    ensures Explode(Join(pieces, c), c) == pieces
    decreases |pieces|
  {
    if |pieces| > 1 {
      var s := Join(pieces, c);
      var p := pieces[0];
      assert s == p + [c] + Join(pieces[1..], c);
      var fi := FirstIndexOf(s, c);
      assert fi == Some(|p|) by {
        assert s[|p|] == c;
        assert s[..|p|] == p;
        assert c in s;
        assert pieces[0] in pieces;
        assert forall k | 0 <= k < |p| :: s[k] == p[k] && s[k] != c;
        assert fi.value <= |p| by { assert s[..|p| + 1][|p|] == c; }
      }
      assert s[|p| + 1..] == Join(pieces[1..], c);
      assert s[..|p|] == p;
      ExplodeJoin(pieces[1..], c);
    }
  }

  /** A join of two or more pieces starts with the first two pieces and the
      separator between them, followed by the end or another separator. */
  lemma JoinFirstTwo(pieces: seq<string>, c: char)
    requires |pieces| >= 2
    ensures var r := Join(pieces, c); var n := |pieces[0]| + 1 + |pieces[1]|;
            pieces[0] + [c] + pieces[1] <= r && (|r| == n || r[n] == c)
  {
    var rest := Join(pieces[1..], c);
    assert Join(pieces, c) == pieces[0] + [c] + rest;
    assert pieces[1..][0] == pieces[1];
    if |pieces| == 2 {
      assert rest == pieces[1];
    } else {
      assert rest[|pieces[1]|] == c;
    }
  }
}
