/** Splitting at a separator and joining (src/sds.c:58-68, 293-331). */
module SdsSplit {
  import opened Bytes
  import opened Sequences
  import opened SdsBuffer
  import opened Wrappers

  /** The separator occurs at place `j`. */
  predicate OccursAt(s: seq<byte>, sep: seq<byte>, j: nat) {
    j + |sep| <= |s| && s[j..j + |sep|] == sep
  }

  ghost predicate Contains(s: seq<byte>, sep: seq<byte>) {
    exists j: nat :: OccursAt(s, sep, j)
  }

  /** The first occurrence from `j` on is at `i`. */
  predicate FirstFrom(s: seq<byte>, sep: seq<byte>, j: nat, i: nat) {
    j <= i && OccursAt(s, sep, i) && forall k | j <= k < i :: !OccursAt(s, sep, k)
  }

  /** The strings with the separator in between. */
  function Join(ts: seq<seq<byte>>, sep: seq<byte>): seq<byte> {
    if ts == [] then []
    else if |ts| == 1 then ts[0]
    else ts[0] + sep + Join(ts[1..], sep)
  }

  /** The tokens are the leftmost non-overlapping split of their join: no separator starts in a
      token, or across its end, before the one that follows it. */
  ghost predicate Leftmost(ts: seq<seq<byte>>, sep: seq<byte>) {
    && (forall i | 0 <= i < |ts| - 1 :: FirstFrom(ts[i] + sep, sep, 0, |ts[i]|))
    && (ts != [] ==> !Contains(ts[|ts| - 1], sep))
  }

  /** What the loop of `sdsSplitLen` still has to emit when the current token starts at
      `start` and the scan is at `j`. */
  function SplitFrom(s: seq<byte>, sep: seq<byte>, start: nat, j: nat): (ts: seq<seq<byte>>)
    requires sep != [] && start <= j && start <= |s|
    ensures ts != []
    decreases |s| - j
  {
    if j + |sep| > |s| then [s[start..]]
    else if OccursAt(s, sep, j) then [s[start..j]] + SplitFrom(s, sep, j + |sep|, j + |sep|)
    else SplitFrom(s, sep, start, j + 1)
  }

  /** `sdsSplitLen`: nothing for an empty separator, no tokens for an empty string. */
  function Split(s: seq<byte>, sep: seq<byte>): Option<seq<seq<byte>>> {
    if sep == [] then None
    else if s == [] then Some([])
    else Some(SplitFrom(s, sep, 0, 0))
  }

  // ---------- The tokens ----------

  lemma OccursInside(s: seq<byte>, sep: seq<byte>, start: nat, end: nat, k: nat)
    requires start <= end <= |s|
    ensures OccursAt(s[start..end], sep, k) <==> start + k + |sep| <= end && OccursAt(s, sep, start + k)
  {
    if start + k + |sep| <= end { SliceOf(s, start, end, k, k + |sep|); }
  }

  lemma SliceOf<T>(s: seq<T>, start: nat, end: nat, a: nat, b: nat)
    requires start <= end <= |s| && a <= b && start + b <= end
    ensures s[start..end][a..b] == s[start + a..start + b]
  {
    forall i | 0 <= i < b - a ensures s[start..end][a..b][i] == s[start + a..start + b][i] {
      assert s[start..end][a..b][i] == s[start + a + i];
    }
  }

  /** The tokens rebuild the rest of the string and are its leftmost split. */
  lemma {:induction false} SplitFromOk(s: seq<byte>, sep: seq<byte>, start: nat, j: nat)
    requires sep != [] && start <= j && start <= |s|
    requires forall k | start <= k < j :: !OccursAt(s, sep, k)
    ensures Join(SplitFrom(s, sep, start, j), sep) == s[start..]
    ensures Leftmost(SplitFrom(s, sep, start, j), sep)
    decreases |s| - j
  {
    hide OccursAt;
    if j + |sep| > |s| {
      OccursNowhere(s, sep, start, j);
    } else if OccursAt(s, sep, j) {
      OccursIs(s, sep, j);
      SplitFromOk(s, sep, j + |sep|, j + |sep|);
      var rest := SplitFrom(s, sep, j + |sep|, j + |sep|);
      assert s[start..] == s[start..j] + sep + s[j + |sep|..];
      TokenIsFirst(s, sep, start, j);
      LeftmostCons(s[start..j], rest, sep);
      assert ([s[start..j]] + rest)[1..] == rest;
    } else {
      SplitFromOk(s, sep, start, j + 1);
    }
  }

  lemma OccursIs(s: seq<byte>, sep: seq<byte>, j: nat)
    requires OccursAt(s, sep, j)
    ensures j + |sep| <= |s| && s[j..j + |sep|] == sep
  {
  }

  lemma OccursNowhere(s: seq<byte>, sep: seq<byte>, start: nat, j: nat)
    requires start <= |s| && forall k | start <= k < j :: !OccursAt(s, sep, k)
    requires j + |sep| > |s|
    ensures !Contains(s[start..], sep)
  {
    forall k: nat ensures !OccursAt(s[start..], sep, k) {
      OccursInside(s, sep, start, |s|, k);
      assert s[start..|s|] == s[start..];
    }
  }

  lemma TokenIsFirst(s: seq<byte>, sep: seq<byte>, start: nat, j: nat)
    requires start <= j && OccursAt(s, sep, j) && forall k | start <= k < j :: !OccursAt(s, sep, k)
    ensures FirstFrom(s[start..j] + sep, sep, 0, |s[start..j]|)
  {
    var t := s[start..j + |sep|];
    assert t == s[start..j] + sep;
    OccursInside(s, sep, start, j + |sep|, j - start);
    forall k | 0 <= k < j - start ensures !OccursAt(t, sep, k) {
      OccursInside(s, sep, start, j + |sep|, k);
    }
  }

  lemma LeftmostCons(t: seq<byte>, ts: seq<seq<byte>>, sep: seq<byte>)
    requires ts != [] && Leftmost(ts, sep) && FirstFrom(t + sep, sep, 0, |t|)
    ensures Leftmost([t] + ts, sep)
  {
    hide FirstFrom, Contains;
    var r := [t] + ts;
    forall i | 0 <= i < |r| - 1 ensures FirstFrom(r[i] + sep, sep, 0, |r[i]|) {
      assert i > 0 ==> r[i] == ts[i - 1];
    }
  }

  /** No token contains the separator. */
  lemma NoTokenContains(ts: seq<seq<byte>>, sep: seq<byte>, i: nat)
    requires Leftmost(ts, sep) && i < |ts| && sep != []
    ensures !Contains(ts[i], sep)
  {
    if i < |ts| - 1 {
      var t := ts[i] + sep;
      forall k: nat ensures !OccursAt(ts[i], sep, k) {
        OccursInside(t, sep, 0, |ts[i]|, k);
        assert t[0..|ts[i]|] == ts[i];
      }
    }
  }

  /** There is only one leftmost split. */
  lemma {:induction false} LeftmostUnique(ts: seq<seq<byte>>, us: seq<seq<byte>>, sep: seq<byte>)
    requires ts != [] && us != [] && sep != []
    requires Leftmost(ts, sep) && Leftmost(us, sep) && Join(ts, sep) == Join(us, sep)
    ensures ts == us
  {
    hide OccursAt, FirstFrom, Contains;
    FirstIn(ts, sep);
    FirstIn(us, sep);
    SameFirst(ts, us, sep);
    if |ts| > 1 {
      CutFront(ts[0], us[0], sep, Join(ts[1..], sep), Join(us[1..], sep));
      LeftmostTail(ts, sep);
      LeftmostTail(us, sep);
      LeftmostUnique(ts[1..], us[1..], sep);
      assert ts == [ts[0]] + ts[1..] && us == [us[0]] + us[1..];
    }
  }

  lemma LeftmostTail(ts: seq<seq<byte>>, sep: seq<byte>)
    requires Leftmost(ts, sep) && |ts| > 1
    ensures Leftmost(ts[1..], sep)
  {
    hide FirstFrom, Contains;
  }

  lemma CutFront<T>(a: seq<T>, b: seq<T>, sep: seq<T>, x: seq<T>, y: seq<T>)
    requires |a| == |b| && a + sep + x == b + sep + y
    ensures a == b && x == y
  {
    assert (a + sep + x)[..|a|] == a && (b + sep + y)[..|b|] == b;
    assert (a + sep + x)[|a| + |sep|..] == x && (b + sep + y)[|b| + |sep|..] == y;
  }

  /** The first separator of the join follows the first token, and there is none when that is
      the only token. */
  lemma FirstIn(ts: seq<seq<byte>>, sep: seq<byte>)
    requires ts != [] && Leftmost(ts, sep) && sep != []
    ensures |ts| > 1 ==> FirstFrom(Join(ts, sep), sep, 0, |ts[0]|)
    ensures |ts| == 1 ==> !Contains(Join(ts, sep), sep) && Join(ts, sep) == ts[0]
  {
    if |ts| > 1 {
      var s, t := Join(ts, sep), ts[0] + sep;
      assert s == t + Join(ts[1..], sep) && s[0..|t|] == t;
      forall k | 0 <= k <= |ts[0]| ensures OccursAt(s, sep, k) <==> OccursAt(t, sep, k) {
        OccursInside(s, sep, 0, |t|, k);
      }
    }
  }

  lemma SameFirst(ts: seq<seq<byte>>, us: seq<seq<byte>>, sep: seq<byte>)
    requires ts != [] && us != [] && Join(ts, sep) == Join(us, sep)
    requires |ts| > 1 ==> FirstFrom(Join(ts, sep), sep, 0, |ts[0]|)
    requires |us| > 1 ==> FirstFrom(Join(us, sep), sep, 0, |us[0]|)
    requires |ts| == 1 ==> !Contains(Join(ts, sep), sep) && Join(ts, sep) == ts[0]
    requires |us| == 1 ==> !Contains(Join(us, sep), sep) && Join(us, sep) == us[0]
    ensures |ts| == 1 <==> |us| == 1
    ensures |ts| == 1 ==> ts == us
    ensures |ts[0]| == |us[0]|
  {
    hide OccursAt;
  }

  // ---------- Joining C strings ----------

  /** What `strlen` sees of a string. */
  function CString(s: seq<byte>): (r: seq<byte>)
    ensures r <= s && 0 !in r && (0 !in s ==> r == s) && (|r| < |s| ==> s[|r|] == 0)
  {
    if s == [] || s[0] == 0 then [] else [s[0]] + CString(s[1..])
  }

  /** What `sdsJoin` builds. */
  function JoinC(ts: seq<seq<byte>>, sep: seq<byte>): seq<byte> {
    if ts == [] then []
    else if |ts| == 1 then CString(ts[0])
    else CString(ts[0]) + CString(sep) + JoinC(ts[1..], sep)
  }

  /** Joining is putting the separator between what is joined, one string on its own being that
      string up to its first NUL. */
  lemma {:induction false} JoinCBetween(a: seq<seq<byte>>, b: seq<seq<byte>>, sep: seq<byte>)
    requires a != [] && b != []
    ensures JoinC(a + b, sep) == JoinC(a, sep) + CString(sep) + JoinC(b, sep)
    ensures |b| == 1 ==> JoinC(b, sep) == CString(b[0])
    decreases |a|
  {
    hide CString;
    assert (a + b)[1..] == a[1..] + b;
    if |a| == 1 {
      assert a[1..] + b == b;
    } else {
      JoinCBetween(a[1..], b, sep);
      GroupBetween(CString(a[0]), CString(sep), JoinC(a[1..], sep), CString(sep), JoinC(b, sep));
    }
  }

  lemma GroupBetween<T>(a: seq<T>, b: seq<T>, c: seq<T>, d: seq<T>, e: seq<T>)
    ensures a + b + (c + d + e) == a + b + c + d + e
  {
  }

  lemma {:induction false} JoinCIsJoin(ts: seq<seq<byte>>, sep: seq<byte>)
    requires 0 !in Join(ts, sep)
    ensures JoinC(ts, sep) == Join(ts, sep)
  {
    if |ts| == 1 {
      assert CString(ts[0]) == ts[0];
    } else if |ts| > 1 {
      var s := Join(ts, sep);
      assert s == ts[0] + sep + Join(ts[1..], sep);
      NoneInParts(ts[0], sep, Join(ts[1..], sep), 0);
      JoinCIsJoin(ts[1..], sep);
    }
  }

  lemma NoneInParts<T>(a: seq<T>, b: seq<T>, c: seq<T>, x: T)
    requires x !in a + b + c
    ensures x !in a && x !in b && x !in c
  {
    forall y | y in a || y in b || y in c ensures y in a + b + c {
      if y in a { assert y in a + b; }
      if y in b { assert y in a + b; }
    }
  }

  /** Splitting at a separator and joining with it rebuilds a text without NULs. The tokens
      are the leftmost split, and none contains the separator. */
  lemma SplitJoin(s: seq<byte>, sep: seq<byte>)
    requires sep != []
    ensures Split(s, sep).Some?
    ensures var ts := Split(s, sep).value;
            && Join(ts, sep) == s && Leftmost(ts, sep)
            && (0 !in s ==> JoinC(ts, sep) == s)
            && forall i | 0 <= i < |ts| :: !Contains(ts[i], sep)
  {
    hide OccursAt, SplitFrom, Contains;
    var ts := Split(s, sep).value;
    if s != [] {
      SplitFromOk(s, sep, 0, 0);
      assert s[0..] == s;
    }
    if 0 !in s { JoinCIsJoin(ts, sep); }
    forall i | 0 <= i < |ts| ensures !Contains(ts[i], sep) {
      NoTokenContains(ts, sep, i);
    }
  }

  // ---------- The loops ----------

  lemma SplitFromEnd(s: seq<byte>, sep: seq<byte>, start: nat, j: nat)
    requires sep != [] && start <= j && start <= |s| && j + |sep| > |s|
    ensures SplitFrom(s, sep, start, j) == [s[start..]]
  {
  }

  lemma SplitFromStep(s: seq<byte>, sep: seq<byte>, start: nat, j: nat)
    requires sep != [] && start <= j && start <= |s| && j + |sep| <= |s|
    ensures SplitFrom(s, sep, start, j) ==
              if OccursAt(s, sep, j) then [s[start..j]] + SplitFrom(s, sep, j + |sep|, j + |sep|)
              else SplitFrom(s, sep, start, j + 1)
  {
  }

  /** `sdsSplitLen`. At src/sds.c:306 the loop is meant to start at 0, and at src/sds.c:316 the
      bytes are meant to be compared. */
  method SplitLen(s: seq<byte>, sep: seq<byte>) returns (tokens: Option<seq<seq<byte>>>)
    ensures tokens == Split(s, sep)
  {
    hide SplitFrom;
    if |sep| < 1 { return None; }
    if |s| == 0 { return Some([]); }
    var elements: seq<seq<byte>> := [];
    var start: nat, j: nat := 0, 0;
    while j < |s| - (|sep| - 1)
      invariant start <= j && start <= |s|
      invariant SplitFrom(s, sep, 0, 0) == elements + SplitFrom(s, sep, start, j)
      decreases |s| - j
    {
      SplitFromStep(s, sep, start, j);
      if (|sep| == 1 && s[j] == sep[0]) || s[j..j + |sep|] == sep {
        ElementLeft(elements, s[start..j], SplitFrom(s, sep, j + |sep|, j + |sep|));
        elements := elements + [s[start..j]];
        start := j + |sep|;
        j := j + |sep| - 1;
      }
      j := j + 1;
    }
    SplitFromEnd(s, sep, start, j);
    tokens := Some(elements + [s[start..]]);
  }

  /** The sizes of what a join appends. */
  function JoinSizes(ts: seq<seq<byte>>, sep: seq<byte>): seq<nat> {
    if ts == [] then []
    else [|CString(ts[0])|] + (if |ts| == 1 then [] else [|CString(sep)|]) + JoinSizes(ts[1..], sep)
  }

  lemma {:induction false} JoinFrom(ts: seq<seq<byte>>, sep: seq<byte>, j: nat)
    requires j < |ts|
    ensures JoinC(ts[j..], sep) == CString(ts[j]) + (if j == |ts| - 1 then [] else CString(sep) + JoinC(ts[j + 1..], sep))
    ensures JoinSizes(ts[j..], sep)
         == [|CString(ts[j])|] + (if j == |ts| - 1 then [] else [|CString(sep)|]) + JoinSizes(ts[j + 1..], sep)
  {
    assert ts[j..][0] == ts[j] && ts[j..][1..] == ts[j + 1..];
  }

  lemma JoinEnd(ts: seq<seq<byte>>, sep: seq<byte>)
    ensures JoinC(ts[|ts|..], sep) == []
  {
    assert ts[|ts|..] == [];
  }

  lemma TwoFit(len: nat, free: nat, n: nat, m: seq<nat>, rest: seq<nat>)
    requires AppendsFit(len, free, [n] + m + rest) && |m| <= 1
    ensures var (len1, free1) := (len + n, FreeAfter(len, free, n));
            && AppendFits(len, free, n)
            && (m == [] ==> AppendsFit(len1, free1, rest))
            && (m != [] ==> AppendFits(len1, free1, m[0]) && AppendsFit(len1 + m[0], FreeAfter(len1, free1, m[0]), rest))
  {
    assert ([n] + m + rest)[1..] == m + rest;
    if m != [] { assert (m + rest)[1..] == rest; } else { assert m + rest == rest; }
  }

  /** `sdsJoin`. */
  method JoinAll(argv: seq<seq<byte>>, sep: seq<byte>) returns (join: Sds)
    requires AppendsFit(0, 0, JoinSizes(argv, sep))
    ensures join.Valid() && fresh(join) && join.Contents() == JoinC(argv, sep)
  {
    hide JoinC, JoinSizes, AppendFits, FreeAfter;
    join := new Sds([]);
    assert argv[0..] == argv;
    JoinEnd(argv, sep);
    for j := 0 to |argv|
      invariant fresh(join) && fresh(join.buf) && join.Valid()
      invariant AppendsFit(join.len, join.free, JoinSizes(argv[j..], sep))
      invariant join.Contents() + JoinC(argv[j..], sep) == JoinC(argv, sep)
    {
      ghost var before := join.Contents();
      JoinFrom(argv, sep, j);
      ghost var rest := JoinSizes(argv[j + 1..], sep);
      TwoFit(join.len, join.free, |CString(argv[j])|, if j == |argv| - 1 then [] else [|CString(sep)|], rest);
      join.CatLen(CString(argv[j]));
      if j != |argv| - 1 { join.CatLen(CString(sep)); }
      GroupLeft(before, CString(argv[j]), CString(sep), JoinC(argv[j + 1..], sep));
      if j == |argv| - 1 { assert argv[j + 1..] == argv[|argv|..]; }
    }
  }
}
