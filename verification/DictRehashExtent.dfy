/** How far one call of `dictRehash` gets, and how it relinks a chain (src/dict.c:471-508). */
module DictRehashExtent {
  import opened DictState

  // ---------- The order in the new chains ----------

  /** The entries of `c` that belong in bucket `i`, in order. */
  function BoundFor(c: Chain, i: nat, size: nat, hash: HashFn): Chain
    requires size > 0
  {
    if c == [] then []
    else (if Index(hash(c[0].key), size) == i then [c[0]] else []) + BoundFor(c[1..], i, size, hash)
  }

  function Backward(c: Chain): Chain {
    if c == [] then [] else Backward(c[1..]) + [c[0]]
  }

  /** Relinking a chain puts its entries, last one first, in front of the chains they belong to. */
  lemma {:induction false} MoveChainOrder(c: Chain, t: Table, i: nat, hash: HashFn)
    requires i < |t.buckets|
    ensures MoveChain(c, t, hash).buckets[i] == Backward(BoundFor(c, i, |t.buckets|, hash)) + t.buckets[i]
    ensures MoveChain(c, t, hash).used == t.used + |c|
    decreases |c|
  {
    if c != [] {
      hide Index;
      MoveChainOrder(c[1..], Prepend(t, c[0], hash), i, hash);
      BackwardFirst(c, i, |t.buckets|, hash);
      var rest := Backward(BoundFor(c[1..], i, |t.buckets|, hash));
      assert rest + ([c[0]] + t.buckets[i]) == rest + [c[0]] + t.buckets[i];
    }
  }

  lemma BackwardFirst(c: Chain, i: nat, size: nat, hash: HashFn)
    requires c != [] && size > 0
    ensures Backward(BoundFor(c, i, size, hash))
         == Backward(BoundFor(c[1..], i, size, hash)) + (if Index(hash(c[0].key), size) == i then [c[0]] else [])
  {
    var rest := BoundFor(c[1..], i, size, hash);
    assert ([c[0]] + rest)[1..] == rest && [] + rest == rest;
  }

  // ---------- How many buckets a call takes ----------

  /** How many of the buckets from `i` up to `j` are in use, or are not. */
  function Count(b: seq<Chain>, i: nat, j: nat, used: bool): nat
    requires i <= j <= |b|
    decreases j - i
  {
    if i == j then 0 else Count(b, i + 1, j, used) + (if (b[i] != []) == used then 1 else 0)
  }

  lemma {:induction false} CountSplit(b: seq<Chain>, i: nat, m: nat, j: nat, used: bool)
    requires i <= m <= j <= |b|
    ensures Count(b, i, j, used) == Count(b, i, m, used) + Count(b, m, j, used)
    decreases m - i
  {
    if i < m { CountSplit(b, i + 1, m, j, used); }
  }

  lemma {:induction false} CountEmpty(b: seq<Chain>, i: nat, j: nat)
    requires i <= j <= |b| && forall x | i <= x < j :: b[x] == []
    ensures Count(b, i, j, true) == 0 && Count(b, i, j, false) == j - i
    decreases j - i
  {
    if i < j { CountEmpty(b, i + 1, j); }
  }

  lemma {:induction false} CountSame(b: seq<Chain>, b': seq<Chain>, i: nat, j: nat, used: bool)
    requires i <= j <= |b| == |b'| && forall x | i <= x < j :: b[x] == b'[x]
    ensures Count(b, i, j, used) == Count(b', i, j, used)
    decreases j - i
  {
    if i < j { CountSame(b, b', i + 1, j, used); }
  }

  /** Stopping before bucket `j`: `n` buckets have been moved, the last of them just now, or as
      many empty ones have been stepped over as may be. */
  predicate StopsAt(b: seq<Chain>, i: nat, j: nat, n: nat, visits: nat)
    requires i <= j <= |b|
  {
    var moved, empty := Count(b, i, j, true), Count(b, i, j, false);
    || (moved == n && empty <= visits && (j > i ==> b[j - 1] != []))
    || (empty == visits && moved < n && j > i && b[j - 1] == [])
  }

  /** All buckets in use are before `j`, and getting there takes no more than is allowed. */
  predicate EndsAt(b: seq<Chain>, i: nat, j: nat, n: nat, visits: nat)
    requires i <= j <= |b|
  {
    && (forall x | j <= x < |b| :: b[x] == [])
    && Count(b, i, j, true) <= n && (j > i ==> Count(b, i, j, false) < visits)
  }

  lemma {:induction false} SkipIs(b: seq<Chain>, i: nat, visits: nat)
    requires SomeFrom(b, i) && visits > 0
    ensures var (j, left) := SkipEmpty(b, i, visits); (forall x | i <= x < j :: b[x] == []) && j - i + left == visits
    decreases |b| - i
  {
    if b[i] == [] && visits > 1 {
      assert SomeFrom(b, i + 1);
      SkipIs(b, i + 1, visits - 1);
    }
  }

  lemma {:induction false} LoopExtent(s: State, n: nat, visits: nat, hash: HashFn) returns (j: nat)
    requires MidRehash(s, hash) && (n > 0 ==> visits > 0)
    ensures var r, b, i := RehashLoop(s, n, visits, hash), s.ht0.buckets, s.rehashidx;
            && i <= j <= |b|
            && (IsRehashing(r) ==> r.rehashidx == j && StopsAt(b, i, j, n, visits))
            && (!IsRehashing(r) ==> EndsAt(b, i, j, n, visits))
    decreases n
  {
    hide TableOk, KeysUnique, Entries, MoveChain, StopsAt, EndsAt;
    var b, i: nat := s.ht0.buckets, s.rehashidx;
    j := i;
    StopsHere(b, i, n, visits);
    if s.ht0.used == 0 {
      UnusedEmpty(s.ht0, hash);
    } else if n > 0 {
      SomeLeft(s, hash);
      var (m, left) := SkipEmpty(b, i, visits);
      SkipIs(b, i, visits);
      if left == 0 {
        j := m;
        StopsAfterEmpty(b, i, m, n);
      } else {
        MoveBucketOk(s, m, hash);
        var s' := MoveBucket(s, m, hash);
        j := LoopExtent(s', n - 1, left, hash);
        OneMoved(b, i, m, j, n, visits);
      }
    }
  }

  lemma StopsHere(b: seq<Chain>, i: nat, n: nat, visits: nat)
    requires i <= |b|
    ensures n == 0 ==> StopsAt(b, i, i, n, visits)
    ensures (forall x | i <= x < |b| :: b[x] == []) ==> EndsAt(b, i, i, n, visits)
  {
  }

  lemma StopsAfterEmpty(b: seq<Chain>, i: nat, m: nat, n: nat)
    requires i < m <= |b| && n > 0 && forall x | i <= x < m :: b[x] == []
    ensures StopsAt(b, i, m, n, m - i)
  {
    CountEmpty(b, i, m);
  }

  lemma UnusedEmpty(t: Table, hash: HashFn)
    requires TableOk(t, hash) && t.used == 0
    ensures forall x | 0 <= x < |t.buckets| :: t.buckets[x] == []
  {
    forall x | 0 <= x < |t.buckets| ensures t.buckets[x] == [] {
      if t.buckets[x] != [] { InBag(t.buckets, x, t.buckets[x][0]); }
    }
  }

  lemma OneMoved(b: seq<Chain>, i: nat, m: nat, j: nat, n: nat, visits: nat)
    requires i <= m < j <= |b| && n > 0 && visits > m - i
    requires b[m] != [] && forall x | i <= x < m :: b[x] == []
    ensures StopsAt(b[m := []], m + 1, j, n - 1, visits - (m - i)) ==> StopsAt(b, i, j, n, visits)
    ensures EndsAt(b[m := []], m + 1, j, n - 1, visits - (m - i)) ==> EndsAt(b, i, j, n, visits)
  {
    var b' := b[m := []];
    CountEmpty(b, i, m);
    CountSplit(b, i, m, j, true);
    CountSplit(b, i, m, j, false);
    CountSame(b, b', m + 1, j, true);
    CountSame(b, b', m + 1, j, false);
    assert forall x | m < x < |b| :: b'[x] == b[x];
  }

  /** Exactly how far a call of `dictRehash` gets: it stops when `n` buckets are moved or `10 n`
      empty ones stepped over, and ends the rehash when all buckets in use come before that. */
  lemma RehashExtent(s: State, n: nat, hash: HashFn) returns (j: nat)
    requires Valid(s, hash) && IsRehashing(s)
    ensures var r, b, i := Rehash(s, n, hash), s.ht0.buckets, s.rehashidx;
            && i <= j <= |b|
            && (IsRehashing(r) ==> r.rehashidx == j && StopsAt(b, i, j, n, 10 * n))
            && (!IsRehashing(r) ==> EndsAt(b, i, j, n, 10 * n))
  {
    j := LoopExtent(s, n, n * 10, hash);
  }
}
