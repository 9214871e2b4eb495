/** An explicit `dictRehash` under an open safe iterator (src/dict.c:471-508). It does not look
    at `iterators`, so it moves entries that the iterator has passed or has still to reach. */
module DictRehashIter {
  import opened DictState
  import opened DictOps
  import opened DictIter

  // ---------- Where a rehash puts the entries ----------

  predicate EndOf(c: Chain, c': Chain) {
    |c| <= |c'| && c'[|c'| - |c|..] == c
  }

  /** Every chain of `t` is the end of the chain at its place in `t'`. */
  ghost predicate Behind(t: Table, t': Table) {
    |t'.buckets| == |t.buckets| && forall i | 0 <= i < |t.buckets| :: EndOf(t.buckets[i], t'.buckets[i])
  }

  lemma BehindTwice(t: Table, u: Table, v: Table)
    requires Behind(t, u) && Behind(u, v)
    ensures Behind(t, v)
  {
    forall i | 0 <= i < |t.buckets| ensures EndOf(t.buckets[i], v.buckets[i]) {
      var a, b, c := t.buckets[i], u.buckets[i], v.buckets[i];
      assert EndOf(a, b) && EndOf(b, c);
      assert c[|c| - |a|..] == c[|c| - |b|..][|b| - |a|..];
    }
  }

  lemma {:induction false} MovedBehind(c: Chain, t: Table, hash: HashFn)
    requires |t.buckets| > 0
    ensures Behind(t, MoveChain(c, t, hash))
    decreases |c|
  {
    if c != [] {
      var t' := Prepend(t, c[0], hash);
      MovedBehind(c[1..], t', hash);
      BehindTwice(t, t', MoveChain(c, t, hash));
    }
  }

  /** `s` rehashed to `r`: what is not moved stays in its bucket of the old table, and what is
      moved is put in front of the chains of the new one. */
  ghost predicate Moved(s: State, r: State) {
    if IsRehashing(r) then
      && |r.ht0.buckets| == |s.ht0.buckets| && s.rehashidx <= r.rehashidx
      && (forall j: nat | r.rehashidx <= j < |s.ht0.buckets| :: r.ht0.buckets[j] == s.ht0.buckets[j])
      && Behind(s.ht1, r.ht1)
    else
      Behind(s.ht1, r.ht0)
  }

  lemma {:induction false} LoopMoves(s: State, n: nat, visits: nat, hash: HashFn)
    requires MidRehash(s, hash) && (n > 0 ==> visits > 0)
    ensures Moved(s, RehashLoop(s, n, visits, hash))
    decreases n
  {
    hide TableOk, KeysUnique, Entries, Behind;
    BehindSelf(s.ht1);
    if n > 0 && s.ht0.used != 0 {
      SomeLeft(s, hash);
      var (i, left) := SkipEmpty(s.ht0.buckets, s.rehashidx, visits);
      if left > 0 {
        MoveBucketOk(s, i, hash);
        var s' := MoveBucket(s, i, hash);
        LoopMoves(s', n - 1, left, hash);
        MovedBehind(s.ht0.buckets[i], s.ht1, hash);
        var r := RehashLoop(s', n - 1, left, hash);
        BehindTwice(s.ht1, s'.ht1, if IsRehashing(r) then r.ht1 else r.ht0);
      }
    }
  }

  lemma BehindSelf(t: Table)
    ensures Behind(t, t)
  {
  }

  lemma RehashMoves(s: State, n: nat, hash: HashFn)
    requires Valid(s, hash) && IsRehashing(s)
    ensures var r := Rehash(s, n, hash);
            && Moved(s, r) && Valid(r, hash) && Contents(r, hash) == Contents(s, hash) && r.iterators == s.iterators
  {
    hide TableOk, KeysUnique, Entries, Moved, RehashLoop, MapOf;
    LoopMoves(s, n, n * 10, hash);
    RehashKeeps(s, n, hash);
    ContentsOfEntries(s, Rehash(s, n, hash), hash);
  }

  // ---------- Which keys are due after it ----------

  /** An iterator that stands where it stood: the rehash has not moved the bucket of a saved
      next entry, and has not dropped the table or the place the iterator is at. */
  predicate StaysPut(s: State, r: State, it: Iter) {
    if IsRehashing(r) then it.table == 1 || it.nextEntry.None? || r.rehashidx <= it.index
    else it.table == 0 && it.nextEntry.None? && it.index < |s.ht1.buckets|
  }

  /** The rehash, still under way at `r`, has moved `k` ahead of the iterator. */
  ghost predicate MovedAhead(s: State, r: State, it: Iter, k: Key, hash: HashFn) {
    && Holds(s, 0, k, hash) && Home(s, 0, k, hash) < r.rehashidx
    && (it.table == 0 || (|s.ht1.buckets| > 0 && Index(hash(k), |s.ht1.buckets|) > it.index))
  }

  /** In the new table alone, `k` is ahead of an iterator of the old one. */
  ghost predicate AheadInNew(s: State, it: Iter, k: Key, hash: HashFn) {
    |s.ht1.buckets| > 0 && Index(hash(k), |s.ht1.buckets|) > it.index
  }

  lemma NewHolds(s: State, r: State, k: Key, hash: HashFn)
    requires Valid(s, hash) && IsRehashing(s) && Moved(s, r) && Valid(r, hash) && Contents(r, hash) == Contents(s, hash)
    ensures IsRehashing(r) ==>
              && (Holds(r, 0, k, hash) <==> Holds(s, 0, k, hash) && Home(s, 0, k, hash) >= r.rehashidx)
              && (Holds(r, 1, k, hash) <==> Holds(s, 1, k, hash) || (Holds(s, 0, k, hash) && Home(s, 0, k, hash) < r.rehashidx))
    ensures !IsRehashing(r) ==> !Holds(r, 1, k, hash) && (Holds(r, 0, k, hash) <==> k in Contents(s, hash))
  {
    hide TableOk, KeysUnique, Entries, MapOf, Behind;
    HoldsIsLive(s, k, hash);
    HoldsIsLive(r, k, hash);
  }

  /** An old entry of the new table keeps its place from the end of its chain; a moved one is
      before all of them. */
  lemma NewPlace(s: State, r: State, k: Key, n: Key, hash: HashFn)
    requires Valid(s, hash) && IsRehashing(s) && IsRehashing(r) && Moved(s, r) && Valid(r, hash)
    requires Holds(s, 1, n, hash) && Holds(r, 1, k, hash) && Home(s, 1, k, hash) == Home(s, 1, n, hash)
    ensures var c, c' := ChainOf(s.ht1, n, hash), ChainOf(r.ht1, n, hash);
            Position(c', k) >= Position(c', n) <==> Holds(s, 1, k, hash) && Position(c, k) >= Position(c, n)
  {
    hide TableOk, KeysUnique, Entries, MapOf, Position, RehashOk;
    var i := Home(s, 1, n, hash);
    var c, c' := s.ht1.buckets[i], r.ht1.buckets[i];
    assert EndOf(c, c') && c == ChainOf(s.ht1, n, hash) && c' == ChainOf(r.ht1, n, hash);
    OldPlace(r, i, c, n, hash);
    if Holds(s, 1, k, hash) {
      OldPlace(r, i, c, k, hash);
    } else {
      InFront(c, c', k);
    }
  }

  lemma OldPlace(r: State, i: nat, c: Chain, k: Key, hash: HashFn)
    requires Valid(r, hash) && i < |r.ht1.buckets| && EndOf(c, r.ht1.buckets[i]) && InChain(c, k)
    ensures Position(r.ht1.buckets[i], k) == |r.ht1.buckets[i]| - |c| + Position(c, k)
  {
    hide TableOk, KeysUnique, Entries, MapOf, RehashOk;
    var c' := r.ht1.buckets[i];
    var p := |c'| - |c| + Position(c, k);
    assert c'[p] == c[Position(c, k)];
    PlaceIsPosition(r, 1, i, p, hash);
  }

  lemma InFront(c: Chain, c': Chain, k: Key)
    requires EndOf(c, c') && InChain(c', k) && !InChain(c, k)
    ensures Position(c', k) < |c'| - |c|
  {
    hide Position;
    forall p | |c'| - |c| <= p < |c'| ensures c'[p].key != k {
      assert c'[p] == c[p - (|c'| - |c|)];
      KeyInChain(c, p - (|c'| - |c|));
    }
  }

  lemma KeyInChain(c: Chain, p: nat)
    requires p < |c|
    ensures InChain(c, c[p].key)
  {
  }

  /** While the rehash is still under way, just the keys moved ahead become due. */
  lemma StillRehashingDue(s: State, n: nat, it: Iter, k: Key, hash: HashFn)
    requires Valid(s, hash) && IterOk(s, it, hash) && it.index >= 0 && IsRehashing(s)
    requires var r := Rehash(s, n, hash); IsRehashing(r) && StaysPut(s, r, it)
    ensures var r := Rehash(s, n, hash);
            Due(r, it, k, hash) <==> Due(s, it, k, hash) || MovedAhead(s, r, it, k, hash)
  {
    hide TableOk, KeysUnique, Entries, MapOf, Behind, Position, Rehash, RehashOk;
    var r := Rehash(s, n, hash);
    RehashMoves(s, n, hash);
    NewHolds(s, r, k, hash);
    HoldsIsLive(s, k, hash);
    assert |r.ht1.buckets| == |s.ht1.buckets| by { SameSize(s, r); }
    if it.table == 1 && it.nextEntry.Some? && Holds(r, 1, k, hash) && Home(s, 1, k, hash) == it.index {
      NewPlace(s, r, k, it.nextEntry.value, hash);
    }
  }

  lemma SameSize(s: State, r: State)
    requires Moved(s, r)
    ensures |(if IsRehashing(r) then r.ht1 else r.ht0).buckets| == |s.ht1.buckets|
  {
  }

  /** When the rehash is over, the keys ahead in the new table are due. */
  lemma FinishedDue(s: State, n: nat, it: Iter, k: Key, hash: HashFn)
    requires Valid(s, hash) && it.index >= 0 && IsRehashing(s)
    requires var r := Rehash(s, n, hash); !IsRehashing(r) && StaysPut(s, r, it)
    ensures var r := Rehash(s, n, hash);
            Due(r, it, k, hash) <==> k in Contents(s, hash) && AheadInNew(s, it, k, hash)
  {
    hide TableOk, KeysUnique, Entries, MapOf, Behind, Position, Rehash;
    var r := Rehash(s, n, hash);
    RehashMoves(s, n, hash);
    NewHolds(s, r, k, hash);
    SameSize(s, r);
  }

  lemma StaysOk(s: State, n: nat, it: Iter, hash: HashFn)
    requires Valid(s, hash) && IterOk(s, it, hash) && it.index >= 0 && IsRehashing(s)
    requires StaysPut(s, Rehash(s, n, hash), it)
    ensures IterOk(Rehash(s, n, hash), it, hash)
  {
    hide TableOk, KeysUnique, Entries, MapOf, Behind, Position, Rehash, RehashOk;
    var r := Rehash(s, n, hash);
    RehashMoves(s, n, hash);
    SameSize(s, r);
    if it.nextEntry.Some? { NewHolds(s, r, it.nextEntry.value, hash); }
  }
}
