/** Exactly what one call of `dictScan` passes to its callback (src/dict.c:120-162), and how
    often. */
module DictScanExact {
  import opened Words
  import opened Cursor
  import opened DictState
  import opened DictOps
  import opened DictScan
  import opened DictScanLimit

  // ---------- One bucket ----------

  lemma {:induction false} BucketInBag(b: seq<Chain>, i: nat)
    requires i < |b|
    ensures multiset(b[i]) <= Bag(b)
  {
    if i > 0 { BucketInBag(b[1..], i - 1); }
  }

  /** No entry is in the bag of a table twice. */
  ghost predicate Single(t: Table) {
    forall e :: Bag(t.buckets)[e] <= 1
  }

  /** A bucket holds just the entries of the table that agree with its number in the low bits,
      each of them once. */
  lemma BucketCount(t: Table, v: word, e: Entry, hash: HashFn)
    requires TableOk(t, hash) && FitsWord(t) && Single(t)
    ensures |t.buckets| > 0
    ensures multiset(BucketAt(t, v))[e]
         == if e in Bag(t.buckets) && Low(hash(e.key), Exponent(t)) == Low(v, Exponent(t)) then 1 else 0
  {
    hide Low, Bag, Exponent, IsTableSize;
    SizeIs(t);
    var size, h: word := |t.buckets|, hash(e.key);
    var i := And(v, size - 1);
    BucketInBag(t.buckets, i);
    AndMask(v, Exponent(t));
    AndMask(h, Exponent(t));
    if e in t.buckets[i] {
      assert Homed(t.buckets[i], i, size, hash);
      assert e in multiset(t.buckets[i]);
    } else if e in Bag(t.buckets) {
      InHomeBucket(t, e, hash);
    }
  }

  // ---------- The loop over the larger table ----------

  /** The low bits of the larger table are those of the smaller one and the ones between. */
  lemma LowIsLowAndMid(h: word, v: word, k0: nat, k1: nat)
    requires k0 <= k1 <= WORD_BITS
    ensures Low(h, k1) == Low(v, k1) <==> Low(h, k0) == Low(v, k0) && Mid(h, k0, k1) == Mid(v, k0, k1)
  {
    hide *;
    LowOfLow(h, k0, k1);
    LowOfLow(v, k0, k1);
    if Low(h, k1) == Low(v, k1) { SameMid(h, v, k0, k1); }
    LowCompose(h, k0, k1);
    LowCompose(v, k0, k1);
  }

  /** The loop emits just the entries of its table in the cursor's small bucket whose middle
      bits are not below the cursor's, each of them once. */
  lemma {:induction false} LoopCount(t: Table, v: word, k0: nat, k1: nat, e: Entry, hash: HashFn)
    requires k0 <= k1 <= WORD_BITS && |t.buckets| == Pow2(k1) && TableOk(t, hash) && Single(t)
    ensures |t.buckets| > 0
    ensures multiset(LoopEmits(t, v, k0, k1))[e]
         == if e in Bag(t.buckets) && Low(hash(e.key), k0) == Low(v, k0) && Mid(hash(e.key), k0, k1) >= Mid(v, k0, k1)
            then 1 else 0
    decreases Pow2(k1 - k0) - Mid(v, k0, k1)
  {
    hide StepHigh, Low, Mid, Mask, And, Xor, Pow2, TableOk, Single, Bag, BucketAt;
    var v', h: word := StepHigh(v, Mask(k0)), hash(e.key);
    LoopTurn(v, k0, k1);
    LoopStops(v, k0, k1);
    Log2Pow2(k1);
    BucketCount(t, v, e, hash);
    LowIsLowAndMid(h, v, k0, k1);
    if And(v', Xor(Mask(k0), Mask(k1))) != 0 { LoopCount(t, v', k0, k1, e, hash); }
  }

  // ---------- One call ----------

  /** The call with cursor `v` comes to the entry: it is in the cursor's bucket of the guiding
      table, and if it is in the larger of two tables, its bits between the sizes are not below
      the cursor's. */
  ghost predicate Reached(s: State, v: word, e: Entry, hash: HashFn)
    requires Scannable(s, hash)
  {
    && Low(hash(e.key), Exponent(Guide(s))) == Low(v, Exponent(Guide(s)))
    && (IsRehashing(s) && e !in Bag(Smaller(s).buckets) ==>
          (SmallerFirst(s, hash);
           Mid(hash(e.key), Exponent(Smaller(s)), Exponent(Larger(s))) >= Mid(v, Exponent(Smaller(s)), Exponent(Larger(s)))))
  }

  lemma TablesSingle(s: State, hash: HashFn)
    requires Valid(s, hash)
    ensures Single(s.ht0) && Single(s.ht1)
    ensures forall e :: Entries(s)[e] == (if e in Entries(s) then 1 else 0) == Bag(s.ht0.buckets)[e] + Bag(s.ht1.buckets)[e]
  {
    hide Bag, TableOk, RehashOk;
    forall e
      ensures Entries(s)[e] == (if e in Entries(s) then 1 else 0) == Bag(s.ht0.buckets)[e] + Bag(s.ht1.buckets)[e]
    {
      assert e.key == e.key;
    }
  }

  /** A call emits each entry that it comes to once, and nothing else. */
  lemma EmitsExactly(s: State, v: word, e: Entry, hash: HashFn)
    requires Scannable(s, hash)
    ensures multiset(Emits(s, v, hash))[e] == if e in Entries(s) && Reached(s, v, e, hash) then 1 else 0
  {
    TablesSingle(s, hash);
    if s.ht0.used + s.ht1.used == 0 {
      assert |Entries(s)| == 0;
    } else if IsRehashing(s) {
      EmitsInRehash(s, v, e, hash);
    } else {
      assert s.ht1.buckets == [];
      BucketCount(s.ht0, v, e, hash);
    }
  }

  lemma EmitsInRehash(s: State, v: word, e: Entry, hash: HashFn)
    requires Scannable(s, hash) && IsRehashing(s) && s.ht0.used + s.ht1.used > 0
    ensures multiset(Emits(s, v, hash))[e] == if e in Entries(s) && Reached(s, v, e, hash) then 1 else 0
  {
    hide Low, Mid, LoopEmits, Exponent, Bag, TableOk, KeysUnique, RehashOk, Single, BucketAt;
    TablesSingle(s, hash);
    SmallerFirst(s, hash);
    SizeIs(Smaller(s));
    SizeIs(Larger(s));
    BucketCount(Smaller(s), v, e, hash);
    LoopCount(Larger(s), v, Exponent(Smaller(s)), Exponent(Larger(s)), e, hash);
  }

  /** No entry is emitted twice in one call, and no entry of another bucket is emitted. */
  lemma EmitsOnce(s: State, v: word, hash: HashFn)
    requires Scannable(s, hash)
    ensures multiset(Emits(s, v, hash)) <= Entries(s)
    ensures forall e | e in Emits(s, v, hash) :: Low(hash(e.key), Exponent(Guide(s))) == Low(v, Exponent(Guide(s)))
  {
    hide Emits, Low, Exponent, Valid, FitsWord, Reached;
    forall e ensures multiset(Emits(s, v, hash))[e] <= Entries(s)[e]
             ensures e in Emits(s, v, hash) ==> Low(hash(e.key), Exponent(Guide(s))) == Low(v, Exponent(Guide(s)))
    {
      EmitsExactly(s, v, e, hash);
      if e in Emits(s, v, hash) { ReachedLow(s, v, e, hash); }
    }
  }

  lemma ReachedLow(s: State, v: word, e: Entry, hash: HashFn)
    requires Scannable(s, hash) && Reached(s, v, e, hash)
    ensures Low(hash(e.key), Exponent(Guide(s))) == Low(v, Exponent(Guide(s)))
  {
  }

  /** The bits between the sizes go up along what is emitted. */
  ghost predicate MidsRise(es: seq<Entry>, k0: nat, k1: nat, hash: HashFn)
    requires k0 <= k1
  {
    forall i, j | 0 <= i < j < |es| :: Mid(hash(es[i].key), k0, k1) <= Mid(hash(es[j].key), k0, k1)
  }

  lemma BucketMid(t: Table, v: word, k0: nat, k1: nat, hash: HashFn)
    requires k0 <= k1 <= WORD_BITS && |t.buckets| == Pow2(k1) && TableOk(t, hash)
    ensures |t.buckets| > 0
    ensures forall e | e in BucketAt(t, v) :: Mid(hash(e.key), k0, k1) == Mid(v, k0, k1)
  {
    hide Low, Mid, Pow2, Bag, IsTableSize;
    var i := And(v, |t.buckets| - 1);
    assert Homed(t.buckets[i], i, |t.buckets|, hash);
    forall e | e in BucketAt(t, v) ensures Mid(hash(e.key), k0, k1) == Mid(v, k0, k1) {
      var h: word := hash(e.key);
      AndMask(v, k1);
      AndMask(h, k1);
      LowIsLowAndMid(h, v, k0, k1);
    }
  }

  lemma {:induction false} LoopInOrder(t: Table, v: word, k0: nat, k1: nat, hash: HashFn)
    requires k0 <= k1 <= WORD_BITS && |t.buckets| == Pow2(k1) && TableOk(t, hash)
    ensures |t.buckets| > 0 && MidsRise(LoopEmits(t, v, k0, k1), k0, k1, hash)
    ensures forall e | e in LoopEmits(t, v, k0, k1) :: Mid(v, k0, k1) <= Mid(hash(e.key), k0, k1)
    decreases Pow2(k1 - k0) - Mid(v, k0, k1)
  {
    hide StepHigh, Low, Mid, Mask, And, Xor, Pow2, TableOk, BucketAt;
    var v' := StepHigh(v, Mask(k0));
    LoopTurn(v, k0, k1);
    LoopStops(v, k0, k1);
    BucketMid(t, v, k0, k1, hash);
    if And(v', Xor(Mask(k0), Mask(k1))) != 0 { LoopInOrder(t, v', k0, k1, hash); }
  }

  /** While a rehash is running, a call emits the entries of the smaller table first, and then
      those of the larger one in the order of their bits between the sizes. */
  lemma EmitsInOrder(s: State, v: word, hash: HashFn) returns (m: nat)
    requires Scannable(s, hash) && IsRehashing(s)
    ensures var es := Emits(s, v, hash);
            && m <= |es|
            && (forall i | 0 <= i < m :: es[i] in Bag(Smaller(s).buckets))
            && (forall i | m <= i < |es| :: es[i] in Bag(Larger(s).buckets))
            && (SmallerFirst(s, hash); MidsRise(es[m..], Exponent(Smaller(s)), Exponent(Larger(s)), hash))
  {
    hide Low, Mid, LoopEmits, Exponent, Bag, TableOk, KeysUnique, RehashOk, And;
    SmallerFirst(s, hash);
    SizeIs(Smaller(s));
    SizeIs(Larger(s));
    var es := Emits(s, v, hash);
    m := 0;
    if es != [] {
      var first := BucketAt(Smaller(s), v);
      var k0, k1 := Exponent(Smaller(s)), Exponent(Larger(s));
      m := |first|;
      assert es[m..] == LoopEmits(Larger(s), v, k0, k1);
      forall i | 0 <= i < m ensures es[i] in Bag(Smaller(s).buckets) {
        InBag(Smaller(s).buckets, And(v, |Smaller(s).buckets| - 1), first[i]);
      }
      forall i | m <= i < |es| ensures es[i] in Bag(Larger(s).buckets) {
        assert es[i] == es[m..][i - m];
        LoopEmitsOnly(Larger(s), v, k0, k1, es[i]);
      }
      LoopInOrder(Larger(s), v, k0, k1, hash);
    }
  }

  /** An empty dictionary gives nothing and ends the scan; any other one ends it only behind its
      last bucket. */
  lemma EmptyEnds(s: State, v: word, hash: HashFn)
    requires Scannable(s, hash)
    ensures Entries(s) == multiset{} ==> Emits(s, v, hash) == [] && Next(s, v, hash) == 0
    ensures Entries(s) != multiset{} ==>
              (Next(s, v, hash) == 0 <==> BlockOf(v, Exponent(Guide(s))) + 1 == |Guide(s).buckets|)
  {
    hide BlockOf, NextCursor, Exponent, KeysUnique, Bag, Emits;
    TotalEntries(s, hash);
    if Entries(s) == multiset{} {
      EmptyEmits(s, v, hash);
    } else {
      SizeIs(Guide(s));
      ZeroAtLast(v, Exponent(Guide(s)));
    }
  }

  lemma TotalEntries(s: State, hash: HashFn)
    requires Valid(s, hash)
    ensures s.ht0.used + s.ht1.used == |Entries(s)|
  {
  }

  lemma EmptyEmits(s: State, v: word, hash: HashFn)
    requires Scannable(s, hash) && s.ht0.used + s.ht1.used == 0
    ensures Emits(s, v, hash) == []
  {
  }

  lemma ZeroAtLast(v: word, k: nat)
    requires k <= WORD_BITS
    ensures NextCursor(v, Mask(k)) == 0 <==> BlockOf(v, k) + 1 == Pow2(k)
  {
    hide *;
    var b := BlockOf(v, k) + 1;
    NextCursorBlock(v, k);
    if b < Pow2(k) {
      ReversedTwice(b, k);
      ReversedZero(k);
    }
  }

  // ---------- Scans with no resize ----------

  /** Cursors of one scan are in different blocks while the guiding table keeps its size. */
  lemma {:induction false} BlocksRise(states: seq<State>, i: nat, j: nat, k: nat, hash: HashFn)
    requires FullScan(states, hash) && i < j < |states| && k <= WORD_BITS
    requires forall l | 0 <= l < |states| :: |Guide(states[l]).buckets| <= Pow2(k)
    ensures BlockOf(CursorAt(states, i, hash), k) < BlockOf(CursorAt(states, j, hash), k)
    decreases j
  {
    hide Next, Valid, Rank, BlockOf, Guide, FullScan, CursorAt;
    BlocksAdvance(states, j - 1, k, hash);
    CursorStart(states, hash);
    BlockStep(states, j, k, hash);
    if i < j - 1 { BlocksRise(states, i, j - 1, k, hash); }
  }

  lemma BlockFollowsLow(a: nat, b: nat, k: nat)
    ensures Low(a, k) == Low(b, k) ==> BlockOf(a, k) == BlockOf(b, k)
  {
    hide Low, BlockOf;
    if Low(a, k) == Low(b, k) { BlockOfLow(a, b, k); }
  }

  /** While the guiding table keeps its size, whatever else is done between the calls, no key
      is emitted in two calls of a scan. */
  lemma NotInTwoCalls(states: seq<State>, i: nat, j: nat, k: nat, key: Key, hash: HashFn)
    requires FullScan(states, hash) && i < j < |states| && k <= WORD_BITS
    requires forall l | 0 <= l < |states| :: |Guide(states[l]).buckets| == Pow2(k)
    ensures !(EmittedAt(states, i, key, hash) && EmittedAt(states, j, key, hash))
  {
    hide Emits, Next, Valid, MapOf, Rank, BlockOf, Guide, Low, FullScan, CursorAt;
    CursorStart(states, hash);
    BlocksRise(states, i, j, k, hash);
    Log2Pow2(k);
    EmitsOnce(states[i], CursorAt(states, i, hash), hash);
    EmitsOnce(states[j], CursorAt(states, j, hash), hash);
    BlockFollowsLow(CursorAt(states, i, hash), CursorAt(states, j, hash), k);
  }
}
