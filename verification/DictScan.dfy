/** `dictScan` (src/dict.c:120-162): what one call emits, and what a whole scan emits while
    the dictionary changes between the calls. */
module DictScan {
  import opened Words
  import opened Cursor
  import opened DictState
  import opened DictOps

  // ---------- One call ----------

  /** The exponent of a table size. */
  function Log2(n: nat): nat {
    if n <= 1 then 0 else 1 + Log2(n / 2)
  }

  lemma {:induction false} Log2Pow2(k: nat)
    ensures Log2(Pow2(k)) == k
  {
    if k > 0 { Log2Pow2(k - 1); }
  }

  ghost predicate FitsWord(t: Table) {
    exists k: nat :: k <= WORD_BITS && |t.buckets| == Pow2(k)
  }

  /** The tables a scan reads have sizes that fit an `unsigned long`. */
  ghost predicate Scannable(s: State, hash: HashFn) {
    && Valid(s, hash)
    && (s.ht0.used + s.ht1.used > 0 ==> FitsWord(s.ht0))
    && (IsRehashing(s) ==> FitsWord(s.ht0) && FitsWord(s.ht1))
  }

  function Smaller(s: State): Table {
    if |s.ht0.buckets| > |s.ht1.buckets| then s.ht1 else s.ht0
  }

  function Larger(s: State): Table {
    if |s.ht0.buckets| > |s.ht1.buckets| then s.ht0 else s.ht1
  }

  /** The table whose mask moves the cursor. */
  function Guide(s: State): Table {
    if IsRehashing(s) then Smaller(s) else s.ht0
  }

  function Exponent(t: Table): nat {
    Log2(|t.buckets|)
  }

  lemma SizeIs(t: Table)
    requires FitsWord(t)
    ensures Exponent(t) <= WORD_BITS && |t.buckets| == Pow2(Exponent(t)) == Mask(Exponent(t)) + 1
  {
    var k: nat :| k <= WORD_BITS && |t.buckets| == Pow2(k);
    Log2Pow2(k);
  }

  function BucketAt(t: Table, v: nat): Chain
    requires |t.buckets| > 0
  {
    t.buckets[And(v, |t.buckets| - 1)]
  }

  lemma LoopTurn(v: word, k0: nat, k1: nat)
    requires k0 <= k1 <= WORD_BITS
    ensures var v' := StepHigh(v, Mask(k0));
            And(v', Xor(Mask(k0), Mask(k1))) != 0 ==> Mid(v', k0, k1) == Mid(v, k0, k1) + 1
  {
    hide *;
    StepHighMid(v, k0, k1);
    LoopGuard(StepHigh(v, Mask(k0)), k0, k1);
    UpZero(k0);
  }

  /** The `do` loop over the larger table. */
  function LoopEmits(t: Table, v: word, k0: nat, k1: nat): seq<Entry>
    requires k0 <= k1 <= WORD_BITS && |t.buckets| > 0
    decreases Pow2(k1 - k0) - Mid(v, k0, k1)
  {
    var v' := StepHigh(v, Mask(k0));
    LoopTurn(v, k0, k1);
    BucketAt(t, v) + if And(v', Xor(Mask(k0), Mask(k1))) != 0 then LoopEmits(t, v', k0, k1) else []
  }

  /** The entries passed to the callback, in order. */
  ghost function Emits(s: State, v: word, hash: HashFn): seq<Entry>
    requires Scannable(s, hash)
  {
    if s.ht0.used + s.ht1.used == 0 then []
    else if !IsRehashing(s) then BucketAt(s.ht0, v)
    else
      SizeIs(Smaller(s));
      SizeIs(Larger(s));
      SmallerFirst(s, hash);
      BucketAt(Smaller(s), v) + LoopEmits(Larger(s), v, Exponent(Smaller(s)), Exponent(Larger(s)))
  }

  ghost function Next(s: State, v: word, hash: HashFn): word
    requires Scannable(s, hash)
  {
    if s.ht0.used + s.ht1.used == 0 then 0
    else
      SizeIs(Guide(s));
      NextCursor(v, Mask(Exponent(Guide(s))))
  }

  lemma {:induction false} Pow2Order(a: nat, b: nat)
    requires Pow2(a) <= Pow2(b)
    ensures a <= b
  {
    if a > b {
      Pow2Mono(b, a - 1);
    }
  }

  lemma SmallerFirst(s: State, hash: HashFn)
    requires Scannable(s, hash) && IsRehashing(s)
    ensures FitsWord(Smaller(s)) && FitsWord(Larger(s))
    ensures Exponent(Smaller(s)) <= Exponent(Larger(s)) <= WORD_BITS
  {
    SizeIs(Smaller(s));
    SizeIs(Larger(s));
    Pow2Order(Exponent(Smaller(s)), Exponent(Larger(s)));
  }

  // ---------- What one call covers ----------

  lemma {:induction false} LoopEmitsBucket(t: Table, v: word, k0: nat, k1: nat, h: word)
    requires k0 <= k1 <= WORD_BITS && |t.buckets| == Pow2(k1)
    ensures |t.buckets| > 0
    requires Low(h, k0) == Low(v, k0) && Mid(h, k0, k1) >= Mid(v, k0, k1)
    ensures forall e | e in BucketAt(t, h) :: e in LoopEmits(t, v, k0, k1)
    decreases Pow2(k1 - k0) - Mid(v, k0, k1)
  {
    hide StepHigh, Low, Mid, Mask, And, Xor, Pow2;
    var v' := StepHigh(v, Mask(k0));
    LoopTurn(v, k0, k1);
    LoopStops(v, k0, k1);
    if Mid(h, k0, k1) == Mid(v, k0, k1) {
      SameBucketOfMid(h, v, k0, k1);
    } else {
      LoopEmitsBucket(t, v', k0, k1, h);
    }
  }

  /** The low and the middle bits decide the bucket of the larger table. */
  lemma SameBucketOfMid(h: word, v: word, k0: nat, k1: nat)
    requires k0 <= k1 <= WORD_BITS && Low(h, k0) == Low(v, k0) && Mid(h, k0, k1) == Mid(v, k0, k1)
    ensures And(h, Pow2(k1) - 1) == And(v, Pow2(k1) - 1)
  {
    hide Low, Mid, And, Pow2;
    LowCompose(h, k0, k1);
    LowCompose(v, k0, k1);
    AndMask(h, k1);
    AndMask(v, k1);
  }

  /** The loop goes on until the middle bits are all ones. */
  lemma LoopStops(v: word, k0: nat, k1: nat)
    requires k0 <= k1 <= WORD_BITS
    ensures var v' := StepHigh(v, Mask(k0));
            && Low(v', k0) == Low(v, k0)
            && (Mid(v, k0, k1) + 1 < Pow2(k1 - k0) ==> And(v', Xor(Mask(k0), Mask(k1))) != 0)
  {
    hide *;
    StepHighMid(v, k0, k1);
    LoopGuard(StepHigh(v, Mask(k0)), k0, k1);
    UpOne(k0);
    if Mid(StepHigh(v, Mask(k0)), k0, k1) > 0 { UpMono(1, Mid(StepHigh(v, Mask(k0)), k0, k1), k0); }
  }

  lemma {:induction false} LoopEmitsOnly(t: Table, v: word, k0: nat, k1: nat, e: Entry)
    requires k0 <= k1 <= WORD_BITS && |t.buckets| == Pow2(k1)
    ensures |t.buckets| > 0
    requires e in LoopEmits(t, v, k0, k1)
    ensures e in Bag(t.buckets)
    ensures exists w: word :: Low(w, k0) == Low(v, k0) && Mid(v, k0, k1) <= Mid(w, k0, k1) && e in BucketAt(t, w)
    decreases Pow2(k1 - k0) - Mid(v, k0, k1)
  {
    var v' := StepHigh(v, Mask(k0));
    LoopTurn(v, k0, k1);
    LoopStops(v, k0, k1);
    if e in BucketAt(t, v) {
      InBag(t.buckets, And(v, |t.buckets| - 1), e);
    } else {
      LoopEmitsOnly(t, v', k0, k1, e);
      var w: word :| Low(w, k0) == Low(v', k0) && Mid(v', k0, k1) <= Mid(w, k0, k1) && e in BucketAt(t, w);
      assert Low(w, k0) == Low(v, k0) && Mid(v, k0, k1) <= Mid(w, k0, k1);
    }
  }

  /** Nothing is emitted that is not in the dictionary. */
  lemma EmitsOnlyEntries(s: State, v: word, hash: HashFn)
    requires Scannable(s, hash)
    ensures forall e | e in Emits(s, v, hash) :: e in Entries(s)
  {
    hide Emits, FitsWord, And, Bag, Exponent, Valid;
    forall e | e in Emits(s, v, hash) ensures e in Entries(s) { EmittedIsEntry(s, v, e, hash); }
  }

  lemma EmittedIsEntry(s: State, v: word, e: Entry, hash: HashFn)
    requires Scannable(s, hash) && e in Emits(s, v, hash)
    ensures e in Bag(s.ht0.buckets) || e in Bag(s.ht1.buckets)
  {
    hide And, Bag, Exponent, Valid, LoopEmits;
    if IsRehashing(s) {
      SizeIs(Smaller(s));
      SizeIs(Larger(s));
      SmallerFirst(s, hash);
      if e in BucketAt(Smaller(s), v) {
        InBag(Smaller(s).buckets, And(v, |Smaller(s).buckets| - 1), e);
      } else {
        LoopEmitsOnly(Larger(s), v, Exponent(Smaller(s)), Exponent(Larger(s)), e);
      }
    } else {
      InBag(s.ht0.buckets, And(v, |s.ht0.buckets| - 1), e);
    }
  }

  /** The condition on a call: while a rehash is running, the loop must not start past a
      bucket that is still due. Any caller can compute it from the cursor and the sizes. */
  ghost predicate CallCovers(s: State, v: word, hash: HashFn)
    requires Scannable(s, hash)
  {
    IsRehashing(s) ==>
      (SmallerFirst(s, hash);
       LoopCovers(v, Exponent(Smaller(s)), Exponent(Larger(s))))
  }

  /** The ranks a call passes over. */
  predicate Passed(v: word, v': word, h: word) {
    Rank(v) <= Rank(h) && (v' == 0 || Rank(h) < Rank(v'))
  }

  lemma InHomeBucket(t: Table, e: Entry, hash: HashFn)
    requires TableOk(t, hash) && e in Bag(t.buckets)
    ensures |t.buckets| > 0 && e in BucketAt(t, hash(e.key))
  {
    var i := BagBucket(t.buckets, e);
    assert Homed(t.buckets[i], i, |t.buckets|, hash);
  }

  lemma SameBucket(t: Table, v: word, h: word)
    requires FitsWord(t) && Low(h, Exponent(t)) == Low(v, Exponent(t))
    ensures |t.buckets| > 0 && BucketAt(t, h) == BucketAt(t, v)
  {
    SizeIs(t);
    AndMask(h, Exponent(t));
    AndMask(v, Exponent(t));
  }

  /** One call emits every entry whose rank it passes over. */
  lemma CallEmitsPassed(s: State, v: word, e: Entry, hash: HashFn)
    requires Scannable(s, hash) && CallCovers(s, v, hash)
    requires e in Entries(s) && Passed(v, Next(s, v, hash), hash(e.key))
    ensures e in Emits(s, v, hash)
  {
    var h: word := hash(e.key);
    SizeIs(Guide(s));
    NextCursorPasses(v, Exponent(Guide(s)));
    assert Low(h, Exponent(Guide(s))) == Low(v, Exponent(Guide(s)));
    if !IsRehashing(s) {
      InHomeBucket(s.ht0, e, hash);
      SameBucket(s.ht0, v, h);
    } else {
      CallEmitsInRehash(s, v, e, hash);
    }
  }

  lemma CallEmitsInRehash(s: State, v: word, e: Entry, hash: HashFn)
    requires Scannable(s, hash) && IsRehashing(s) && CallCovers(s, v, hash)
    requires e in Entries(s) && Rank(v) <= Rank(hash(e.key))
    requires Low(hash(e.key), Exponent(Smaller(s))) == Low(v, Exponent(Smaller(s)))
    ensures e in Emits(s, v, hash)
  {
    hide Bag, LoopEmits, Low, Rank, Exponent, LoopCovers, Mid;
    var h: word := hash(e.key);
    SmallerFirst(s, hash);
    SizeIs(Smaller(s));
    SizeIs(Larger(s));
    if e in Bag(Smaller(s).buckets) {
      InHomeBucket(Smaller(s), e, hash);
      SameBucket(Smaller(s), v, h);
    } else {
      InHomeBucket(Larger(s), e, hash);
      LoopCoversExactly(v, Exponent(Smaller(s)), Exponent(Larger(s)));
      LoopEmitsBucket(Larger(s), v, Exponent(Smaller(s)), Exponent(Larger(s)), h);
    }
  }

  // ---------- Whole scans ----------

  /** The cursor before call `i`; the first is 0. Between the calls the dictionary may have
      changed in any way: call `i` sees `states[i]`. */
  ghost function CursorAt(states: seq<State>, i: nat, hash: HashFn): word
    requires i <= |states| && forall j | 0 <= j < |states| :: Scannable(states[j], hash)
  {
    if i == 0 then 0 else Next(states[i - 1], CursorAt(states, i - 1, hash), hash)
  }

  /** A scan from cursor 0 to the first return to 0. */
  ghost predicate FullScan(states: seq<State>, hash: HashFn) {
    && |states| > 0
    && (forall i | 0 <= i < |states| :: Scannable(states[i], hash))
    && (forall i | 0 < i < |states| :: CursorAt(states, i, hash) != 0)
    && CursorAt(states, |states|, hash) == 0
  }

  ghost predicate Covered(states: seq<State>, hash: HashFn)
    requires forall i | 0 <= i < |states| :: Scannable(states[i], hash)
  {
    forall i | 0 <= i < |states| :: CallCovers(states[i], CursorAt(states, i, hash), hash)
  }

  ghost predicate EmittedAt(states: seq<State>, i: nat, k: Key, hash: HashFn)
    requires i < |states| && forall j | 0 <= j < |states| :: Scannable(states[j], hash)
  {
    exists e :: e in Emits(states[i], CursorAt(states, i, hash), hash) && e.key == k
  }

  lemma KeyHasEntry(s: State, k: Key, hash: HashFn)
    requires Valid(s, hash) && k in Contents(s, hash)
    ensures Entry(k, Contents(s, hash)[k]) in Entries(s)
  {
    FromMap(Entries(s), k);
  }

  lemma CallAdvances(s: State, v: word, hash: HashFn)
    requires Scannable(s, hash)
    ensures Next(s, v, hash) != 0 ==> Rank(v) < Rank(Next(s, v, hash)) && Next(s, v, hash) < |Guide(s).buckets|
  {
    if s.ht0.used + s.ht1.used != 0 {
      SizeIs(Guide(s));
      NextCursorPasses(v, Exponent(Guide(s)));
    }
  }

  /** A key that is never absent and whose rank the cursor has passed has been emitted. */
  lemma {:induction false} PassedIsEmitted(states: seq<State>, n: nat, k: Key, hash: HashFn) returns (i: nat)
    requires FullScan(states, hash) && Covered(states, hash) && n <= |states|
    requires forall j | 0 <= j < |states| :: k in Contents(states[j], hash)
    requires n > 0 && (n == |states| || Rank(hash(k)) < Rank(CursorAt(states, n, hash)))
    ensures i < n && EmittedAt(states, i, k, hash)
  {
    hide Emits, Next, Valid, Contents, CallCovers, Rank, CursorAt, FullScan, Covered, EmittedAt;
    CursorStart(states, hash);
    if n > 1 && Rank(hash(k)) < Rank(CursorAt(states, n - 1, hash)) {
      i := PassedIsEmitted(states, n - 1, k, hash);
    } else {
      i := n - 1;
      CallPasses(states, i, k, hash);
    }
  }

  lemma CursorStart(states: seq<State>, hash: HashFn)
    requires FullScan(states, hash)
    ensures CursorAt(states, 0, hash) == 0 && Rank(0) == 0
    ensures forall i | 0 <= i < |states| :: Scannable(states[i], hash)
  {
    ReversedZero(WORD_BITS);
  }

  /** A call emits a key that the cursor reaches or passes in it. */
  lemma CallPasses(states: seq<State>, i: nat, k: Key, hash: HashFn)
    requires FullScan(states, hash) && Covered(states, hash) && i < |states| && k in Contents(states[i], hash)
    requires Rank(CursorAt(states, i, hash)) <= Rank(hash(k))
    requires i + 1 == |states| || Rank(hash(k)) < Rank(CursorAt(states, i + 1, hash))
    ensures EmittedAt(states, i, k, hash)
  {
    hide Emits, Next, Valid, Contents, CallCovers, Rank;
    var s, v := states[i], CursorAt(states, i, hash);
    var e := Entry(k, Contents(s, hash)[k]);
    KeyHasEntry(s, k, hash);
    assert CallCovers(states[i], CursorAt(states, i, hash), hash);
    assert CursorAt(states, i + 1, hash) == Next(s, v, hash);
    CallEmitsPassed(s, v, e, hash);
  }

  /** Scan completeness: whatever is added, deleted, rehashed or resized between the calls,
      every key present throughout is emitted at least once. */
  lemma ScanComplete(states: seq<State>, k: Key, hash: HashFn) returns (i: nat)
    requires FullScan(states, hash) && Covered(states, hash)
    requires forall j | 0 <= j < |states| :: k in Contents(states[j], hash)
    ensures i < |states| && EmittedAt(states, i, k, hash)
  {
    i := PassedIsEmitted(states, |states|, k, hash);
  }

  /** The rank of the cursor goes up with every call until the scan ends. */
  lemma {:induction false} ScanAdvances(states: seq<State>, i: nat, hash: HashFn)
    requires FullScan(states, hash) && i < |states|
    ensures Rank(CursorAt(states, i, hash)) >= i
    ensures i + 1 < |states| ==> Rank(CursorAt(states, i, hash)) < Rank(CursorAt(states, i + 1, hash))
  {
    hide Emits, Next, Valid, MapOf, Rank;
    if i > 0 { ScanAdvances(states, i - 1, hash); }
    CallAdvances(states[i], CursorAt(states, i, hash), hash);
  }

  lemma CursorStep(states: seq<State>, j: nat, hash: HashFn)
    requires FullScan(states, hash) && 0 < j < |states|
    ensures forall i | 0 <= i < |states| :: Scannable(states[i], hash)
    ensures CursorAt(states, j, hash) == Next(states[j - 1], CursorAt(states, j - 1, hash), hash) != 0
  {
    hide Next, Scannable;
  }

  lemma {:induction false} BlocksAdvance(states: seq<State>, i: nat, k: nat, hash: HashFn)
    requires FullScan(states, hash) && i < |states| && k <= WORD_BITS
    requires forall j | 0 <= j < |states| :: |Guide(states[j]).buckets| <= Pow2(k)
    ensures CursorAt(states, i, hash) < Pow2(k) && BlockOf(CursorAt(states, i, hash), k) >= i
  {
    hide Next, Scannable, BlockOf, FullScan, CursorAt, Pow2;
    if i == 0 {
      CursorStart(states, hash);
    } else {
      BlocksAdvance(states, i - 1, k, hash);
      BlockStep(states, i, k, hash);
    }
  }

  lemma BlockStep(states: seq<State>, i: nat, k: nat, hash: HashFn)
    requires FullScan(states, hash) && 0 < i < |states| && k <= WORD_BITS
    requires |Guide(states[i - 1]).buckets| <= Pow2(k) && CursorAt(states, i - 1, hash) < Pow2(k)
    ensures CursorAt(states, i, hash) < Pow2(k)
    ensures BlockOf(CursorAt(states, i - 1, hash), k) < BlockOf(CursorAt(states, i, hash), k)
  {
    hide *;
    CursorStep(states, i, hash);
    CallAdvances(states[i - 1], CursorAt(states, i - 1, hash), hash);
    SmallRanks(CursorAt(states, i - 1, hash), CursorAt(states, i, hash), k);
  }

  /** A scan ends: while the smaller table never has more than 2^k buckets, a scan takes at
      most 2^k calls, whatever is done between them. */
  lemma ScanIsShort(states: seq<State>, k: nat, hash: HashFn)
    requires FullScan(states, hash) && k <= WORD_BITS
    requires forall j | 0 <= j < |states| :: |Guide(states[j]).buckets| <= Pow2(k)
    ensures |states| <= Pow2(k)
  {
    BlocksAdvance(states, |states| - 1, k, hash);
  }

  // ---------- Scans over tables that only grow ----------

  ghost predicate OnlyGrows(states: seq<State>) {
    forall i, j | 0 <= i < j < |states| :: |Guide(states[i]).buckets| <= |Guide(states[j]).buckets|
  }

  /** When the tables only grow, the guard bits are zero at every call, so the condition
      holds by itself. */
  lemma GrowingScanCovers(states: seq<State>, hash: HashFn)
    requires FullScan(states, hash) && OnlyGrows(states)
    ensures Covered(states, hash)
  {
    forall i | 0 <= i < |states|
      ensures CallCovers(states[i], CursorAt(states, i, hash), hash)
    {
      if IsRehashing(states[i]) { NoMiddleBits(states, i, hash); }
    }
  }

  lemma NoMiddleBits(states: seq<State>, i: nat, hash: HashFn)
    requires FullScan(states, hash) && OnlyGrows(states) && i < |states| && IsRehashing(states[i])
    ensures CallCovers(states[i], CursorAt(states, i, hash), hash)
  {
    var s, v := states[i], CursorAt(states, i, hash);
    SmallerFirst(s, hash);
    SizeIs(Guide(s));
    var k0, k1 := Exponent(Smaller(s)), Exponent(Larger(s));
    if i > 0 {
      var p := states[i - 1];
      SizeIs(Guide(p));
      NextCursorPasses(CursorAt(states, i - 1, hash), Exponent(Guide(p)));
      assert |Guide(p).buckets| <= |Guide(s).buckets|;
    }
    assert v < Pow2(k0);
    SmallHasNoMid(v, k0, k1);
  }

  lemma SmallHasNoMid(v: word, k0: nat, k1: nat)
    requires k0 <= k1 && v < Pow2(k0)
    ensures LoopCovers(v, k0, k1) && Mid(v, k0, k1) == 0
  {
    hide And, Low, Shr;
    HighBound(v, k0, 0);
    assert Pow2(k0 + 0) == Pow2(k0) && Pow2(0) == 1;
    LowOfSmall(0, k1 - k0);
    AndZero(1);
  }

  /** Scan completeness for growing tables, with no condition on the cursor. */
  lemma GrowingScanComplete(states: seq<State>, k: Key, hash: HashFn) returns (i: nat)
    requires FullScan(states, hash) && OnlyGrows(states)
    requires forall j | 0 <= j < |states| :: k in Contents(states[j], hash)
    ensures i < |states| && EmittedAt(states, i, k, hash)
  {
    GrowingScanCovers(states, hash);
    i := ScanComplete(states, k, hash);
  }
}
