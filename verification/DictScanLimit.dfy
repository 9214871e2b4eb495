/** Where the scan's guarantee stops. The loop of `dictScan` counts the bits between the two
    sizes upward from the cursor's own bits (src/dict.c:154), so after a shrink has started a
    call can step past entries it will not meet again. */
module DictScanLimit {
  import opened Words
  import opened Cursor
  import opened DictState
  import opened DictOps
  import opened DictScan

  lemma ShrinkStartedOk(k0: nat, k1: nat, x: Entry, hash: HashFn)
    requires 2 <= k0 < k1 <= WORD_BITS
    ensures var s := ShrinkStarted(k0, k1, x, hash);
            && Scannable(s, hash) && IsRehashing(s) && Entries(s) == multiset{x}
            && Smaller(s) == s.ht1 && Larger(s) == s.ht0
            && Exponent(Smaller(s)) == k0 && Exponent(Larger(s)) == k1
  {
    var s := ShrinkStarted(k0, k1, x, hash);
    ShrinkStartedValid(k0, k1, x, hash);
    Pow2Less(k0, k1);
    Log2Pow2(k0);
    Log2Pow2(k1);
    assert FitsWord(s.ht0) && FitsWord(s.ht1);
  }

  lemma SameMid(a: word, b: word, k0: nat, k1: nat)
    requires k0 <= k1 && Low(a, k1) == Low(b, k1) && Low(a, k0) == Low(b, k0)
    ensures Mid(a, k0, k1) == Mid(b, k0, k1)
  {
    hide *;
    LowCompose(a, k0, k1);
    LowCompose(b, k0, k1);
    var x, y := Mid(a, k0, k1), Mid(b, k0, k1);
    if x < y {
      UpMono(x + 1, y, k0);
      UpNext(x, k0);
    } else if y < x {
      UpMono(y + 1, x, k0);
      UpNext(y, k0);
    }
  }

  /** An entry in a bucket the loop starts beyond is not emitted. */
  lemma NotEmitted(k0: nat, k1: nat, x: Entry, v: word, hash: HashFn)
    requires 2 <= k0 < k1 <= WORD_BITS
    requires Low(hash(x.key), k0) != Low(v, k0) || Mid(hash(x.key), k0, k1) < Mid(v, k0, k1)
    ensures Scannable(ShrinkStarted(k0, k1, x, hash), hash)
    ensures forall e | e in Emits(ShrinkStarted(k0, k1, x, hash), v, hash) :: e.key != x.key
  {
    hide Low, Mid, LoopEmits, Pow2, KeysUnique, Bag;
    var s, h := ShrinkStarted(k0, k1, x, hash), hash(x.key);
    ShrinkStartedOk(k0, k1, x, hash);
    EmitsOnlyEntries(s, v, hash);
    SizeIs(s.ht0);
    SizeIs(s.ht1);
    if e :| e in Emits(s, v, hash) && e.key == x.key {
      assert e == x;
      LoopEmitsOnly(s.ht0, v, k0, k1, x);
      var w: word :| Low(w, k0) == Low(v, k0) && Mid(v, k0, k1) <= Mid(w, k0, k1) && x in BucketAt(s.ht0, w);
      OneEntryTable(k1, x, hash);
      assert Homed(BucketAt(s.ht0, w), And(w, Pow2(k1) - 1), Pow2(k1), hash);
      SameLowOfBucket(w, h, k0, k1);
      SameMid(w, h, k0, k1);
    }
  }

  lemma SameLowOfBucket(w: word, h: word, k0: nat, k1: nat)
    requires k0 <= k1 && And(h, Pow2(k1) - 1) == And(w, Pow2(k1) - 1)
    ensures Low(h, k1) == Low(w, k1) && Low(h, k0) == Low(w, k0)
  {
    hide *;
    AndMask(h, k1);
    AndMask(w, k1);
    LowOfLow(h, k0, k1);
    LowOfLow(w, k0, k1);
  }

  lemma {:induction false} LowOfLow(v: nat, k0: nat, k1: nat)
    requires k0 <= k1
    ensures Low(Low(v, k1), k0) == Low(v, k0)
    decreases k0
  {
    hide Low;
    assert Pow2(0) == 1;
    if k0 > 0 {
      LowOfLow(v / 2, k0 - 1, k1 - 1);
      LowHalf(v, k1);
      LowHalf(v, k0);
      LowHalf(Low(v, k1), k0);
    }
  }

  /** Every valid rehashing dictionary with these two sizes emits what the call passes. */
  ghost predicate AlwaysEmits(v: word, k0: nat, k1: nat, hash: HashFn) {
    forall s: State, e: Entry
      | && Scannable(s, hash) && IsRehashing(s)
        && Exponent(Smaller(s)) == k0 && Exponent(Larger(s)) == k1
        && e in Entries(s) && Passed(v, Next(s, v, hash), hash(e.key)) ::
      e in Emits(s, v, hash)
  }

  /** The condition is exact: a call made during a rehash emits everything it passes, in
      every dictionary with those sizes, if and only if the cursor's middle bits are 0..01..1.
      `keyOf` says that the hash function takes every value. */
  lemma CoverIsExact(v: word, k0: nat, k1: nat, hash: HashFn, keyOf: uint32 -> Key, val: Value)
    requires 2 <= k0 < k1 <= 32
    requires forall h: uint32 :: hash(keyOf(h)) == h
    ensures LoopCovers(v, k0, k1) <==> AlwaysEmits(v, k0, k1, hash)
  {
    hide Low, Mid, LoopCovers, Valid, Emits, Next, Rank;
    if LoopCovers(v, k0, k1) {
      forall s: State, e: Entry
        | && Scannable(s, hash) && IsRehashing(s)
          && Exponent(Smaller(s)) == k0 && Exponent(Larger(s)) == k1
          && e in Entries(s) && Passed(v, Next(s, v, hash), hash(e.key))
        ensures e in Emits(s, v, hash)
      {
        CallEmitsPassed(s, v, e, hash);
      }
    } else {
      var h := MissedHash(v, k0, k1);
      var x := Entry(keyOf(h), val);
      var s := ShrinkStarted(k0, k1, x, hash);
      ShrinkStartedOk(k0, k1, x, hash);
      MissedIsPassed(s, v, h, k0, hash);
      NotEmitted(k0, k1, x, v, hash);
      assert x in Entries(s);
      assert x !in Emits(s, v, hash);
    }
  }

  /** A 32-bit hash that is due at this call and that the loop does not reach. */
  lemma MissedHash(v: word, k0: nat, k1: nat) returns (h: uint32)
    requires k0 <= k1 <= 32 && !LoopCovers(v, k0, k1)
    ensures Low(h, k0) == Low(v, k0) && Rank(v) <= Rank(h) && Mid(h, k0, k1) < Mid(v, k0, k1)
  {
    LoopCoversIs(v, k0, k1);
    var m := Mid(v, k0, k1);
    var w := MissedWord(v, k0, k1);
    hide *;
    MissedIsLater(m, k1 - k0);
    RankOrdersMid(v, w, k0, k1);
    h := MissedSmall(v, w, k0, k1);
    RankOrdersMid(v, h, k0, k1);
  }

  lemma Pow2Of32()
    ensures Pow2(32) == UINT32
  {
    assert Pow2(8) == 256;
    Pow2Add(8, 8);
    Pow2Add(16, 16);
  }

  /** Cutting a word off above the larger table keeps its bucket there. */
  lemma MissedSmall(v: word, w: word, k0: nat, k1: nat) returns (h: uint32)
    requires k0 <= k1 <= 32
    ensures Low(h, k0) == Low(w, k0) && Mid(h, k0, k1) == Mid(w, k0, k1)
  {
    hide *;
    Pow2Mono(k1, 32);
    Pow2Of32();
    h := Low(w, k1);
    LowOfLow(w, k0, k1);
    LowOfLow(w, k1, k1);
    SameMid(h, w, k0, k1);
  }

  lemma PassedByBlock(v: word, h: word, k: nat)
    requires k <= WORD_BITS && Low(h, k) == Low(v, k)
    ensures Rank(v) <= Rank(h) ==> Passed(v, NextCursor(v, Mask(k)), h)
  {
    hide Low, Rank, BlockOf, NextCursor, Reversed, Pow2, Up, Mask;
    BlockOfLow(v, h, k);
    RankInBlock(h, k);
    NextCursorBlock(v, k);
    NextCursorPasses(v, k);
  }

  /** A hash in the cursor's small bucket and not before the cursor is passed by the call. */
  lemma MissedIsPassed(s: State, v: word, h: word, k0: nat, hash: HashFn)
    requires Scannable(s, hash) && IsRehashing(s) && Entries(s) != multiset{}
    requires Exponent(Smaller(s)) == k0 && Low(h, k0) == Low(v, k0) && Rank(v) <= Rank(h)
    ensures Passed(v, Next(s, v, hash), h)
  {
    hide Low, Rank, NextCursor, Bag, Passed;
    SmallerFirst(s, hash);
    PassedByBlock(v, h, k0);
    assert s.ht0.used + s.ht1.used == |Entries(s)|;
  }

  // ---------- A scan that loses a key ----------

  /** Sixteen buckets holding `x` alone. */
  function Sixteen(x: Entry, hash: HashFn): State {
    State(Prepend(NewTable(16), x, hash), NO_TABLE, -1, 0)
  }

  lemma SixteenOk(x: Entry, hash: HashFn)
    requires hash(x.key) == 4
    ensures var s := Sixteen(x, hash);
            && Scannable(s, hash) && !IsRehashing(s) && Entries(s) == multiset{x}
            && Exponent(s.ht0) == 4 && s.ht0.used == 1
            && Emits(s, 0, hash) == []
  {
    assert Pow2(4) == 16;
    OneEntryTable(4, x, hash);
    Log2Pow2(4);
    var s := Sixteen(x, hash);
    assert FitsWord(s.ht0);
    assert Entries(s) == multiset{x};
    assert And(0, 15) == 0 && And(4, 15) == 4;
  }

  lemma ShrinkOfSixteen(x: Entry, hash: HashFn)
    requires hash(x.key) == 4
    ensures Resize(Sixteen(x, hash), true) == (ShrinkStarted(2, 4, x, hash), true)
  {
    assert Pow2(4) == 16 && Pow2(2) == 4;
    SixteenOk(x, hash);
    assert NextPower(INITIAL_SIZE) == 4;
  }

  lemma BlocksOfSixteen()
    ensures BlockOf(0, 4) == 0 && Reversed(1, 4) == 8 && Pow2(4) == 16
  {
    LowOfSmall(0, 4);
    ReversedZero(4);
    ReversedZero(3);
    assert Pow2(3) == 8;
  }

  lemma BlocksOfFour()
    ensures BlockOf(8, 2) == 0 && BlockOf(2, 2) == 1 && BlockOf(1, 2) == 2 && BlockOf(3, 2) == 3
  {
  }

  lemma ReversedOfFour()
    ensures Reversed(1, 2) == 2 && Reversed(2, 2) == 1 && Reversed(3, 2) == 3 && Pow2(2) == 4
  {
  }

  lemma LowsAndMids()
    ensures Low(4, 2) == 0 == Low(8, 2) && Low(2, 2) == 2 && Low(1, 2) == 1 && Low(3, 2) == 3
    ensures Mid(4, 2, 4) == 1 && Mid(8, 2, 4) == 2 && !LoopCovers(8, 2, 4)
  {
    assert Shr(8, 2) == 2 && Shr(4, 2) == 1;
    assert Low(2, 2) == 2 && Low(1, 2) == 1;
    assert And(2, 3) == 2;
  }

  /** The cursor after a call in the shrink. */
  lemma NextInShrink(x: Entry, v: word, hash: HashFn)
    ensures Scannable(ShrinkStarted(2, 4, x, hash), hash)
    ensures Next(ShrinkStarted(2, 4, x, hash), v, hash) == NextCursor(v, Mask(2))
  {
    ShrinkStartedOk(2, 4, x, hash);
    OneEntryTable(4, x, hash);
  }

  lemma NextInSixteen(x: Entry, hash: HashFn)
    requires hash(x.key) == 4
    ensures Scannable(Sixteen(x, hash), hash)
    ensures Next(Sixteen(x, hash), 0, hash) == NextCursor(0, Mask(4))
  {
    hide NextCursor, Valid, Sixteen;
    SixteenOk(x, hash);
  }

  lemma Cursors(x: Entry, hash: HashFn)
    requires hash(x.key) == 4
    ensures var b := ShrinkStarted(2, 4, x, hash);
            && Scannable(Sixteen(x, hash), hash) && Scannable(b, hash)
            && Next(Sixteen(x, hash), 0, hash) == 8
            && Next(b, 8, hash) == 2 && Next(b, 2, hash) == 1 && Next(b, 1, hash) == 3 && Next(b, 3, hash) == 0
  {
    hide Next, Scannable, NextCursor, BlockOf, Reversed, Sixteen, ShrinkStarted, Mask;
    NextInSixteen(x, hash);
    BlocksOfSixteen();
    BlocksOfFour();
    ReversedOfFour();
    NextCursorBlock(0, 4);
    NextInShrink(x, 8, hash);
    NextInShrink(x, 2, hash);
    NextInShrink(x, 1, hash);
    NextInShrink(x, 3, hash);
    NextCursorBlock(8, 2);
    NextCursorBlock(2, 2);
    NextCursorBlock(1, 2);
    NextCursorBlock(3, 2);
  }

  lemma ShrinkCursors(states: seq<State>, x: Entry, hash: HashFn)
    requires hash(x.key) == 4
    requires states == [Sixteen(x, hash)] + seq(4, _ => ShrinkStarted(2, 4, x, hash))
    ensures FullScan(states, hash)
    ensures CursorAt(states, 0, hash) == 0 && CursorAt(states, 1, hash) == 8 && CursorAt(states, 2, hash) == 2
    ensures CursorAt(states, 3, hash) == 1 && CursorAt(states, 4, hash) == 3
  {
    hide Next, Scannable, ShrinkStarted, Sixteen;
    Cursors(x, hash);
    assert CursorAt(states, 1, hash) == 8;
    assert CursorAt(states, 2, hash) == 2;
    assert CursorAt(states, 3, hash) == 1;
    assert CursorAt(states, 4, hash) == 3;
    assert CursorAt(states, 5, hash) == 0;
  }

  /** A full scan: one call, then `dictResize` starts a shrink, then four more calls. The
      key is in the dictionary at every call and no call emits it. */
  lemma ShrinkLosesKey(x: Entry, hash: HashFn) returns (states: seq<State>)
    requires hash(x.key) == 4
    ensures FullScan(states, hash) && |states| == 5
    ensures Resize(states[0], true) == (states[1], true)
    ensures forall i | 1 <= i < 5 :: states[i] == states[1]
    ensures forall i | 0 <= i < 5 :: x.key in Contents(states[i], hash) && !EmittedAt(states, i, x.key, hash)
    ensures !CallCovers(states[1], CursorAt(states, 1, hash), hash)
  {
    hide ShrinkStarted, Sixteen, Resize, Emits, MapOf, Low, Mid, LoopCovers, CursorAt, KeysUnique;
    var a, b := Sixteen(x, hash), ShrinkStarted(2, 4, x, hash);
    states := [a, b, b, b, b];
    SixteenOk(x, hash);
    ShrinkStartedOk(2, 4, x, hash);
    ShrinkOfSixteen(x, hash);
    ShrinkCursors(states, x, hash);
    InMap(Entries(a), x);
    InMap(Entries(b), x);
    LowsAndMids();
    NotEmitted(2, 4, x, 8, hash);
    NotEmitted(2, 4, x, 2, hash);
    NotEmitted(2, 4, x, 1, hash);
    NotEmitted(2, 4, x, 3, hash);
  }
}
