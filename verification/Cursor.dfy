/** Arithmetic of the scan cursor (src/dict.c:148-161). A cursor counts upward with its
    bits reversed, so its place in the scan is `Rank`, the cursor read in reverse. */
module Cursor {
  import opened Words

  function Rank(v: word): (r: word)
    ensures r == Reversed(v, WORD_BITS)
  {
    ReversedBound(v, WORD_BITS);
    WordIsPow2();
    Reversed(v, WORD_BITS)
  }

  /** `size_mask` of a table with 2^k buckets. */
  function Mask(k: nat): (m: word)
    requires k <= WORD_BITS
    ensures m == Pow2(k) - 1
  {
    Pow2Mono(k, WORD_BITS);
    WordIsPow2();
    Pow2(k) - 1
  }

  function OrWord(a: word, b: word): (r: word)
    ensures r == Or(a, b)
  {
    WordIsPow2();
    OrBound(a, b, WORD_BITS);
    Or(a, b)
  }

  /** The end of `dictScan`: set the bits above the mask, and count up by one with the bits
      reversed. */
  function NextCursor(v: word, m0: word): word {
    Rank(Increment(Rank(OrWord(v, Not(m0)))))
  }

  /** The step of the loop: count the bits above `m0` up by one and keep those below. */
  function StepHigh(v: word, m0: word): word {
    OrWord(And(Increment(OrWord(v, m0)), Not(m0)), And(v, m0))
  }

  /** The bits of `v` between the two table sizes. */
  function Mid(v: nat, k0: nat, k1: nat): (r: nat)
    requires k0 <= k1
    ensures r < Pow2(k1 - k0)
  {
    Low(Shr(v, k0), k1 - k0)
  }

  /** The scan loop visits every bucket still due: the bits between the two sizes are
      0..01..1. The loop's guard tests for the case of no ones. */
  predicate LoopCovers(v: word, k0: nat, k1: nat)
    requires k0 <= k1
  {
    And(Mid(v, k0, k1), Mid(v, k0, k1) + 1) == 0
  }

  // ---------- Numbers with k zero bits appended ----------

  /** `x` with `k` zero bits appended. */
  function Up(x: nat, k: nat): (r: nat)
    ensures r >= x
  {
    if k == 0 then x else 2 * Up(x, k - 1)
  }

  lemma {:induction false} UpAdd(x: nat, y: nat, k: nat)
    ensures Up(x + y, k) == Up(x, k) + Up(y, k)
  {
    if k > 0 { UpAdd(x, y, k - 1); }
  }

  lemma {:induction false} UpOne(k: nat)
    ensures Up(1, k) == Pow2(k)
  {
    if k > 0 { UpOne(k - 1); }
  }

  lemma UpNext(x: nat, k: nat)
    ensures Up(x + 1, k) == Up(x, k) + Pow2(k)
  {
    UpAdd(x, 1, k);
    UpOne(k);
  }

  lemma UpMono(x: nat, y: nat, k: nat)
    requires x <= y
    ensures Up(x, k) <= Up(y, k)
  {
    UpAdd(x, y - x, k);
  }

  lemma {:induction false} UpPow2(a: nat, k: nat)
    ensures Up(Pow2(a), k) == Pow2(a + k)
  {
    if k > 0 { UpPow2(a, k - 1); }
  }

  lemma {:induction false} UpZero(k: nat)
    ensures Up(0, k) == 0
  {
    if k > 0 { UpZero(k - 1); }
  }

  /** A multiple of the block size below 2^64. */
  lemma UpIsWord(x: nat, k: nat)
    requires k <= WORD_BITS && x <= Pow2(WORD_BITS - k)
    ensures Up(x, k) <= WORD && (Up(x, k) == WORD <==> x == Pow2(WORD_BITS - k))
    ensures x < Pow2(WORD_BITS - k) ==> Up(x, k) + Pow2(k) <= WORD
  {
    WordIsPow2();
    UpPow2(WORD_BITS - k, k);
    if x < Pow2(WORD_BITS - k) {
      UpMono(x + 1, Pow2(WORD_BITS - k), k);
      UpNext(x, k);
    }
  }

  lemma MidIs(v: nat, k0: nat, k1: nat)
    requires k0 <= k1
    ensures Mid(v, k0, k1) == Low(Shr(v, k0), k1 - k0)
  {
    hide Low, Shr;
  }

  // ---------- Splitting a word at bit k ----------

  lemma {:induction false} SplitAt(v: nat, k: nat)
    ensures v == Up(Shr(v, k), k) + Low(v, k)
    decreases k
  {
    if k > 0 { SplitAt(v / 2, k - 1); }
  }

  lemma {:induction false} JoinParts(hi: nat, lo: nat, k: nat)
    requires lo < Pow2(k)
    ensures Shr(Up(hi, k) + lo, k) == hi && Low(Up(hi, k) + lo, k) == lo
    decreases k
  {
    if k > 0 {
      assert (Up(hi, k) + lo) / 2 == Up(hi, k - 1) + lo / 2;
      JoinParts(hi, lo / 2, k - 1);
    }
  }

  lemma {:induction false} HighBound(v: nat, k: nat, m: nat)
    ensures v < Pow2(k + m) <==> Shr(v, k) < Pow2(m)
    decreases k
  {
    if k > 0 { HighBound(v / 2, k - 1, m); }
  }

  lemma {:induction false} LowOfSmall(v: nat, k: nat)
    ensures v < Pow2(k) <==> Low(v, k) == v
    decreases k
  {
    if k > 0 { LowOfSmall(v / 2, k - 1); }
  }

  lemma AndHalf(a: nat, b: nat)
    ensures And(a, b) / 2 == And(a / 2, b / 2)
    ensures And(a, b) % 2 == (if a % 2 == 1 && b % 2 == 1 then 1 else 0)
  {
  }

  lemma OrHalf(a: nat, b: nat)
    ensures Or(a, b) / 2 == Or(a / 2, b / 2)
    ensures Or(a, b) % 2 == (if a % 2 == 1 || b % 2 == 1 then 1 else 0)
  {
  }

  lemma XorHalf(a: nat, b: nat)
    ensures Xor(a, b) / 2 == Xor(a / 2, b / 2)
    ensures Xor(a, b) % 2 == (if a % 2 != b % 2 then 1 else 0)
  {
  }

  lemma {:induction false} AndSplit(a: nat, b: nat, k: nat)
    ensures Shr(And(a, b), k) == And(Shr(a, k), Shr(b, k))
    ensures Low(And(a, b), k) == And(Low(a, k), Low(b, k))
    decreases k
  {
    if k > 0 {
      AndHalf(a, b);
      AndSplit(a / 2, b / 2, k - 1);
      LowAnd(a, b, k);
    }
  }

  lemma LowAnd(a: nat, b: nat, k: nat)
    requires k > 0 && Low(And(a / 2, b / 2), k - 1) == And(Low(a / 2, k - 1), Low(b / 2, k - 1))
    ensures Low(And(a, b), k) == And(Low(a, k), Low(b, k))
  {
    hide And, Low;
    AndHalf(a, b);
    AndHalf(Low(a, k), Low(b, k));
    LowHalf(a, k);
    LowHalf(b, k);
    LowHalf(And(a, b), k);
  }

  lemma LowHalf(v: nat, k: nat)
    requires k > 0
    ensures Low(v, k) / 2 == Low(v / 2, k - 1) && Low(v, k) % 2 == v % 2
  {
  }

  lemma {:induction false} OrSplit(a: nat, b: nat, k: nat)
    ensures Shr(Or(a, b), k) == Or(Shr(a, k), Shr(b, k))
    ensures Low(Or(a, b), k) == Or(Low(a, k), Low(b, k))
    decreases k
  {
    if k > 0 {
      OrHalf(a, b);
      OrSplit(a / 2, b / 2, k - 1);
      LowOr(a, b, k);
    }
  }

  lemma LowOr(a: nat, b: nat, k: nat)
    requires k > 0 && Low(Or(a / 2, b / 2), k - 1) == Or(Low(a / 2, k - 1), Low(b / 2, k - 1))
    ensures Low(Or(a, b), k) == Or(Low(a, k), Low(b, k))
  {
    hide Or, Low;
    OrHalf(a, b);
    OrHalf(Low(a, k), Low(b, k));
    LowHalf(a, k);
    LowHalf(b, k);
    LowHalf(Or(a, b), k);
  }

  lemma MaskHalf(k: nat)
    requires k > 0
    ensures (Pow2(k) - 1) / 2 == Pow2(k - 1) - 1 && (Pow2(k) - 1) % 2 == 1
  {
  }

  lemma {:induction false} AndMask(v: nat, k: nat)
    ensures And(v, Pow2(k) - 1) == Low(v, k)
    decreases k
  {
    hide And, Low;
    if k == 0 {
      AndZero(v);
    } else {
      MaskHalf(k);
      AndHalf(v, Pow2(k) - 1);
      LowHalf(v, k);
      AndMask(v / 2, k - 1);
    }
  }

  lemma {:induction false} OrMask(v: nat, k: nat)
    requires v < Pow2(k)
    ensures Or(v, Pow2(k) - 1) == Pow2(k) - 1
    decreases k
  {
    hide Or;
    if k == 0 {
      OrZero(0);
    } else {
      MaskHalf(k);
      OrHalf(v, Pow2(k) - 1);
      OrMask(v / 2, k - 1);
    }
  }

  lemma {:induction false} OrZero(v: nat)
    ensures Or(v, 0) == v && Or(0, v) == v
  {
    if v > 0 { OrZero(v / 2); }
  }

  lemma AndZero(v: nat)
    ensures And(v, 0) == 0 && And(0, v) == 0
  {
  }

  lemma NotMask(k: nat)
    requires k <= WORD_BITS
    ensures Not(Mask(k)) == WORD - Pow2(k)
  {
    hide Pow2, Mask;
  }

  lemma MaskParts(k: nat)
    requires k <= WORD_BITS
    ensures Shr(Mask(k), k) == 0 && Low(Mask(k), k) == Pow2(k) - 1
    ensures Shr(Not(Mask(k)), k) == Pow2(WORD_BITS - k) - 1 && Low(Not(Mask(k)), k) == 0
  {
    hide *;
    var g := Pow2(WORD_BITS - k);
    NotMask(k);
    UpZero(k);
    JoinParts(0, Pow2(k) - 1, k);
    UpIsWord(g, k);
    UpNext(g - 1, k);
    JoinParts(g - 1, 0, k);
  }

  lemma WordHigh(v: word, k: nat)
    requires k <= WORD_BITS
    ensures Shr(v, k) < Pow2(WORD_BITS - k)
  {
    WordIsPow2();
    HighBound(v, k, WORD_BITS - k);
  }

  /** Setting the bits above the mask keeps the low bits and sets every higher one. */
  lemma OrHigh(v: word, k: nat)
    requires k <= WORD_BITS
    ensures Low(OrWord(v, Not(Mask(k))), k) == Low(v, k)
    ensures Shr(OrWord(v, Not(Mask(k))), k) == Pow2(WORD_BITS - k) - 1
  {
    hide *;
    MaskParts(k);
    WordHigh(v, k);
    OrSplit(v, Not(Mask(k)), k);
    OrZero(Low(v, k));
    OrMask(Shr(v, k), WORD_BITS - k);
  }

  // ---------- The reversed order ----------

  /** The low `k` bits decide the leading part of the rank. */
  lemma {:induction false} RankSplit(v: nat, k: nat, m: nat)
    ensures Reversed(v, k + m) == Up(Reversed(Low(v, k), k), m) + Reversed(Shr(v, k), m)
    decreases k
  {
    if k > 0 {
      RankSplit(v / 2, k - 1, m);
      var b := if v % 2 == 1 then Pow2(k - 1) else 0;
      assert Low(v, k) / 2 == Low(v / 2, k - 1) && Low(v, k) % 2 == v % 2;
      UpAdd(b, Reversed(Low(v / 2, k - 1), k - 1), m);
      UpPow2(k - 1, m);
      UpZero(m);
    } else {
      UpZero(m);
    }
  }

  lemma OnesHalf(n: nat)
    requires n > 0
    ensures (Pow2(n) - 1) / 2 == Pow2(n - 1) - 1 && (Pow2(n) - 1) % 2 == 1
  {
  }

  lemma {:induction false} ReversedOnes(n: nat)
    ensures Reversed(Pow2(n) - 1, n) == Pow2(n) - 1
  {
    if n > 0 {
      OnesHalf(n);
      ReversedOnes(n - 1);
    }
  }

  lemma {:induction false} ReversedZero(n: nat)
    ensures Reversed(0, n) == 0
  {
    if n > 0 { ReversedZero(n - 1); }
  }

  lemma {:induction false} ReversedUp(x: nat, m: nat, n: nat)
    ensures Reversed(Up(x, m), m + n) == Reversed(x, n)
    decreases m
  {
    if m > 0 { ReversedUp(x, m - 1, n); }
  }

  /** The block of ranks that share `v`'s low `k` bits. */
  function BlockOf(v: nat, k: nat): (r: nat)
    ensures r < Pow2(k) && r == Reversed(Low(v, k), k)
  {
    ReversedBound(Low(v, k), k);
    Reversed(Low(v, k), k)
  }

  lemma RankInBlock(v: word, k: nat)
    requires k <= WORD_BITS
    ensures Up(BlockOf(v, k), WORD_BITS - k) <= Rank(v) < Up(BlockOf(v, k) + 1, WORD_BITS - k)
  {
    hide *;
    RankSplit(v, k, WORD_BITS - k);
    ReversedBound(Shr(v, k), WORD_BITS - k);
    UpNext(BlockOf(v, k), WORD_BITS - k);
  }

  lemma BlockOfLow(v: nat, h: nat, k: nat)
    requires Low(h, k) == Low(v, k)
    ensures BlockOf(h, k) == BlockOf(v, k)
  {
  }

  lemma SameBlockSameLow(a: nat, b: nat, k: nat)
    requires BlockOf(a, k) == BlockOf(b, k)
    ensures Low(a, k) == Low(b, k)
  {
    ReversedTwice(Low(a, k), k);
    ReversedTwice(Low(b, k), k);
  }

  /** Cursors below the table size are in different blocks, in the order of their ranks. */
  lemma SmallRanks(v: word, w: word, k: nat)
    requires k <= WORD_BITS && v < Pow2(k) && w < Pow2(k) && Rank(v) < Rank(w)
    ensures BlockOf(v, k) < BlockOf(w, k)
  {
    hide *;
    RankInBlock(v, k);
    RankInBlock(w, k);
    LowOfSmall(v, k);
    LowOfSmall(w, k);
    if BlockOf(v, k) == BlockOf(w, k) {
      SameBlockSameLow(v, w, k);
    } else if BlockOf(w, k) < BlockOf(v, k) {
      UpMono(BlockOf(w, k) + 1, BlockOf(v, k), WORD_BITS - k);
    }
  }

  /** Filling the bits above `k` with ones gives the last rank of `v`'s block. */
  lemma EndOfBlock(v: word, k: nat)
    requires k <= WORD_BITS
    ensures Rank(OrWord(v, Not(Mask(k)))) + 1 == Up(BlockOf(v, k) + 1, WORD_BITS - k)
  {
    hide *;
    var m, w := WORD_BITS - k, OrWord(v, Not(Mask(k)));
    OrHigh(v, k);
    RankSplit(w, k, m);
    ReversedOnes(m);
    UpNext(BlockOf(v, k), m);
  }

  lemma BlockStart(b: nat, k: nat)
    requires k <= WORD_BITS && b < Pow2(k)
    ensures Up(b, WORD_BITS - k) < WORD
    ensures Rank(Up(b, WORD_BITS - k)) == Reversed(b, k)
    ensures Rank(Rank(Up(b, WORD_BITS - k))) == Up(b, WORD_BITS - k)
  {
    hide *;
    UpIsWord(b, WORD_BITS - k);
    ReversedUp(b, WORD_BITS - k, k);
    WordIsPow2();
    ReversedTwice(Up(b, WORD_BITS - k), WORD_BITS);
  }

  lemma NextCursorIs(v: word, m0: word)
    ensures NextCursor(v, m0) == Rank(Increment(Rank(OrWord(v, Not(m0)))))
  {
    hide Rank, OrWord, Not, Increment;
  }

  lemma IncrementIs(v: word)
    ensures Increment(v) == if v + 1 == WORD then 0 else v + 1
  {
  }

  /** The next cursor is the start of the next block of ranks, or 0 after the last block. */
  lemma NextCursorBlock(v: word, k: nat)
    requires k <= WORD_BITS
    ensures var b := BlockOf(v, k) + 1;
            && NextCursor(v, Mask(k)) == (if b == Pow2(k) then 0 else Reversed(b, k))
            && (b < Pow2(k) ==> Rank(NextCursor(v, Mask(k))) == Up(b, WORD_BITS - k))
  {
    hide *;
    var b := BlockOf(v, k) + 1;
    var w := Rank(OrWord(v, Not(Mask(k))));
    NextCursorIs(v, Mask(k));
    IncrementIs(w);
    EndOfBlock(v, k);
    UpIsWord(b, WORD_BITS - k);
    if b == Pow2(k) {
      ReversedZero(WORD_BITS);
    } else {
      BlockStart(b, k);
    }
  }

  lemma BlocksApart(v: word, h: word, k: nat)
    requires k <= WORD_BITS && Rank(v) <= Rank(h) < Up(BlockOf(v, k) + 1, WORD_BITS - k)
    ensures Low(h, k) == Low(v, k)
  {
    hide *;
    RankInBlock(v, k);
    RankInBlock(h, k);
    if BlockOf(h, k) < BlockOf(v, k) {
      UpMono(BlockOf(h, k) + 1, BlockOf(v, k), WORD_BITS - k);
    } else if BlockOf(h, k) > BlockOf(v, k) {
      UpMono(BlockOf(v, k) + 1, BlockOf(h, k), WORD_BITS - k);
    }
    SameBlockSameLow(h, v, k);
  }

  /** One call with 2^k buckets moves the rank strictly forward unless the scan is over, and
      every word whose rank is passed over shares the bucket of `v`. */
  lemma NextCursorPasses(v: word, k: nat)
    requires k <= WORD_BITS
    ensures var v' := NextCursor(v, Mask(k));
            && v' < Pow2(k)
            && (v' != 0 ==> Rank(v) < Rank(v'))
            && forall h: word | Rank(v) <= Rank(h) && (v' == 0 || Rank(h) < Rank(v')) ::
                 Low(h, k) == Low(v, k)
  {
    hide *;
    var v', b := NextCursor(v, Mask(k)), BlockOf(v, k) + 1;
    NextCursorBlock(v, k);
    RankInBlock(v, k);
    UpIsWord(b, WORD_BITS - k);
    ReversedBound(b, k);
    ReversedZero(WORD_BITS);
    forall h: word | Rank(v) <= Rank(h) && (v' == 0 || Rank(h) < Rank(v'))
      ensures Low(h, k) == Low(v, k)
    {
      BlocksApart(v, h, k);
    }
  }

  // ---------- The bits between the two table sizes ----------

  lemma {:induction false} LowCompose(v: nat, k0: nat, k1: nat)
    requires k0 <= k1
    ensures Low(v, k1) == Low(v, k0) + Up(Mid(v, k0, k1), k0)
    decreases k0
  {
    if k0 > 0 { LowCompose(v / 2, k0 - 1, k1 - 1); }
  }

  /** The loop guard tests exactly the bits between the two sizes. */
  lemma LoopGuard(v: word, k0: nat, k1: nat)
    requires k0 <= k1 <= WORD_BITS
    ensures And(v, Xor(Mask(k0), Mask(k1))) == Up(Mid(v, k0, k1), k0)
  {
    hide *;
    GuardBits(v, k0, k1);
  }

  lemma GuardHalf(v: nat, k0: nat, k1: nat)
    requires 0 < k0 <= k1
    ensures Mid(v, k0, k1) == Mid(v / 2, k0 - 1, k1 - 1)
    ensures Up(Mid(v, k0, k1), k0) == 2 * Up(Mid(v, k0, k1), k0 - 1)
  {
    hide Low;
  }

  lemma GuardZero(v: nat, k1: nat)
    ensures And(v, Xor(Pow2(0) - 1, Pow2(k1) - 1)) == Up(Mid(v, 0, k1), 0)
  {
    hide And, Xor, Low;
    XorZero(Pow2(k1) - 1);
    AndMask(v, k1);
  }

  lemma {:induction false} GuardBits(v: nat, k0: nat, k1: nat)
    requires k0 <= k1
    ensures And(v, Xor(Pow2(k0) - 1, Pow2(k1) - 1)) == Up(Mid(v, k0, k1), k0)
    decreases k0
  {
    hide *;
    if k0 > 0 {
      GuardBits(v / 2, k0 - 1, k1 - 1);
      GuardHalf(v, k0, k1);
      OnesHalf(k0);
      OnesHalf(k1);
      XorHalf(Pow2(k0) - 1, Pow2(k1) - 1);
      AndHalf(v, Xor(Pow2(k0) - 1, Pow2(k1) - 1));
    } else {
      GuardZero(v, k1);
    }
  }

  lemma {:induction false} XorZero(v: nat)
    ensures Xor(0, v) == v
  {
    if v > 0 { XorZero(v / 2); }
  }

  /** Counting up the bits above `k` when those below are all ones. */
  lemma CarryIntoHigh(a: word, k: nat)
    requires k <= WORD_BITS && Low(a, k) == Pow2(k) - 1
    ensures Low(Increment(a), k) == 0
    ensures Shr(Increment(a), k) == (if Shr(a, k) + 1 == Pow2(WORD_BITS - k) then 0 else Shr(a, k) + 1)
  {
    var hi := Shr(a, k);
    hide *;
    IncrementIs(a);
    SplitAt(a, k);
    WordHigh(a, k);
    UpNext(hi, k);
    UpIsWord(hi + 1, k);
    UpZero(k);
    JoinParts(0, 0, k);
    JoinParts(hi + 1, 0, k);
  }

  /** The loop step leaves the low bits alone and counts the bits above them up by one. */
  lemma StepHighParts(v: word, k: nat)
    requires k <= WORD_BITS
    ensures Low(StepHigh(v, Mask(k)), k) == Low(v, k)
    ensures Shr(StepHigh(v, Mask(k)), k)
         == (if Shr(v, k) + 1 == Pow2(WORD_BITS - k) then 0 else Shr(v, k) + 1)
  {
    var b, hi := Increment(OrWord(v, Mask(k))), Shr(v, k);
    assert StepHigh(v, Mask(k)) == OrWord(And(b, Not(Mask(k))), And(v, Mask(k)));
    hide *;
    var n := if hi + 1 == Pow2(WORD_BITS - k) then 0 else hi + 1;
    MaskParts(k);
    WordHigh(v, k);
    assert Low(b, k) == 0 && Shr(b, k) == n by {
      OrSplit(v, Mask(k), k);
      OrZero(hi);
      OrMask(Low(v, k), k);
      CarryIntoHigh(OrWord(v, Mask(k)), k);
    }
    HighPart(b, k);
    LowPart(v, k);
    OrSplit(And(b, Not(Mask(k))), And(v, Mask(k)), k);
    OrZero(Low(v, k));
    OrZero(n);
  }

  lemma HighPart(b: word, k: nat)
    requires k <= WORD_BITS
    ensures Low(And(b, Not(Mask(k))), k) == 0 && Shr(And(b, Not(Mask(k))), k) == Shr(b, k)
  {
    hide *;
    MaskParts(k);
    WordHigh(b, k);
    AndSplit(b, Not(Mask(k)), k);
    AndMask(Shr(b, k), WORD_BITS - k);
    LowOfSmall(Shr(b, k), WORD_BITS - k);
    AndZero(Low(b, k));
  }

  lemma LowPart(v: word, k: nat)
    requires k <= WORD_BITS
    ensures Low(And(v, Mask(k)), k) == Low(v, k) && Shr(And(v, Mask(k)), k) == 0
  {
    hide *;
    MaskParts(k);
    AndSplit(v, Mask(k), k);
    AndMask(Low(v, k), k);
    LowOfSmall(Low(v, k), k);
    AndZero(Shr(v, k));
  }

  /** The bits between the two sizes go up by one and wrap to zero, which ends the loop. */
  lemma StepHighMid(v: word, k0: nat, k1: nat)
    requires k0 <= k1 <= WORD_BITS
    ensures Low(StepHigh(v, Mask(k0)), k0) == Low(v, k0)
    ensures Mid(StepHigh(v, Mask(k0)), k0, k1)
         == (if Mid(v, k0, k1) + 1 == Pow2(k1 - k0) then 0 else Mid(v, k0, k1) + 1)
  {
    var hi, hi' := Shr(v, k0), Shr(StepHigh(v, Mask(k0)), k0);
    hide *;
    MidIs(v, k0, k1);
    MidIs(StepHigh(v, Mask(k0)), k0, k1);
    StepHighParts(v, k0);
    LowWrap(hi, WORD_BITS - k0, k1 - k0);
  }

  lemma LowWrap(hi: nat, n: nat, d: nat)
    requires d <= n
    ensures Low(if hi + 1 == Pow2(n) then 0 else hi + 1, d)
         == (if Low(hi, d) + 1 == Pow2(d) then 0 else Low(hi, d) + 1)
  {
    hide *;
    if hi + 1 == Pow2(n) {
      LowOnes(n, d);
      LowOfSmall(0, d);
    } else {
      LowIncrement(hi, d);
    }
  }

  lemma {:induction false} LowOnes(n: nat, d: nat)
    requires d <= n
    ensures Low(Pow2(n) - 1, d) == Pow2(d) - 1
    decreases d
  {
    if d > 0 { LowOnes(n - 1, d - 1); }
  }

  lemma {:induction false} LowIncrement(v: nat, d: nat)
    ensures Low(v + 1, d) == (if Low(v, d) + 1 == Pow2(d) then 0 else Low(v, d) + 1)
    decreases d
  {
    if d > 0 {
      if v % 2 == 1 {
        assert (v + 1) / 2 == v / 2 + 1;
        LowIncrement(v / 2, d - 1);
      } else {
        assert (v + 1) / 2 == v / 2;
      }
    }
  }

  // ---------- Which words the loop misses ----------

  lemma {:induction false} OnesCover(m: nat, x: nat, d: nat)
    requires m < Pow2(d) && x < Pow2(d) && And(m, m + 1) == 0
    requires Reversed(x, d) >= Reversed(m, d)
    ensures x >= m
    decreases d
  {
    if m % 2 == 1 {
      ReversedBound(x / 2, d - 1);
      assert (m + 1) / 2 == m / 2 + 1;
      OnesCover(m / 2, x / 2, d - 1);
    } else if m > 0 {
      AndSelf(m / 2);
    }
  }

  lemma {:induction false} AndSelf(m: nat)
    ensures And(m, m) == m
  {
    if m > 0 { AndSelf(m / 2); }
  }

  /** A smaller number that comes later in reversed order. */
  function Missed(m: nat): (x: nat)
    requires And(m, m + 1) != 0
    ensures x < m
  {
    if m % 2 == 0 then m - 1
    else
      assert (m + 1) / 2 == m / 2 + 1;
      2 * Missed(m / 2) + 1
  }

  lemma MissedEven(m: nat, d: nat)
    requires And(m, m + 1) != 0 && m < Pow2(d) && m % 2 == 0
    ensures d > 0 && m / 2 < Pow2(d - 1) && Reversed(m, d) == Reversed(m / 2, d - 1)
    ensures Reversed(Missed(m), d) >= Pow2(d - 1)
  {
    assert (m - 1) % 2 == 1;
  }

  lemma MissedOdd(m: nat, d: nat)
    requires And(m, m + 1) != 0 && m < Pow2(d) && m % 2 == 1
    ensures d > 0 && m / 2 < Pow2(d - 1) && And(m / 2, m / 2 + 1) != 0
    ensures Reversed(m, d) == Pow2(d - 1) + Reversed(m / 2, d - 1)
    ensures Reversed(Missed(m), d) == Pow2(d - 1) + Reversed(Missed(m / 2), d - 1)
  {
    assert (m + 1) / 2 == m / 2 + 1;
    var x := Missed(m / 2);
    assert (2 * x + 1) / 2 == x && (2 * x + 1) % 2 == 1;
  }

  lemma {:induction false} MissedIsLater(m: nat, d: nat)
    requires And(m, m + 1) != 0 && m < Pow2(d)
    ensures Reversed(Missed(m), d) > Reversed(m, d)
    decreases d
  {
    hide And, Missed, Reversed, Pow2;
    if m % 2 == 0 {
      MissedEven(m, d);
      ReversedBound(m / 2, d - 1);
    } else {
      MissedOdd(m, d);
      MissedIsLater(m / 2, d - 1);
    }
  }

  /** The rank in three parts: low bits, middle bits, and what is left. */
  lemma RankParts(v: word, k0: nat, k1: nat) returns (rest: nat)
    requires k0 <= k1 <= WORD_BITS
    ensures rest < Pow2(WORD_BITS - k1)
    ensures Rank(v) == Up(Reversed(Low(v, k0), k0), WORD_BITS - k0)
                     + Up(Reversed(Mid(v, k0, k1), k1 - k0), WORD_BITS - k1) + rest
  {
    hide *;
    MidIs(v, k0, k1);
    RankSplit(v, k0, WORD_BITS - k0);
    RankSplit(Shr(v, k0), k1 - k0, WORD_BITS - k1);
    rest := Reversed(Shr(Shr(v, k0), k1 - k0), WORD_BITS - k1);
    ReversedBound(Shr(Shr(v, k0), k1 - k0), WORD_BITS - k1);
  }

  /** Ranks of words that agree on their low bits compare by the reversed middle bits first. */
  lemma RankOrdersMid(v: word, h: word, k0: nat, k1: nat)
    requires k0 <= k1 <= WORD_BITS && Low(h, k0) == Low(v, k0)
    ensures Rank(v) <= Rank(h) ==> Reversed(Mid(v, k0, k1), k1 - k0) <= Reversed(Mid(h, k0, k1), k1 - k0)
    ensures Reversed(Mid(v, k0, k1), k1 - k0) < Reversed(Mid(h, k0, k1), k1 - k0) ==> Rank(v) < Rank(h)
  {
    hide *;
    var n := WORD_BITS - k1;
    var rv, rh := Reversed(Mid(v, k0, k1), k1 - k0), Reversed(Mid(h, k0, k1), k1 - k0);
    var restV := RankParts(v, k0, k1);
    var restH := RankParts(h, k0, k1);
    if rv < rh {
      UpMono(rv + 1, rh, n);
      UpNext(rv, n);
    } else if rh < rv {
      UpMono(rh + 1, rv, n);
      UpNext(rh, n);
    }
  }

  lemma LoopCoversIs(v: word, k0: nat, k1: nat)
    requires k0 <= k1
    ensures LoopCovers(v, k0, k1) == (And(Mid(v, k0, k1), Mid(v, k0, k1) + 1) == 0)
  {
    hide Mid, And;
  }

  /** Exactly when the loop over the larger table reaches everything that is still due:
      it starts at `v`'s own middle bits and counts up from there. */
  lemma LoopCoversExactly(v: word, k0: nat, k1: nat)
    requires k0 <= k1 <= WORD_BITS
    ensures LoopCovers(v, k0, k1)
       <==> forall h: word | Low(h, k0) == Low(v, k0) && Rank(v) <= Rank(h) ::
              Mid(v, k0, k1) <= Mid(h, k0, k1)
  {
    hide *;
    var m, d := Mid(v, k0, k1), k1 - k0;
    LoopCoversIs(v, k0, k1);
    if And(m, m + 1) == 0 {
      forall h: word | Low(h, k0) == Low(v, k0) && Rank(v) <= Rank(h) ensures m <= Mid(h, k0, k1) {
        RankOrdersMid(v, h, k0, k1);
        OnesCover(m, Mid(h, k0, k1), d);
      }
    } else {
      var h := MissedWord(v, k0, k1);
      MissedIsLater(m, d);
      RankOrdersMid(v, h, k0, k1);
      assert Low(h, k0) == Low(v, k0) && Rank(v) <= Rank(h) && Mid(h, k0, k1) < m;
    }
  }

  lemma MissedWord(v: word, k0: nat, k1: nat) returns (h: word)
    requires k0 <= k1 <= WORD_BITS
    requires And(Mid(v, k0, k1), Mid(v, k0, k1) + 1) != 0
    ensures Low(h, k0) == Low(v, k0) && Mid(h, k0, k1) == Missed(Mid(v, k0, k1))
  {
    hide *;
    var x := Missed(Mid(v, k0, k1));
    LowCompose(v, k0, k1);
    UpMono(x, Mid(v, k0, k1), k0);
    h := Up(x, k0) + Low(v, k0);
    JoinParts(x, Low(v, k0), k0);
    MidIs(h, k0, k1);
    LowOfSmall(x, k1 - k0);
  }
}
