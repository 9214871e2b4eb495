/** The shrink policy: `htNeedsResize` (src/cache.c:432-438) drives `dictResize`. */
module DictShrink {
  import opened Words
  import opened DictState
  import opened DictOps
  import opened DictRuns

  const MIN_FILL: nat := 10

  /** Entries in less than a tenth of the slots of a table above the initial size. */
  predicate TooEmpty(size: nat, used: nat) {
    size > 0 && used > 0 && size > INITIAL_SIZE && used * 100 / size < MIN_FILL
  }

  /** `htNeedsResize`. */
  predicate NeedsResize(s: State) {
    TooEmpty(|s.ht0.buckets| + |s.ht1.buckets|, Total(s))
  }

  /** `n` is the least table size that is a power of two and holds `used` entries. */
  ghost predicate LeastSize(n: nat, used: nat) {
    && IsTableSize(n) && n >= used
    && forall m: nat | IsTableSize(m) && m >= used :: n <= m
  }

  lemma {:induction false} NextPowerLeast(i: nat, size: nat, k: nat, m: nat)
    requires i == Pow2(k) && k >= 2 && IsTableSize(m) && m >= size && m >= i
    ensures NextPowerFrom(i, size) <= m
    decreases size - i
  {
    if i < size {
      var j: nat :| j >= 2 && m == Pow2(j);
      if j <= k { Pow2Mono(j, k); } else { Pow2Mono(k + 1, j); }
      NextPowerLeast(2 * i, size, k + 1, m);
    }
  }

  lemma LeastFour(m: nat)
    requires IsTableSize(m)
    ensures m >= INITIAL_SIZE
  {
    var j: nat :| j >= 2 && m == Pow2(j);
    Pow2Mono(2, j);
    assert Pow2(2) == 4;
  }

  lemma ResizeTarget(used: nat)
    ensures LeastSize(NextPower(if used < INITIAL_SIZE then INITIAL_SIZE else used), used)
    ensures var n := NextPower(if used < INITIAL_SIZE then INITIAL_SIZE else used);
            n == INITIAL_SIZE || n < 2 * used
  {
    var want := if used < INITIAL_SIZE then INITIAL_SIZE else used;
    NextPowerOk(want);
    assert Pow2(2) == 4;
    forall m: nat | IsTableSize(m) && m >= used ensures NextPower(want) <= m {
      LeastFour(m);
      NextPowerLeast(INITIAL_SIZE, want, 2, m);
    }
    if want == INITIAL_SIZE { assert NextPower(want) == INITIAL_SIZE; }
  }

  /** When the policy asks for it and resizing is enabled, `dictResize` succeeds and starts
      a rehash into the least table that holds the entries. */
  lemma ShrinkStarts(s: State, hash: HashFn)
    requires Valid(s, hash) && NeedsResize(s) && !IsRehashing(s)
    ensures var (r, ok) := Resize(s, true);
            && ok && Valid(r, hash) && IsRehashing(r) && Contents(r, hash) == Contents(s, hash)
            && Total(r) == Total(s)
            && LeastSize(|r.ht1.buckets|, Total(s))
            && (|r.ht1.buckets| == INITIAL_SIZE || |r.ht1.buckets| < 2 * Total(s))
  {
    hide TableOk, KeysUnique, MapOf, NextPower;
    ResizeOk(s, true, hash);
    ContentsOfEntries(s, Resize(s, true).0, hash);
    ResizeTarget(s.ht0.used);
    FewUsed(s.ht0.used, |s.ht0.buckets|);
  }

  lemma FewUsed(used: nat, size: nat)
    requires size > 0 && used * 100 / size < MIN_FILL
    ensures used * 10 < size
  {
  }

  // ---------- To the end of the rehash ----------

  /** Rehashing alone: a list of `dictRehash` calls with these round counts. */
  ghost function RehashMany(s: State, ns: seq<nat>, hash: HashFn): (r: State)
    requires Valid(s, hash)
    ensures Valid(r, hash) && Entries(r) == Entries(s)
    decreases |ns|
  {
    if ns == [] then s
    else
      RehashKeeps(s, ns[0], hash);
      RehashMany(Rehash(s, ns[0], hash), ns[1..], hash)
  }

  lemma {:induction false} LoopKeepsTarget(s: State, n: nat, visits: nat, hash: HashFn)
    requires MidRehash(s, hash) && (n > 0 ==> visits > 0)
    ensures var r := RehashLoop(s, n, visits, hash);
            if IsRehashing(r) then |r.ht1.buckets| == |s.ht1.buckets| else |r.ht0.buckets| == |s.ht1.buckets|
    decreases n
  {
    hide TableOk, KeysUnique, Entries, Bag;
    if n > 0 && s.ht0.used != 0 {
      SomeLeft(s, hash);
      var (i, left) := SkipEmpty(s.ht0.buckets, s.rehashidx, visits);
      if left > 0 {
        MoveBucketOk(s, i, hash);
        LoopKeepsTarget(MoveBucket(s, i, hash), n - 1, left, hash);
      }
    }
  }

  lemma {:induction false} RehashManyTarget(s: State, ns: seq<nat>, hash: HashFn)
    requires Valid(s, hash) && IsRehashing(s)
    ensures var r := RehashMany(s, ns, hash);
            if IsRehashing(r) then |r.ht1.buckets| == |s.ht1.buckets| else |r.ht0.buckets| == |s.ht1.buckets|
    decreases |ns|
  {
    if ns != [] {
      LoopKeepsTarget(s, ns[0], ns[0] * 10, hash);
      RehashKeeps(s, ns[0], hash);
      var s' := Rehash(s, ns[0], hash);
      if IsRehashing(s') {
        RehashManyTarget(s', ns[1..], hash);
      } else {
        NoRehashLeft(s', ns[1..], hash);
      }
    }
  }

  lemma {:induction false} NoRehashLeft(s: State, ns: seq<nat>, hash: HashFn)
    requires Valid(s, hash) && !IsRehashing(s)
    ensures RehashMany(s, ns, hash) == s
    decreases |ns|
  {
    if ns != [] { NoRehashLeft(s, ns[1..], hash); }
  }

  /** One round per bucket of the old table is always enough to end a rehash. */
  lemma {:induction false} RoundsEnd(s: State, rounds: nat, hash: HashFn)
    requires Valid(s, hash)
    requires IsRehashing(s) ==> s.rehashidx + rounds >= |s.ht0.buckets|
    ensures !IsRehashing(RehashMany(s, seq(rounds, _ => 1), hash))
    decreases rounds
  {
    hide TableOk, KeysUnique, Entries, RehashLoop;
    var ns := seq(rounds, _ => 1);
    if !IsRehashing(s) {
      NoRehashLeft(s, ns, hash);
    } else if rounds > 0 {
      RoundAdvances(s, hash);
      assert ns[1..] == seq(rounds - 1, _ => 1);
      RoundsEnd(Rehash(s, 1, hash), rounds - 1, hash);
    }
  }

  /** The shrink policy settles: whenever `dictResize` was asked for and the rehash it
      started is over, with no update in between, the table is the least one that fits, the
      contents are unchanged and the policy does not ask again. */
  lemma ShrinkSettles(s: State, ns: seq<nat>, hash: HashFn)
    requires Valid(s, hash) && NeedsResize(s) && !IsRehashing(s)
    ensures Valid(Resize(s, true).0, hash)
    ensures var r := RehashMany(Resize(s, true).0, ns, hash);
            !IsRehashing(r) ==>
              && !NeedsResize(r) && Contents(r, hash) == Contents(s, hash)
              && r.ht0.used == Total(s) && LeastSize(|r.ht0.buckets|, Total(s))
  {
    hide TableOk, KeysUnique, MapOf, LeastSize, Resize;
    ShrinkStarts(s, hash);
    var r0 := Resize(s, true).0;
    RehashManyTarget(r0, ns, hash);
    var r := RehashMany(r0, ns, hash);
    ContentsOfEntries(r0, r, hash);
    TotalIsEntries(r0, hash);
    TotalIsEntries(r, hash);
    if !IsRehashing(r) && |r.ht0.buckets| != INITIAL_SIZE {
      WellFilled(r.ht0.used, |r.ht0.buckets|);
    }
  }

  lemma WellFilled(used: nat, size: nat)
    requires 0 < size < 2 * used
    ensures used * 100 / size >= MIN_FILL
  {
    assert used * 100 / size >= 50 by { DivAtLeast(used * 100, size, 50); }
  }

  lemma DivAtLeast(a: nat, d: nat, q: nat)
    requires d > 0 && a >= q * d
    ensures a / d >= q
  {
    if a / d < q {
      MulMono(a / d + 1, q, d);
    }
  }
}
