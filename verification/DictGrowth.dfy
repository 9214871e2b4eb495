/** When the hash table is resized, and to which size (src/dict.c:52-60, 510-534). */
module DictGrowth {
  import opened Words
  import opened DictState
  import opened DictOps
  import opened DictRuns
  import opened DictShrink

  /** The table at rest has as many entries as buckets; without permission to resize, six times
      as many. */
  predicate Full(t: Table, canResize: bool) {
    |t.buckets| > 0 && t.used >= (if canResize then |t.buckets| else 6 * |t.buckets|)
  }

  lemma RatioAboveFive(used: nat, size: nat)
    requires size > 0
    ensures used >= size && used / size > FORCE_RESIZE_RATIO <==> used >= 6 * size
  {
    var q, r := used / size, used % size;
    assert used == q * size + r;
    if q >= 6 { MulMono(6, q, size); } else { MulMono(q, 5, size); }
  }

  /** The least table that holds `size` entries. */
  lemma NextPowerIsLeast(size: nat)
    ensures LeastSize(NextPower(size), size)
  {
    ResizeTarget(size);
    if size < INITIAL_SIZE {
      assert NextPower(size) == INITIAL_SIZE == NextPower(INITIAL_SIZE);
    }
  }

  lemma LeastUnique(m: nat, n: nat, used: nat)
    requires LeastSize(m, used) && LeastSize(n, used)
    ensures m == n
  {
  }

  /** `t` is a new table of the least size for `used` entries. */
  ghost predicate NewFor(t: Table, used: nat) {
    LeastSize(|t.buckets|, used) && t.used == 0 && forall i | 0 <= i < |t.buckets| :: t.buckets[i] == []
  }

  /** Exactly when an add grows the table, and to what: a rehash under way goes on; a
      dictionary without a table gets one of four buckets; a full table at rest starts a rehash
      into the least table for twice its entries; any other stays. */
  lemma GrowsExactly(s: State, canResize: bool, hash: HashFn)
    requires Valid(s, hash)
    ensures var r := ExpandIfNeeded(s, canResize).0;
            && (IsRehashing(r) <==> IsRehashing(s) || Full(s.ht0, canResize))
            && (IsRehashing(s) ==> r == s)
            && (!IsRehashing(s) && |s.ht0.buckets| == 0 ==> |r.ht0.buckets| == 4 && NewFor(r.ht0, 0) && r.ht1 == s.ht1)
            && (!IsRehashing(s) && Full(s.ht0, canResize) ==>
                  r.ht0 == s.ht0 && r.rehashidx == 0 && NewFor(r.ht1, 2 * s.ht0.used))
            && (!IsRehashing(s) && |s.ht0.buckets| > 0 && !Full(s.ht0, canResize) ==> r == s)
  {
    hide TableOk, KeysUnique, Entries, LeastSize, NextPower;
    Guard(s, hash);
    var used, size := s.ht0.used, |s.ht0.buckets|;
    NextPowerOk(INITIAL_SIZE);
    NextPowerIsLeast(INITIAL_SIZE);
    NextPowerIsLeast(2 * used);
    FourIsLeast();
    if size > 0 { RatioAboveFive(used, size); }
    if !IsRehashing(s) && Full(s.ht0, canResize) { ExpandSucceeds(s, 2 * used); }
  }

  lemma FourIsLeast()
    ensures NextPower(INITIAL_SIZE) == 4 && LeastSize(4, 0)
  {
    NextPowerIsLeast(0);
    assert NextPower(0) == 4;
  }

  /** What an add leaves: with permission to resize, a table at rest has at least as many
      buckets as entries, and without it at least a sixth of that. */
  lemma AddKeepsRoom(s: State, k: Key, v: Value, canResize: bool, hash: HashFn)
    requires Valid(s, hash)
    ensures var r := Add(s, k, v, canResize, hash).0;
            !IsRehashing(r) ==> r.ht0.used <= (if canResize then |r.ht0.buckets| else 6 * |r.ht0.buckets|)
  {
    hide TableOk, KeysUnique, Entries, ExpandIfNeeded, RehashStep, NewFor, RehashOk;
    var s1 := RehashStep(s, hash);
    RehashStepOk(s, hash);
    GrowsExactly(s1, canResize, hash);
    ExpandIfNeededOk(s1, canResize, hash);
    NewIsUnused(ExpandIfNeeded(s1, canResize).0.ht0);
  }

  lemma NewIsUnused(t: Table)
    ensures NewFor(t, 0) ==> t.used == 0
  {
  }

  /** Exactly when an add starts a rehash: after its own rehash step the dictionary is at rest
      and its table is full. */
  lemma AddStartsRehash(s: State, k: Key, v: Value, canResize: bool, hash: HashFn)
    requires Valid(s, hash)
    ensures var s1, r := RehashStep(s, hash), Add(s, k, v, canResize, hash).0;
            && (IsRehashing(r) <==> IsRehashing(s1) || Full(s1.ht0, canResize))
            && (!IsRehashing(s1) && IsRehashing(r) ==> r.rehashidx == 0 && LeastSize(|r.ht1.buckets|, 2 * s1.ht0.used))
  {
    hide TableOk, KeysUnique, Entries, ExpandIfNeeded, RehashStep, LeastSize, RehashOk;
    var s1 := RehashStep(s, hash);
    RehashStepOk(s, hash);
    GrowsExactly(s1, canResize, hash);
    ExpandIfNeededOk(s1, canResize, hash);
  }

  /** Exactly when `dictResize` succeeds: when it is permitted, no rehash is running and the
      table has not the least size for its entries; it then makes a table of that size, the
      first one or one to rehash into. */
  lemma ResizesExactly(s: State, canResize: bool, hash: HashFn)
    requires Valid(s, hash)
    ensures var (r, ok) := Resize(s, canResize);
            && (ok <==> canResize && !IsRehashing(s) && !LeastSize(|s.ht0.buckets|, s.ht0.used))
            && (!ok ==> r == s)
            && (ok && |s.ht0.buckets| == 0 ==> !IsRehashing(r) && NewFor(r.ht0, s.ht0.used))
            && (ok && |s.ht0.buckets| > 0 ==> r.ht0 == s.ht0 && r.rehashidx == 0 && NewFor(r.ht1, s.ht0.used))
  {
    hide TableOk, KeysUnique, Entries, LeastSize, NextPower;
    var want := if s.ht0.used < INITIAL_SIZE then INITIAL_SIZE else s.ht0.used;
    ResizeTarget(s.ht0.used);
    if LeastSize(|s.ht0.buckets|, s.ht0.used) { LeastUnique(|s.ht0.buckets|, NextPower(want), s.ht0.used); }
  }

  /** Exactly when the shrink policy asks for a resize: the tables have more than four buckets,
      hold something, and hold less than a tenth of their buckets. */
  lemma PolicyExactly(s: State)
    ensures NeedsResize(s) <==>
              var size, used := |s.ht0.buckets| + |s.ht1.buckets|, s.ht0.used + s.ht1.used;
              size > 4 && 0 < used && 10 * used < size
  {
    var size, used := |s.ht0.buckets| + |s.ht1.buckets|, s.ht0.used + s.ht1.used;
    if size > 0 { PercentBelowTen(used, size); }
  }

  lemma PercentBelowTen(used: nat, size: nat)
    requires size > 0
    ensures used * 100 / size < 10 <==> 10 * used < size
  {
    var q, r := used * 100 / size, used * 100 % size;
    assert used * 100 == q * size + r;
    if q >= 10 { MulMono(10, q, size); } else { MulMono(q, 9, size); }
  }
}
