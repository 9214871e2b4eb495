/** Whole runs of dictionary operations: every run is a run of map operations, and a
    growth that has started is over within as many operations as there were buckets. */
module DictRuns {
  import opened DictState
  import opened DictOps
  import opened Wrappers

  /** `canResize` is the flag `dict_can_resize` at the time of the call. */
  datatype Op =
    | OpAdd(key: Key, val: Value, canResize: bool)
    | OpReplace(key: Key, val: Value, canResize: bool)
    | OpFind(key: Key)
    | OpDelete(key: Key)
    | OpRehash(n: nat)
    | OpResize(canResize: bool)

  datatype Reply = Flag(ok: bool) | Found(val: Option<Value>) | Done

  ghost function Apply(s: State, op: Op, hash: HashFn): (r: (State, Reply))
    requires Valid(s, hash)
    ensures Valid(r.0, hash) && r.0.iterators == s.iterators
  {
    match op
    case OpAdd(k, v, can) =>
      AddOk(s, k, v, can, hash);
      var (r, ok) := Add(s, k, v, can, hash);
      (r, Flag(ok))
    case OpReplace(k, v, can) =>
      ReplaceOk(s, k, v, can, hash);
      var (r, isNew) := Replace(s, k, v, can, hash);
      (r, Flag(isNew))
    case OpFind(k) =>
      FindOk(s, k, hash);
      var (r, found) := Find(s, k, hash);
      (r, Found(found))
    case OpDelete(k) =>
      DeleteOk(s, k, hash);
      var (r, ok) := Delete(s, k, hash);
      (r, Flag(ok))
    case OpRehash(n) =>
      RehashKeeps(s, n, hash);
      (Rehash(s, n, hash), Done)
    case OpResize(can) =>
      ResizeOk(s, can, hash);
      (Resize(s, can).0, Done)
  }

  lemma ResizeOk(s: State, canResize: bool, hash: HashFn)
    requires Valid(s, hash)
    ensures var (r, ok) := Resize(s, canResize);
            Valid(r, hash) && Entries(r) == Entries(s) && r.iterators == s.iterators
  {
    ExpandOk(s, if s.ht0.used < INITIAL_SIZE then INITIAL_SIZE else s.ht0.used, hash);
  }

  /** The same operation on a plain map. */
  function ApplyMap(m: map<Key, Value>, op: Op): (map<Key, Value>, Reply) {
    match op
    case OpAdd(k, v, _) => if k in m then (m, Flag(false)) else (m[k := v], Flag(true))
    case OpReplace(k, v, _) => (m[k := v], Flag(k !in m))
    case OpFind(k) => (m, Found(if k in m then Some(m[k]) else None))
    case OpDelete(k) => (m - {k}, Flag(k in m))
    case OpRehash(_) => (m, Done)
    case OpResize(_) => (m, Done)
  }

  ghost function Run(s: State, ops: seq<Op>, hash: HashFn): (r: (State, seq<Reply>))
    requires Valid(s, hash)
    ensures Valid(r.0, hash) && r.0.iterators == s.iterators
    decreases |ops|
  {
    if ops == [] then (s, [])
    else
      var (s', reply) := Apply(s, ops[0], hash);
      var (r, replies) := Run(s', ops[1..], hash);
      (r, [reply] + replies)
  }

  function RunMap(m: map<Key, Value>, ops: seq<Op>): (map<Key, Value>, seq<Reply>)
    decreases |ops|
  {
    if ops == [] then (m, [])
    else
      var (m', reply) := ApplyMap(m, ops[0]);
      var (r, replies) := RunMap(m', ops[1..]);
      (r, [reply] + replies)
  }

  lemma ApplyRefines(s: State, op: Op, hash: HashFn)
    requires Valid(s, hash)
    ensures var (r, reply) := Apply(s, op, hash);
            (Contents(r, hash), reply) == ApplyMap(Contents(s, hash), op)
  {
    hide Valid, Contents, Add, Replace, Find, Delete, Rehash, Resize;
    match op
    case OpAdd(k, v, can) => AddOk(s, k, v, can, hash);
    case OpReplace(k, v, can) => ReplaceOk(s, k, v, can, hash);
    case OpFind(k) => FindOk(s, k, hash);
    case OpDelete(k) => DeleteOk(s, k, hash);
    case OpRehash(n) =>
      RehashKeeps(s, n, hash);
      ContentsOfEntries(s, Rehash(s, n, hash), hash);
    case OpResize(can) =>
      ResizeOk(s, can, hash);
      ContentsOfEntries(s, Resize(s, can).0, hash);
  }

  /** Whatever the rehash is doing, a run answers as a run on the plain map does. */
  lemma {:induction false} RunRefines(s: State, ops: seq<Op>, hash: HashFn)
    requires Valid(s, hash)
    ensures var (r, replies) := Run(s, ops, hash);
            (Contents(r, hash), replies) == RunMap(Contents(s, hash), ops)
    decreases |ops|
  {
    if ops != [] {
      ApplyRefines(s, ops[0], hash);
      RunRefines(Apply(s, ops[0], hash).0, ops[1..], hash);
    }
  }

  lemma FreshDictIsEmpty(hash: HashFn)
    ensures Valid(EMPTY_DICT, hash) && Contents(EMPTY_DICT, hash) == map[]
  {
  }

  // ---------- How long a rehash lasts ----------

  function Total(s: State): nat {
    s.ht0.used + s.ht1.used
  }

  /** One more round finishes the rehash or advances the index, inside the old table, whether
      or not an iterator is open. */
  lemma RoundAdvances(s: State, hash: HashFn)
    requires Valid(s, hash) && IsRehashing(s)
    ensures var r := Rehash(s, 1, hash);
            && Valid(r, hash) && Total(r) == Total(s) && r.iterators == s.iterators
            && (if IsRehashing(r) then
                  && s.rehashidx < r.rehashidx < |s.ht0.buckets|
                  && |r.ht0.buckets| == |s.ht0.buckets| && |r.ht1.buckets| == |s.ht1.buckets|
                else
                  |r.ht0.buckets| == |s.ht1.buckets| && r.ht0.used == Total(s))
  {
    RehashKeeps(s, 1, hash);
    if s.ht0.used != 0 {
      SomeLeft(s, hash);
      var (i, left) := SkipEmpty(s.ht0.buckets, s.rehashidx, 10);
      if left > 0 { MoveBucketOk(s, i, hash); }
    }
    TotalIsEntries(s, hash);
    TotalIsEntries(Rehash(s, 1, hash), hash);
  }

  /** `_dictRehashStep` makes such a round when no iterator is open. */
  lemma StepAdvances(s: State, hash: HashFn)
    requires Valid(s, hash) && IsRehashing(s) && s.iterators == 0
    ensures var r := RehashStep(s, hash);
            && Valid(r, hash) && Total(r) == Total(s) && r.iterators == 0
            && (if IsRehashing(r) then
                  && s.rehashidx < r.rehashidx < |s.ht0.buckets|
                  && |r.ht0.buckets| == |s.ht0.buckets| && |r.ht1.buckets| == |s.ht1.buckets|
                else
                  |r.ht0.buckets| == |s.ht1.buckets| && r.ht0.used == Total(s))
  {
    hide Valid, Rehash;
    RoundAdvances(s, hash);
  }

  lemma TotalIsEntries(s: State, hash: HashFn)
    requires Valid(s, hash)
    ensures Total(s) == |Entries(s)|
    ensures !IsRehashing(s) ==> s.ht1.used == 0
  {
  }

  /** `s` is in the rehash of two tables of these sizes, `left` buckets before its end. */
  ghost predicate Rehashing(s: State, size0: nat, size1: nat, left: nat, hash: HashFn) {
    && Valid(s, hash) && IsRehashing(s) && s.iterators == 0
    && |s.ht0.buckets| == size0 && |s.ht1.buckets| == size1
    && s.rehashidx + left >= size0
  }

  ghost predicate StepFinishes(s: State, size1: nat, hash: HashFn)
    requires Valid(s, hash)
  {
    var r := RehashStep(s, hash);
    !IsRehashing(r) && |r.ht0.buckets| == size1 && r.ht0.used <= size1
  }

  /** A rehash step inside this operation finishes the rehash, and the entries fit. */
  ghost predicate Finishes(s: State, op: Op, size1: nat, hash: HashFn)
    requires Valid(s, hash)
  {
    AfterAddValid(s, op, hash);
    || StepFinishes(s, size1, hash)
    || (op.OpReplace? && !Add(s, op.key, op.val, op.canResize, hash).1
        && StepFinishes(Add(s, op.key, op.val, op.canResize, hash).0, size1, hash))
  }

  lemma AfterAddValid(s: State, op: Op, hash: HashFn)
    requires Valid(s, hash)
    ensures op.OpReplace? ==> Valid(Add(s, op.key, op.val, op.canResize, hash).0, hash)
  {
    if op.OpReplace? { AddOk(s, op.key, op.val, op.canResize, hash); }
  }

  predicate IsKeyed(op: Op) {
    op.OpAdd? || op.OpReplace? || op.OpFind? || op.OpDelete?
  }

  /** Every keyed operation does a rehash round; it ends the rehash or leaves less to do,
      and brings at most one new entry. */
  lemma OpAdvances(s: State, op: Op, size0: nat, size1: nat, left: nat, hash: HashFn)
    requires Rehashing(s, size0, size1, left, hash) && left > 0 && IsKeyed(op)
    requires Total(s) + left <= size1 + 1
    ensures var r := Apply(s, op, hash).0;
            || Finishes(s, op, size1, hash)
            || (left > 1 && Rehashing(r, size0, size1, left - 1, hash) && Total(r) <= Total(s) + 1)
  {
    StepAdvances(s, hash);
    if !StepFinishes(s, size1, hash) {
      var s1 := RehashStep(s, hash);
      match op
      case OpAdd(k, v, can) => AddWhileRehashing(s, k, v, can, hash);
      case OpReplace(k, v, can) =>
        AddWhileRehashing(s, k, v, can, hash);
        ReplaceWhileRehashing(s, op, size0, size1, left, hash);
      case OpFind(k) =>
      case OpDelete(k) => DeleteWhileRehashing(s, k, hash);
    }
  }

  lemma AddWhileRehashing(s: State, k: Key, v: Value, can: bool, hash: HashFn)
    requires Valid(s, hash) && IsRehashing(RehashStep(s, hash))
    ensures var s1, r := RehashStep(s, hash), Add(s, k, v, can, hash).0;
            && Valid(r, hash) && IsRehashing(r) && r.rehashidx == s1.rehashidx && r.iterators == s.iterators
            && |r.ht0.buckets| == |s1.ht0.buckets| && |r.ht1.buckets| == |s1.ht1.buckets|
            && Total(r) == Total(s1) + (if Add(s, k, v, can, hash).1 then 1 else 0)
  {
    AddOk(s, k, v, can, hash);
    RehashStepOk(s, hash);
  }

  lemma DeleteWhileRehashing(s: State, k: Key, hash: HashFn)
    requires Valid(s, hash) && IsRehashing(s) && IsRehashing(RehashStep(s, hash))
    ensures var s1, r := RehashStep(s, hash), Delete(s, k, hash).0;
            && IsRehashing(r) && r.rehashidx == s1.rehashidx
            && |r.ht0.buckets| == |s1.ht0.buckets| && |r.ht1.buckets| == |s1.ht1.buckets|
            && Total(r) <= Total(s1)
  {
    StepIndexable(s, hash);
    WhereOk(RehashStep(s, hash), k, hash);
  }

  lemma ReplaceWhileRehashing(s: State, op: Op, size0: nat, size1: nat, left: nat, hash: HashFn)
    requires Rehashing(s, size0, size1, left, hash) && left > 0 && op.OpReplace?
    requires Total(s) + left <= size1 + 1
    requires !StepFinishes(s, size1, hash)
    ensures var r := Apply(s, op, hash).0;
            || Finishes(s, op, size1, hash)
            || (left > 1 && Rehashing(r, size0, size1, left - 1, hash) && Total(r) <= Total(s) + 1)
  {
    hide TableOk, KeysUnique, Entries, RehashStep, Add, ValueIn, MapOf;
    var (s1, added) := Add(s, op.key, op.val, op.canResize, hash);
    AddOk(s, op.key, op.val, op.canResize, hash);
    StepAdvances(s, hash);
    AddWhileRehashing(s, op.key, op.val, op.canResize, hash);
    if !added {
      StepAdvances(s1, hash);
      StepIndexable(s1, hash);
      WhereOk(RehashStep(s1, hash), op.key, hash);
    }
  }

  /** How many rehash rounds an operation makes: a replacement of a present key makes two, as it
      adds and then finds, and every other keyed operation one. */
  lemma RoundsMade(s: State, op: Op, hash: HashFn)
    requires Valid(s, hash) && IsKeyed(op) && IsRehashing(s) && IsRehashing(RehashStep(s, hash))
    ensures Valid(RehashStep(s, hash), hash)
    ensures var s1, r := RehashStep(s, hash), Apply(s, op, hash).0;
            var s2 := if op.OpReplace? && op.key in Contents(s, hash) then RehashStep(s1, hash) else s1;
            r.rehashidx == s2.rehashidx && |r.ht0.buckets| == |s2.ht0.buckets| && |r.ht1.buckets| == |s2.ht1.buckets|
  {
    hide TableOk, KeysUnique, Entries, MapOf, RehashStep, ValueIn;
    RehashStepOk(s, hash);
    StepIndexable(s, hash);
    match op
    case OpAdd(k, v, can) =>
    case OpReplace(k, v, can) =>
      AddOk(s, k, v, can, hash);
      var (s', added) := Add(s, k, v, can, hash);
      if !added {
        RehashStepOk(s', hash);
        StepIndexable(s', hash);
        WhereOk(RehashStep(s', hash), k, hash);
      }
    case OpFind(k) =>
    case OpDelete(k) => WhereOk(RehashStep(s, hash), k, hash);
  }

  /** A rehash with `left` buckets to go ends within `left` keyed operations. */
  lemma {:induction false} RehashEnds(s: State, ops: seq<Op>, size0: nat, size1: nat, left: nat, hash: HashFn)
    returns (n: nat)
    requires Rehashing(s, size0, size1, left, hash) && |ops| >= left
    requires Total(s) + left <= size1 + 1
    requires forall i | 0 <= i < |ops| :: IsKeyed(ops[i])
    ensures n < left && Finishes(Run(s, ops[..n], hash).0, ops[n], size1, hash)
    decreases left
  {
    if Finishes(s, ops[0], size1, hash) {
      assert ops[..0] == [];
      n := 0;
    } else {
      OpAdvances(s, ops[0], size0, size1, left, hash);
      var m := RehashEnds(Apply(s, ops[0], hash).0, ops[1..], size0, size1, left - 1, hash);
      n := m + 1;
      assert ops[..n][1..] == ops[1..][..m] && ops[..n][0] == ops[0];
    }
  }

  lemma GrowthStarts(s: State, k: Key, v: Value, canResize: bool, hash: HashFn)
    requires Valid(s, hash) && s.iterators == 0 && !IsRehashing(s)
    requires IsRehashing(Add(s, k, v, canResize, hash).0)
    ensures Valid(Add(s, k, v, canResize, hash).0, hash)
    ensures var s' := Add(s, k, v, canResize, hash).0;
            && Rehashing(s', |s.ht0.buckets|, |s'.ht1.buckets|, |s.ht0.buckets|, hash)
            && |s'.ht1.buckets| >= 2 * s.ht0.used >= 2 * |s.ht0.buckets|
            && Total(s') <= s.ht0.used + 1
  {
    hide TableOk, KeysUnique, Entries, MapOf, NextPower;
    AddOk(s, k, v, canResize, hash);
    ExpandIfNeededOk(s, canResize, hash);
    NextPowerOk(s.ht0.used * 2);
  }

  /** A growth that an add has started ends within as many further operations as the old
      table has buckets, and at its end the entries fit the new table. */
  lemma GrowthEnds(s: State, k: Key, v: Value, canResize: bool, ops: seq<Op>, hash: HashFn) returns (n: nat)
    requires Valid(s, hash) && s.iterators == 0 && !IsRehashing(s)
    requires IsRehashing(Add(s, k, v, canResize, hash).0)
    requires |ops| >= |s.ht0.buckets| && forall i | 0 <= i < |ops| :: IsKeyed(ops[i])
    ensures Valid(Add(s, k, v, canResize, hash).0, hash)
    ensures n < |s.ht0.buckets|
    ensures var s' := Add(s, k, v, canResize, hash).0;
            && |s'.ht1.buckets| >= 2 * |s.ht0.buckets|
            && Finishes(Run(s', ops[..n], hash).0, ops[n], |s'.ht1.buckets|, hash)
  {
    var s' := Add(s, k, v, canResize, hash).0;
    AddOk(s, k, v, canResize, hash);
    GrowthStarts(s, k, v, canResize, hash);
    n := RehashEnds(s', ops, |s.ht0.buckets|, |s'.ht1.buckets|, |s.ht0.buckets|, hash);
  }
}
