/** The hash table of src/dict.c as a value: two tables of chains, a rehash index and a
    count of safe iterators, with the operations as functions on that value. The class
    in DictHeap.dfy, which relinks entries in place, is proved to do what these functions say. */
module DictState {
  import opened Words

  type Key(==, !new)
  type Value(!new)

  const UINT32: nat := 0x1_0000_0000

  /** The `unsigned int` result of a hash function. */
  type uint32 = n: nat | n < UINT32

  type HashFn = Key -> uint32

  datatype Entry = Entry(key: Key, val: Value)

  /** A bucket's linked list, first entry first. */
  type Chain = seq<Entry>

  /** `DictHT`: `size` is the number of buckets and `size_mask` is `size - 1`. */
  datatype Table = Table(buckets: seq<Chain>, used: nat)

  datatype State = State(ht0: Table, ht1: Table, rehashidx: int, iterators: nat)

  const INITIAL_SIZE: nat := 4
  const FORCE_RESIZE_RATIO: nat := 5
  const NO_TABLE: Table := Table([], 0)
  const EMPTY_DICT: State := State(NO_TABLE, NO_TABLE, -1, 0)

  predicate IsRehashing(s: State) {
    s.rehashidx != -1
  }

  /** The bucket of a hash: its bits under `size_mask`. */
  function Index(h: nat, size: nat): (i: nat)
    requires size > 0
    ensures i < size
  {
    And(h, size - 1)
  }

  // ---------- Entries and the map they stand for ----------

  ghost function Bag(b: seq<Chain>): multiset<Entry> {
    if b == [] then multiset{} else multiset(b[0]) + Bag(b[1..])
  }

  ghost function Entries(s: State): multiset<Entry> {
    Bag(s.ht0.buckets) + Bag(s.ht1.buckets)
  }

  ghost predicate KeysUnique(bag: multiset<Entry>) {
    forall e, e' | e in bag && e' in bag && e.key == e'.key :: e == e' && bag[e] == 1
  }

  ghost function MapOf(bag: multiset<Entry>): map<Key, Value>
    requires KeysUnique(bag)
  {
    map e | e in bag :: e.key := e.val
  }

  // ---------- The invariant ----------

  ghost predicate IsTableSize(n: nat) {
    exists k: nat :: k >= 2 && n == Pow2(k)
  }

  ghost predicate Homed(c: Chain, i: nat, size: nat, hash: HashFn)
    requires size > 0
  {
    forall e | e in c :: Index(hash(e.key), size) == i
  }

  ghost predicate AllHomed(b: seq<Chain>, hash: HashFn) {
    forall i | 0 <= i < |b| :: Homed(b[i], i, |b|, hash)
  }

  ghost predicate TableOk(t: Table, hash: HashFn) {
    && (|t.buckets| == 0 || IsTableSize(|t.buckets|))
    && AllHomed(t.buckets, hash)
    && t.used == |Bag(t.buckets)|
  }

  ghost predicate RehashOk(s: State) {
    if IsRehashing(s) then
      && 0 <= s.rehashidx < |s.ht0.buckets|
      && 0 < |s.ht1.buckets| != |s.ht0.buckets|
      && forall i | 0 <= i < s.rehashidx :: s.ht0.buckets[i] == []
    else
      s.ht1 == NO_TABLE
  }

  ghost predicate Valid(s: State, hash: HashFn) {
    && TableOk(s.ht0, hash)
    && TableOk(s.ht1, hash)
    && KeysUnique(Entries(s))
    && RehashOk(s)
  }

  /** The map a valid dictionary stands for. */
  ghost function Contents(s: State, hash: HashFn): map<Key, Value>
    requires Valid(s, hash)
  {
    MapOf(Entries(s))
  }

  // ---------- Rehashing ----------

  /** Put `e` at the head of its chain. */
  function Prepend(t: Table, e: Entry, hash: HashFn): (r: Table)
    requires |t.buckets| > 0
    ensures |r.buckets| == |t.buckets|
  {
    var i := Index(hash(e.key), |t.buckets|);
    Table(t.buckets[i := [e] + t.buckets[i]], t.used + 1)
  }

  /** Relink the entries of `c`, first to last, into `t`. */
  function MoveChain(c: Chain, t: Table, hash: HashFn): (r: Table)
    requires |t.buckets| > 0
    ensures |r.buckets| == |t.buckets|
    decreases |c|
  {
    if c == [] then t else MoveChain(c[1..], Prepend(t, c[0], hash), hash)
  }

  predicate SomeFrom(b: seq<Chain>, i: nat) {
    exists j :: i <= j < |b| && b[j] != []
  }

  /** Step over empty buckets; `visits` counts down and 0 stops the walk. */
  function SkipEmpty(b: seq<Chain>, i: nat, visits: nat): (r: (nat, nat))
    requires SomeFrom(b, i) && visits > 0
    ensures i <= r.0 < |b| && SomeFrom(b, r.0)
    ensures forall j | i <= j < r.0 :: b[j] == []
    ensures r.1 > 0 ==> b[r.0] != []
    ensures r.1 == 0 ==> r.0 > i
    decreases |b| - i
  {
    if b[i] != [] then (i, visits)
    else if visits == 1 then (i + 1, 0)
    else SkipEmpty(b, i + 1, visits - 1)
  }

  /** Relink every entry of bucket `i` of the old table. */
  function MoveBucket(s: State, i: nat, hash: HashFn): State
    requires i < |s.ht0.buckets| && |s.ht1.buckets| > 0
  {
    var c := s.ht0.buckets[i];
    State(Table(s.ht0.buckets[i := []], if |c| <= s.ht0.used then s.ht0.used - |c| else 0),
          MoveChain(c, s.ht1, hash), i + 1, s.iterators)
  }

  /** The end of `dictRehash`: drop the old table once it is empty. */
  function FinishRehash(s: State): State {
    if s.ht0.used == 0 then State(s.ht1, NO_TABLE, -1, s.iterators) else s
  }

  /** The state between two rounds of the rehash loop: `rehashidx` may be one past the end
      of the old table, but then that table is empty. */
  ghost predicate MidRehash(s: State, hash: HashFn) {
    && TableOk(s.ht0, hash)
    && TableOk(s.ht1, hash)
    && KeysUnique(Entries(s))
    && 0 <= s.rehashidx <= |s.ht0.buckets|
    && 0 < |s.ht1.buckets| != |s.ht0.buckets|
    && forall i | 0 <= i < s.rehashidx :: s.ht0.buckets[i] == []
  }

  /** The loop of `dictRehash`. */
  ghost function RehashLoop(s: State, n: nat, visits: nat, hash: HashFn): State
    requires MidRehash(s, hash) && (n > 0 ==> visits > 0)
    decreases n
  {
    if n == 0 || s.ht0.used == 0 then FinishRehash(s)
    else
      SomeLeft(s, hash);
      var (i, left) := SkipEmpty(s.ht0.buckets, s.rehashidx, visits);
      if left == 0 then s.(rehashidx := i)
      else
        MoveBucketOk(s, i, hash);
        RehashLoop(MoveBucket(s, i, hash), n - 1, left, hash)
  }

  ghost function Rehash(s: State, n: nat, hash: HashFn): State
    requires Valid(s, hash)
  {
    if !IsRehashing(s) then s else RehashLoop(s, n, n * 10, hash)
  }

  /** `_dictRehashStep`: one round, unless a safe iterator is open. */
  ghost function RehashStep(s: State, hash: HashFn): State
    requires Valid(s, hash)
  {
    if s.iterators == 0 then Rehash(s, 1, hash) else s
  }

  // ---------- Lemmas about bags ----------

  lemma {:induction false} BagUpdate(b: seq<Chain>, i: nat, c: Chain)
    requires i < |b|
    ensures Bag(b[i := c]) + multiset(b[i]) == Bag(b) + multiset(c)
  {
    if i == 0 {
      assert b[0 := c][1..] == b[1..];
    } else {
      assert b[i := c][1..] == b[1..][i - 1 := c];
      BagUpdate(b[1..], i - 1, c);
      var x, y, z := multiset(b[0]), Bag(b[1..][i - 1 := c]), multiset(b[1..][i - 1]);
      assert Bag(b[i := c]) == x + y;
      assert x + y + z == x + (y + z) && x + Bag(b[1..]) + multiset(c) == x + (Bag(b[1..]) + multiset(c));
    }
  }

  lemma {:induction false} InBag(b: seq<Chain>, i: nat, e: Entry)
    requires i < |b| && e in b[i]
    ensures e in Bag(b)
  {
    if i > 0 { InBag(b[1..], i - 1, e); }
  }

  lemma {:induction false} BagBucket(b: seq<Chain>, e: Entry) returns (i: nat)
    requires e in Bag(b)
    ensures i < |b| && e in b[i]
  {
    if e in b[0] {
      i := 0;
    } else {
      i := BagBucket(b[1..], e);
      i := i + 1;
    }
  }

  lemma {:induction false} EmptyBag(b: seq<Chain>)
    requires forall i | 0 <= i < |b| :: b[i] == []
    ensures Bag(b) == multiset{}
  {
    if b != [] { EmptyBag(b[1..]); }
  }

  /** A nonempty table has a nonempty bucket, and it is not below the rehash index. */
  lemma SomeLeft(s: State, hash: HashFn)
    requires MidRehash(s, hash) && s.ht0.used != 0
    ensures SomeFrom(s.ht0.buckets, s.rehashidx)
  {
    if !SomeFrom(s.ht0.buckets, s.rehashidx) {
      EmptyBag(s.ht0.buckets);
    }
  }

  lemma PrependOk(t: Table, e: Entry, hash: HashFn)
    requires |t.buckets| > 0 && TableOk(t, hash)
    ensures TableOk(Prepend(t, e, hash), hash)
    ensures Bag(Prepend(t, e, hash).buckets) == Bag(t.buckets) + multiset{e}
  {
    var i := Index(hash(e.key), |t.buckets|);
    var b, c := t.buckets, [e] + t.buckets[i];
    BagUpdate(b, i, c);
    assert multiset(c) == multiset{e} + multiset(b[i]);
    BagCancel(Bag(b[i := c]), Bag(b) + multiset{e}, multiset(b[i]));
    HomedUpdate(b, i, c, hash);
  }

  lemma BagCancel(x: multiset<Entry>, y: multiset<Entry>, z: multiset<Entry>)
    requires x + z == y + z
    ensures x == y
  {
    assert x == (x + z) - z && y == (y + z) - z;
  }

  /** Replacing one chain by entries of the same bucket keeps every entry in its bucket. */
  lemma HomedUpdate(b: seq<Chain>, i: nat, c: Chain, hash: HashFn)
    requires i < |b| && AllHomed(b, hash) && Homed(c, i, |b|, hash)
    ensures AllHomed(b[i := c], hash)
  {
  }

  lemma {:induction false} MoveChainOk(c: Chain, t: Table, hash: HashFn)
    requires |t.buckets| > 0 && TableOk(t, hash)
    ensures TableOk(MoveChain(c, t, hash), hash)
    ensures Bag(MoveChain(c, t, hash).buckets) == Bag(t.buckets) + multiset(c)
    decreases |c|
  {
    if c != [] {
      PrependOk(t, c[0], hash);
      MoveChainOk(c[1..], Prepend(t, c[0], hash), hash);
      assert c == [c[0]] + c[1..];
    }
  }

  /** Moving a bucket moves entries from one table to the other and loses none. */
  lemma MoveBucketOk(s: State, i: nat, hash: HashFn)
    requires MidRehash(s, hash) && s.rehashidx <= i < |s.ht0.buckets|
    requires forall j | s.rehashidx <= j < i :: s.ht0.buckets[j] == []
    ensures |s.ht0.buckets[i]| <= s.ht0.used
    ensures MidRehash(MoveBucket(s, i, hash), hash)
    ensures Entries(MoveBucket(s, i, hash)) == Entries(s)
    ensures MoveBucket(s, i, hash).iterators == s.iterators
  {
    var b, c := s.ht0.buckets, s.ht0.buckets[i];
    assert Homed(b[i], i, |b|, hash);
    EmptyBucket(b, i);
    HomedUpdate(b, i, [], hash);
    MoveChainOk(c, s.ht1, hash);
    var s' := MoveBucket(s, i, hash);
    assert Entries(s') == Entries(s);
  }

  lemma EmptyBucket(b: seq<Chain>, i: nat)
    requires i < |b|
    ensures Bag(b) == Bag(b[i := []]) + multiset(b[i])
    ensures |Bag(b)| == |Bag(b[i := []])| + |b[i]|
  {
    BagUpdate(b, i, []);
  }

  /** Any number of rehash rounds keeps the invariant and every entry. */
  lemma {:induction false} RehashLoopOk(s: State, n: nat, visits: nat, hash: HashFn)
    requires MidRehash(s, hash) && (n > 0 ==> visits > 0)
    ensures var r := RehashLoop(s, n, visits, hash);
            Valid(r, hash) && Entries(r) == Entries(s) && r.iterators == s.iterators
    decreases n
  {
    hide TableOk, KeysUnique, Entries, Bag, MoveBucket, FinishRehash;
    if n == 0 || s.ht0.used == 0 {
      FinishOk(s, hash);
    } else {
      SomeLeft(s, hash);
      var (i, left) := SkipEmpty(s.ht0.buckets, s.rehashidx, visits);
      if left > 0 {
        MoveBucketOk(s, i, hash);
        RehashLoopOk(MoveBucket(s, i, hash), n - 1, left, hash);
      } else {
        SkippedOk(s, i, hash);
      }
    }
  }

  lemma SkippedOk(s: State, i: nat, hash: HashFn)
    requires MidRehash(s, hash) && s.rehashidx <= i < |s.ht0.buckets|
    requires forall j | s.rehashidx <= j < i :: s.ht0.buckets[j] == []
    ensures Valid(s.(rehashidx := i), hash) && Entries(s.(rehashidx := i)) == Entries(s)
  {
  }

  lemma FinishOk(s: State, hash: HashFn)
    requires MidRehash(s, hash)
    ensures Valid(FinishRehash(s), hash) && Entries(FinishRehash(s)) == Entries(s)
    ensures FinishRehash(s).iterators == s.iterators
  {
    if s.ht0.used != 0 { SomeLeft(s, hash); }
  }

  lemma RehashKeeps(s: State, n: nat, hash: HashFn)
    requires Valid(s, hash)
    ensures var r := Rehash(s, n, hash);
            Valid(r, hash) && Entries(r) == Entries(s) && r.iterators == s.iterators
  {
    if IsRehashing(s) { RehashLoopOk(s, n, n * 10, hash); }
  }
}
