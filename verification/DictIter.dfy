/** Safe iteration (src/dict.c:256-312): while a safe iterator is open no rehash step runs,
    and with adds anywhere and deletion of only the entry just returned, every key that was
    there at the start comes back exactly once. */
module DictIter {
  import opened DictState
  import opened DictOps
  import opened Wrappers

  /** `DictIterator`. The entry pointers are given by the keys of the entries. */
  datatype Iter = Iter(index: int, table: nat, entry: Option<Key>, nextEntry: Option<Key>)

  const FRESH_ITER: Iter := Iter(-1, 0, None, None)

  function TableAt(s: State, t: nat): Table {
    if t == 0 then s.ht0 else s.ht1
  }

  function BucketSize(s: State, t: nat): nat {
    |TableAt(s, t).buckets|
  }

  /** The first nonempty bucket from bucket `i` of table `t` on, in iteration order. */
  function Seek(s: State, t: nat, i: nat): (r: Option<(nat, nat)>)
    ensures r.Some? ==> r.value.1 < BucketSize(s, r.value.0) && TableAt(s, r.value.0).buckets[r.value.1] != []
    decreases if t == 0 then 1 else 0, BucketSize(s, t) - i
  {
    if i >= BucketSize(s, t) then
      if IsRehashing(s) && t == 0 then Seek(s, 1, 0) else None
    else if TableAt(s, t).buckets[i] != [] then Some((t, i))
    else Seek(s, t, i + 1)
  }

  function KeyAt(c: Chain, p: nat): Option<Key> {
    if p < |c| then Some(c[p].key) else None
  }

  /** Where an iterator that finds no further entry stops: past the last bucket of the last
      table. */
  function Stopped(s: State, it: Iter): Iter {
    var t := if IsRehashing(s) then 1 else it.table;
    var size := BucketSize(s, t);
    Iter(if t == it.table && it.index >= size then it.index + 1 else size, t, None, None)
  }

  /** The start of the next nonempty bucket. */
  function EnterBucket(s: State, it: Iter): (Iter, Option<Key>)
    requires it.index >= -1
  {
    match Seek(s, it.table, it.index + 1)
    case None => (Stopped(s, it), None)
    case Some((t, i)) =>
      var c := TableAt(s, t).buckets[i];
      (Iter(i, t, KeyAt(c, 0), KeyAt(c, 1)), KeyAt(c, 0))
  }

  /** `dictNext`. The first call takes the lock on rehashing. */
  function Next(s: State, it: Iter): (State, Iter, Option<Key>)
    requires it.index >= -1
    requires it.nextEntry.Some? ==> 0 <= it.index < BucketSize(s, it.table)
  {
    var s' := if it.index == -1 && it.table == 0 then s.(iterators := s.iterators + 1) else s;
    match it.nextEntry
    case Some(n) =>
      var c := TableAt(s, it.table).buckets[it.index];
      (s', it.(entry := Some(n), nextEntry := KeyAt(c, Position(c, n) + 1)), Some(n))
    case None =>
      var (it', out) := EnterBucket(s, it);
      (s', it', out)
  }

  // ---------- What an iterator has still to return ----------

  /** `k` is in table `t`, in its own bucket. */
  ghost predicate Holds(s: State, t: nat, k: Key, hash: HashFn) {
    BucketSize(s, t) > 0 && InChain(ChainOf(TableAt(s, t), k, hash), k)
  }

  ghost function Home(s: State, t: nat, k: Key, hash: HashFn): nat
    requires BucketSize(s, t) > 0
  {
    Index(hash(k), BucketSize(s, t))
  }

  /** `k` is in table `t` and ahead of the iterator. */
  ghost predicate DueIn(s: State, it: Iter, t: nat, k: Key, hash: HashFn) {
    && Holds(s, t, k, hash)
    && (|| t > it.table
        || (t == it.table && Home(s, t, k, hash) > it.index)
        || (t == it.table && Home(s, t, k, hash) == it.index && it.nextEntry.Some?
            && Position(ChainOf(TableAt(s, t), k, hash), k)
               >= Position(ChainOf(TableAt(s, t), k, hash), it.nextEntry.value)))
  }

  ghost predicate Due(s: State, it: Iter, k: Key, hash: HashFn) {
    DueIn(s, it, 0, k, hash) || DueIn(s, it, 1, k, hash)
  }

  /** The iterator stands on a bucket of a live table and its next entry is in that bucket. */
  ghost predicate IterOk(s: State, it: Iter, hash: HashFn) {
    && it.table <= 1 && (it.table == 1 ==> IsRehashing(s))
    && -1 <= it.index < BucketSize(s, it.table)
    && (it.index == -1 ==> it == FRESH_ITER)
    && (it.nextEntry.Some? ==>
          && it.index >= 0
          && Holds(s, it.table, it.nextEntry.value, hash)
          && Home(s, it.table, it.nextEntry.value, hash) == it.index)
  }

  /** A key is in the map when it is in one of the tables, and then in only one. */
  lemma HoldsIsLive(s: State, k: Key, hash: HashFn)
    requires Valid(s, hash)
    ensures k in Contents(s, hash) <==> Holds(s, 0, k, hash) || Holds(s, 1, k, hash)
    ensures !(Holds(s, 0, k, hash) && Holds(s, 1, k, hash))
  {
    hide TableOk, KeysUnique, MapOf, Entries, Position;
    if |s.ht0.buckets| == 0 {
      NoEntries(s, hash);
    } else {
      WhereOk(s, k, hash);
      if IsRehashing(s) { NotInBoth(s, k, hash); }
    }
  }

  lemma NotInBoth(s: State, k: Key, hash: HashFn)
    requires Valid(s, hash) && IsRehashing(s)
    ensures !(Holds(s, 0, k, hash) && Holds(s, 1, k, hash))
  {
    TableHasKey(s.ht0, k, hash);
    TableHasKey(s.ht1, k, hash);
  }

  // ---------- Chains ----------

  lemma {:induction false} BagHasChain(b: seq<Chain>, i: nat)
    requires i < |b|
    ensures multiset(b[i]) <= Bag(b)
  {
    if i > 0 { BagHasChain(b[1..], i - 1); }
  }

  /** Every entry of a chain is found at its own place. */
  lemma PlaceIsPosition(s: State, t: nat, i: nat, p: nat, hash: HashFn)
    requires Valid(s, hash) && i < BucketSize(s, t) && p < |TableAt(s, t).buckets[i]|
    ensures var c := TableAt(s, t).buckets[i];
            && Position(c, c[p].key) == p
            && Holds(s, t, c[p].key, hash) && Home(s, t, c[p].key, hash) == i
  {
    var b := TableAt(s, t).buckets;
    var c := b[i];
    var q := Position(c, c[p].key);
    assert Homed(b[i], i, |b|, hash);
    BagHasChain(b, i);
    if q != p {
      assert c[q] in multiset(c) && c[p] in multiset(c);
      assert c[q] in Entries(s) && c[p] in Entries(s);
      assert c[q] == c[p] && Entries(s)[c[p]] == 1;
      TwoPlaces(c, q, p);
    }
  }

  lemma TwoPlaces(c: Chain, q: nat, p: nat)
    requires q < |c| && p < |c| && q != p && c[q] == c[p]
    ensures multiset(c)[c[p]] >= 2
  {
    var lo, hi := if q < p then q else p, if q < p then p else q;
    assert c == c[..lo] + [c[lo]] + c[lo + 1..hi] + [c[hi]] + c[hi + 1..];
  }

  // ---------- Seeking ----------

  ghost predicate EmptyBetween(s: State, t: nat, i: nat, j: nat)
    requires j <= BucketSize(s, t)
  {
    forall x | i <= x < j :: TableAt(s, t).buckets[x] == []
  }

  /** Everything that seeking steps over is empty. */
  lemma {:induction false} SeekOk(s: State, t: nat, i: nat)
    requires t <= 1 && (t == 1 ==> IsRehashing(s))
    ensures var r := Seek(s, t, i);
            if r.None? then
              && EmptyBetween(s, t, i, BucketSize(s, t))
              && (t == 0 && IsRehashing(s) ==> EmptyBetween(s, 1, 0, BucketSize(s, 1)))
            else
              var (t', i') := r.value;
              if t' == t then i <= i' && EmptyBetween(s, t, i, i')
              else
                && t == 0 && t' == 1 && IsRehashing(s)
                && EmptyBetween(s, t, i, BucketSize(s, t)) && EmptyBetween(s, 1, 0, i')
    decreases if t == 0 then 1 else 0, BucketSize(s, t) - i
  {
    if i >= BucketSize(s, t) {
      if IsRehashing(s) && t == 0 { SeekOk(s, 1, 0); }
    } else if TableAt(s, t).buckets[i] == [] {
      SeekOk(s, t, i + 1);
    }
  }

  lemma HomeNotEmpty(s: State, t: nat, k: Key, hash: HashFn)
    requires Holds(s, t, k, hash)
    ensures TableAt(s, t).buckets[Home(s, t, k, hash)] != []
  {
  }

  // ---------- One call of dictNext ----------

  /** What a call must do: return a key that is due and leave exactly the others due, or
      return nothing only when nothing is due. */
  ghost predicate GoodNext(s: State, it: Iter, it': Iter, out: Option<Key>, hash: HashFn) {
    match out
    case Some(k) =>
      && Due(s, it, k, hash) && IterOk(s, it', hash) && it'.index >= 0 && it'.entry == Some(k)
      && forall x :: Due(s, it', x, hash) <==> Due(s, it, x, hash) && x != k
    case None =>
      forall x :: !Due(s, it, x, hash)
  }

  /** Moving one entry along a chain takes just that entry out of what is due. */
  lemma InBucketDue(s: State, it: Iter, it': Iter, t: nat, x: Key, hash: HashFn)
    requires Valid(s, hash) && IterOk(s, it, hash) && it.nextEntry.Some? && t <= 1
    requires it' == Next(s, it).1
    ensures DueIn(s, it', t, x, hash) <==> DueIn(s, it, t, x, hash) && x != it.nextEntry.value
  {
    hide Valid, TableOk, KeysUnique, MapOf;
    var n := it.nextEntry.value;
    var c := TableAt(s, it.table).buckets[it.index];
    assert c == ChainOf(TableAt(s, it.table), n, hash);
    var p := Position(c, n);
    if p + 1 < |c| { PlaceIsPosition(s, it.table, it.index, p + 1, hash); }
    HoldsIsLive(s, n, hash);
  }

  lemma NextInBucket(s: State, it: Iter, hash: HashFn)
    requires Valid(s, hash) && IterOk(s, it, hash) && it.nextEntry.Some?
    ensures var (_, it', out) := Next(s, it); GoodNext(s, it, it', out, hash)
  {
    hide Valid, TableOk, KeysUnique, MapOf, DueIn;
    var it' := Next(s, it).1;
    NextEntryOk(s, it, hash);
    forall x ensures Due(s, it', x, hash) <==> Due(s, it, x, hash) && x != it.nextEntry.value {
      InBucketDue(s, it, it', 0, x, hash);
      InBucketDue(s, it, it', 1, x, hash);
    }
  }

  lemma NextEntryOk(s: State, it: Iter, hash: HashFn)
    requires Valid(s, hash) && IterOk(s, it, hash) && it.nextEntry.Some?
    ensures IterOk(s, Next(s, it).1, hash) && Due(s, it, it.nextEntry.value, hash)
  {
    var n := it.nextEntry.value;
    var c := TableAt(s, it.table).buckets[it.index];
    var p := Position(c, n);
    if p + 1 < |c| { PlaceIsPosition(s, it.table, it.index, p + 1, hash); }
    assert DueIn(s, it, it.table, n, hash);
  }

  lemma NothingDue(s: State, it: Iter, hash: HashFn)
    requires Valid(s, hash) && IterOk(s, it, hash) && it.nextEntry.None?
    requires Seek(s, it.table, it.index + 1).None?
    ensures forall x :: !Due(s, it, x, hash)
  {
    hide TableOk, KeysUnique, MapOf, Seek;
    SeekOk(s, it.table, it.index + 1);
    forall x ensures !Due(s, it, x, hash) {
      if Holds(s, 0, x, hash) { HomeNotEmpty(s, 0, x, hash); }
      if Holds(s, 1, x, hash) { HomeNotEmpty(s, 1, x, hash); }
    }
  }

  lemma EnterDueHere(s: State, it: Iter, it': Iter, x: Key, hash: HashFn)
    requires Valid(s, hash) && IterOk(s, it, hash) && it.nextEntry.None?
    requires Seek(s, it.table, it.index + 1).Some? && it' == Next(s, it).1
    requires var (t, i) := Seek(s, it.table, it.index + 1).value; Holds(s, t, x, hash) && Home(s, t, x, hash) == i
    ensures var (t, i) := Seek(s, it.table, it.index + 1).value;
            DueIn(s, it, t, x, hash) && (DueIn(s, it', t, x, hash) <==> x != TableAt(s, t).buckets[i][0].key)
  {
    hide Valid, TableOk, KeysUnique, MapOf, Seek;
    SeekOk(s, it.table, it.index + 1);
    var (t, i) := Seek(s, it.table, it.index + 1).value;
    var c := TableAt(s, t).buckets[i];
    PlaceIsPosition(s, t, i, 0, hash);
    if 1 < |c| { PlaceIsPosition(s, t, i, 1, hash); }
    assert ChainOf(TableAt(s, t), x, hash) == c;
  }

  lemma EnterDueElsewhere(s: State, it: Iter, it': Iter, u: nat, x: Key, hash: HashFn)
    requires Valid(s, hash) && IterOk(s, it, hash) && it.nextEntry.None? && u <= 1
    requires Seek(s, it.table, it.index + 1).Some? && it' == Next(s, it).1
    requires var (t, i) := Seek(s, it.table, it.index + 1).value;
             Holds(s, u, x, hash) && !(u == t && Home(s, u, x, hash) == i)
    ensures DueIn(s, it', u, x, hash) <==> DueIn(s, it, u, x, hash)
  {
    hide Valid, TableOk, KeysUnique, MapOf, Seek;
    SeekOk(s, it.table, it.index + 1);
    HomeNotEmpty(s, u, x, hash);
  }

  /** Entering a bucket takes just its first entry out of what is due. */
  lemma EnterDue(s: State, it: Iter, it': Iter, u: nat, x: Key, hash: HashFn)
    requires Valid(s, hash) && IterOk(s, it, hash) && it.nextEntry.None? && u <= 1
    requires Seek(s, it.table, it.index + 1).Some? && it' == Next(s, it).1
    ensures var (t, i) := Seek(s, it.table, it.index + 1).value;
            DueIn(s, it', u, x, hash) <==> DueIn(s, it, u, x, hash) && x != TableAt(s, t).buckets[i][0].key
  {
    hide Valid, TableOk, KeysUnique, MapOf, Seek, EnterBucket;
    SeekOk(s, it.table, it.index + 1);
    var (t, i) := Seek(s, it.table, it.index + 1).value;
    PlaceIsPosition(s, t, i, 0, hash);
    if Holds(s, u, x, hash) {
      if u == t && Home(s, u, x, hash) == i {
        EnterDueHere(s, it, it', x, hash);
      } else {
        EnterDueElsewhere(s, it, it', u, x, hash);
        HoldsIsLive(s, x, hash);
      }
    }
  }

  lemma EnterOk(s: State, it: Iter, hash: HashFn)
    requires Valid(s, hash) && IterOk(s, it, hash) && it.nextEntry.None?
    requires Seek(s, it.table, it.index + 1).Some?
    ensures var (t, i) := Seek(s, it.table, it.index + 1).value;
            IterOk(s, Next(s, it).1, hash) && Due(s, it, TableAt(s, t).buckets[i][0].key, hash)
  {
    hide Valid, TableOk, KeysUnique, MapOf, Seek;
    SeekOk(s, it.table, it.index + 1);
    var (t, i) := Seek(s, it.table, it.index + 1).value;
    var c := TableAt(s, t).buckets[i];
    PlaceIsPosition(s, t, i, 0, hash);
    if 1 < |c| { PlaceIsPosition(s, t, i, 1, hash); }
    assert DueIn(s, it, t, c[0].key, hash);
  }

  lemma NextBucket(s: State, it: Iter, hash: HashFn)
    requires Valid(s, hash) && IterOk(s, it, hash) && it.nextEntry.None?
    requires Seek(s, it.table, it.index + 1).Some?
    ensures var (_, it', out) := Next(s, it); GoodNext(s, it, it', out, hash)
  {
    hide Valid, TableOk, KeysUnique, MapOf, DueIn, Seek;
    var (t, i) := Seek(s, it.table, it.index + 1).value;
    var it' := Next(s, it).1;
    EnterOk(s, it, hash);
    forall x ensures Due(s, it', x, hash) <==> Due(s, it, x, hash) && x != TableAt(s, t).buckets[i][0].key {
      EnterDue(s, it, it', 0, x, hash);
      EnterDue(s, it, it', 1, x, hash);
    }
  }

  /** An iteration that has ended stays so: further calls return nothing. */
  lemma EndStays(s: State, it: Iter, hash: HashFn)
    requires Valid(s, hash) && IterOk(s, it, hash) && Next(s, it).2.None?
    ensures var (s', it', _) := Next(s, it);
            it'.index >= 0 && it'.nextEntry.None? && Next(s', it').0 == s' && Next(s', it').2.None?
  {
    hide TableOk, KeysUnique, MapOf;
    SeekOk(s, it.table, it.index + 1);
  }

  lemma NextOk(s: State, it: Iter, hash: HashFn)
    requires Valid(s, hash) && IterOk(s, it, hash)
    ensures var (s', it', out) := Next(s, it);
            && GoodNext(s, it, it', out, hash)
            && Valid(s', hash) && Contents(s', hash) == Contents(s, hash) && s'.iterators >= s.iterators
            && s' == s.(iterators := s'.iterators)
  {
    hide TableOk, KeysUnique, MapOf, Seek, Due;
    if it.nextEntry.Some? {
      NextInBucket(s, it, hash);
    } else if Seek(s, it.table, it.index + 1).Some? {
      NextBucket(s, it, hash);
    } else {
      NothingDue(s, it, hash);
    }
  }
}
