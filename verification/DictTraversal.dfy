/** `dictScan` and the safe iterator over the linked tables in memory, proved against the
    functions of DictScan and DictIter. */
module DictTraversal {
  import opened Words
  import opened Cursor
  import opened DictState
  import opened DictOps
  import opened DictHeap
  import opened Wrappers
  import DictScan
  import DictIter
  import DictSafeIter

  /** The callback applied along one chain; the entries it was given are recorded. */
  method EmitChain(d: Dict, head: DictEntry?, ghost c: Chain, emitted: seq<Entry>) returns (r: seq<Entry>)
    requires Mirrors(d.cells) && ChainOk(head, c, d.cells)
    ensures r == emitted + c
  {
    r := emitted;
    var de := head;
    ghost var p := 0;
    while de != null
      invariant p <= |c| && de == NodeAt(c, p, d.cells) && r == emitted + c[..p]
      decreases |c| - p
    {
      assert de.key == c[p].key && de.val == c[p].val;
      r := r + [Entry(de.key, de.val)];
      de, p := de.next, p + 1;
    }
    assert c[..p] == c;
  }

  /** Only the low bits of a cursor decide the next one. */
  lemma NextCursorOfLow(v: word, w: word, k: nat)
    requires k <= WORD_BITS && Low(v, k) == Low(w, k)
    ensures NextCursor(v, Mask(k)) == NextCursor(w, Mask(k))
  {
    hide *;
    BlockOfLow(v, w, k);
    NextCursorBlock(v, k);
    NextCursorBlock(w, k);
  }

  /** The last lines of `dictScan`. */
  method Advance(v: word, m0: word) returns (next: word)
    ensures next == NextCursor(v, m0)
  {
    var r := Rev(OrWord(v, Not(m0)));
    next := Rev(Increment(r));
  }

  /** The `do` loop over the larger table `t1`. */
  method EmitLoop(d: Dict, t1: array<DictEntry?>, ghost t: Table, v: word, m0: word, m1: word,
                  ghost k0: nat, ghost k1: nat, emitted: seq<Entry>) returns (w: word, r: seq<Entry>)
    requires Mirrors(d.cells) && TableLinked(t1[..], t.buckets, d.cells)
    requires k0 <= k1 <= WORD_BITS && m0 == Mask(k0) && m1 == Mask(k1) && t1.Length == m1 + 1
    ensures |t.buckets| > 0 && r == emitted + DictScan.LoopEmits(t, v, k0, k1)
    ensures Low(w, k0) == Low(v, k0)
  {
    hide Low, ChainOk, StepHigh, Mid, Mask, Pow2;
    w, r := v, emitted;
    var more := true;
    while more
      invariant Low(w, k0) == Low(v, k0) && |t.buckets| > 0
      invariant r + (if more then DictScan.LoopEmits(t, w, k0, k1) else []) == emitted + DictScan.LoopEmits(t, v, k0, k1)
      decreases more, Pow2(k1 - k0) - Mid(w, k0, k1)
    {
      DictScan.LoopTurn(w, k0, k1);
      DictScan.LoopStops(w, k0, k1);
      r := EmitChain(d, t1[And(w, m1)], t.buckets[And(w, m1)], r);
      w := StepHigh(w, m0);
      more := And(w, Xor(m0, m1)) != 0;
    }
  }

  /** `dictScan`. */
  method Scan(d: Dict, v: word) returns (next: word, emitted: seq<Entry>)
    requires d.Valid() && DictScan.Scannable(d.s, d.hash)
    ensures next == DictScan.Next(d.s, v, d.hash)
    ensures emitted == DictScan.Emits(d.s, v, d.hash)
  {
    hide ChainOk, NextCursor, DictScan.LoopEmits, TableOk, KeysUnique, Contents, DictScan.FitsWord, Low, Entries,
      RehashOk;
    if d.used0 + d.used1 == 0 { return 0, []; }
    DictScan.SizeIs(d.s.ht0);
    if d.rehashidx == -1 {
      var m0: word := d.table0.Length - 1;
      emitted := EmitChain(d, d.table0[And(v, m0)], d.s.ht0.buckets[And(v, m0)], []);
      next := Advance(v, m0);
    } else {
      DictScan.SizeIs(d.s.ht1);
      DictScan.SmallerFirst(d.s, d.hash);
      ghost var small, large := DictScan.Smaller(d.s), DictScan.Larger(d.s);
      ghost var k0, k1 := DictScan.Exponent(small), DictScan.Exponent(large);
      var t0, t1 := d.table0, d.table1;
      if t0.Length > t1.Length { t0, t1 := t1, t0; }
      var m0: word, m1: word := t0.Length - 1, t1.Length - 1;
      emitted := EmitChain(d, t0[And(v, m0)], small.buckets[And(v, m0)], []);
      var w;
      w, emitted := EmitLoop(d, t1, large, v, m0, m1, k0, k1, emitted);
      NextCursorOfLow(v, w, k0);
      next := Advance(w, m0);
    }
  }

  // ---------- The safe iterator ----------

  /** `DictIterator` with `safe` set. Its value is the ghost field `it`. */
  class SafeIterator {
    const d: Dict
    var index: int
    var table: nat
    var entry: DictEntry?
    var nextEntry: DictEntry?
    ghost var it: DictIter.Iter

    /** `dictGetSafeIterator`. */
    constructor (d: Dict)
      requires d.Valid()
      ensures this.d == d && it == DictIter.FRESH_ITER && Valid()
    {
      this.d := d;
      index, table, entry, nextEntry := -1, 0, null, null;
      it := DictIter.FRESH_ITER;
    }

    ghost predicate Points(e: DictEntry?, k: Option<Key>)
      reads d
    {
      match k
      case None => e == null
      case Some(x) => x in d.cells && e == d.cells[x].node
    }

    /** The dictionary is valid and the iterator stands somewhere in it. The entry just
        returned may have been deleted, so only its being null matters. */
    ghost predicate Valid()
      reads this, d, d.table0, d.table1, NodesOf(d.cells)
    {
      && d.Valid() && DictIter.IterOk(d.s, it, d.hash)
      && index == it.index && table == it.table
      && (entry == null <==> it.entry.None?) && (entry == null ==> nextEntry == null)
      && Points(nextEntry, it.nextEntry)
    }

    /** The branch of `dictNext` that loads the next bucket; `done` when there is none. */
    method LoadBucket() returns (done: bool)
      requires d.Valid() && index >= -1 && table <= 1 && (table == 1 ==> IsRehashing(d.s)) && entry == null
      modifies this`index, this`table, this`entry, this`it
      ensures d.Valid() && table <= 1 && (table == 1 ==> IsRehashing(d.s)) && index >= 0
      ensures old(table) <= table && (table == old(table) ==> index == old(index) + 1)
      ensures done ==> DictIter.Seek(d.s, old(table), old(index) + 1).None?
                       && entry == null && table == old(table) && index == old(index) + 1
                       && index >= DictIter.BucketSize(d.s, table) && (IsRehashing(d.s) ==> table == 1)
      ensures !done ==> index < DictIter.BucketSize(d.s, table)
                        && entry == NodeAt(DictIter.TableAt(d.s, table).buckets[index], 0, d.cells)
                        && DictIter.Seek(d.s, old(table), old(index) + 1)
                        == (if entry != null then Some((table, index as nat)) else DictIter.Seek(d.s, table, index + 1))
    {
      hide TableOk, KeysUnique, Contents, ChainOk, Entries;
      var size := if table == 0 then d.table0.Length else d.table1.Length;
      index := index + 1;
      if index >= size {
        if d.rehashidx != -1 && table == 0 {
          table := table + 1;
          index := 0;
        } else {
          return true;
        }
      }
      HeadOfBucket(d, table, index);
      entry := if table == 0 then d.table0[index] else d.table1[index];
      return false;
    }

    /** Hand out `entry`, which stands at place `p` of the bucket, and note what follows it. */
    method Settle(ghost p: nat, ghost it': DictIter.Iter)
      requires d.Valid() && table <= 1 && 0 <= index < DictIter.BucketSize(d.s, table)
      requires var c := DictIter.TableAt(d.s, table).buckets[index];
               && p < |c| && entry == NodeAt(c, p, d.cells)
               && it' == DictIter.Iter(index, table, Some(c[p].key), DictIter.KeyAt(c, p + 1))
      requires DictIter.IterOk(d.s, it', d.hash)
      modifies this`nextEntry, this`it
      ensures Valid() && it == it' && entry != null && Some(entry.key) == it'.entry
      ensures entry.key in d.cells && entry == d.cells[entry.key].node
    {
      hide TableOk, KeysUnique, Contents, TableLinked, DictIter.IterOk, ChainOk, Entries, RehashOk;
      AtPlace(d, table, index, p);
      nextEntry := entry.next;
      it := it';
    }

    /** The rounds of `dictNext` in which there is no current entry: on to the next bucket
        until one has an entry; `done` when none has. */
    method SkipToEntry() returns (done: bool)
      requires d.Valid() && index >= -1 && table <= 1 && (table == 1 ==> IsRehashing(d.s)) && entry == null
      requires index < DictIter.BucketSize(d.s, table)
      modifies this`index, this`table, this`entry, this`it
      ensures d.Valid() && table <= 1
      ensures var r := DictIter.Seek(d.s, old(table), old(index) + 1);
              && (done <==> r.None?)
              && (done ==> entry == null && table == (if IsRehashing(d.s) then 1 else old(table))
                           && index == DictIter.BucketSize(d.s, table))
              && (!done ==> entry != null && 0 <= index < DictIter.BucketSize(d.s, table)
                            && r == Some((table, index as nat))
                            && entry == NodeAt(DictIter.TableAt(d.s, table).buckets[index], 0, d.cells))
    {
      hide TableOk, KeysUnique, Contents, DictIter.Seek, ChainOk, Entries, RehashOk, TableLinked, MapOf;
      ghost var t0, i0 := table, index + 1;
      while entry == null
        invariant d.Valid() && t0 <= table <= 1 && (table == 1 ==> IsRehashing(d.s))
        invariant -1 <= index < DictIter.BucketSize(d.s, table)
        invariant if entry == null then
                    DictIter.Seek(d.s, table, index + 1) == DictIter.Seek(d.s, t0, i0)
                  else
                    && index >= 0 && Some((table, index as nat)) == DictIter.Seek(d.s, t0, i0)
                    && entry == NodeAt(DictIter.TableAt(d.s, table).buckets[index], 0, d.cells)
        decreases entry == null, 1 - table, DictIter.BucketSize(d.s, table) - index
      {
        done := LoadBucket();
        if done { return; }
      }
      done := false;
    }

    /** `dictNext` when there is no current entry. */
    method NextFromBuckets(ghost it0: DictIter.Iter) returns (e: DictEntry?)
      requires d.Valid() && DictIter.IterOk(d.s, it0, d.hash) && it0.nextEntry.None?
      requires index == it0.index && table == it0.table && entry == null
      modifies this, d`iterators, d`s
      ensures d.Valid() && d.cells == old(d.cells)
      ensures (d.s, it, if e == null then None else Some(e.key)) == DictIter.Next(old(d.s), it0)
      ensures index == it.index && table == it.table
      ensures e != null ==> Valid() && e.key in d.cells && e == d.cells[e.key].node
    {
      hide TableOk, KeysUnique, Contents, DictIter.Seek, DictIter.IterOk, ChainOk, Entries, RehashOk, TableLinked,
        DictState.Valid, DictIter.Next, DictIter.Stopped;
      ghost var s0 := d.s;
      ghost var step := BucketStep(s0, it0, d.hash);
      if index == -1 && table == 0 { Lock(); }
      var done := SkipToEntry();
      if done {
        it := step.1;
        return null;
      }
      Settle(0, step.1);
      return entry;
    }

    /** `dictNext`. */
    method Next() returns (e: DictEntry?)
      requires Valid()
      modifies this, d`iterators, d`s
      ensures d.Valid() && d.cells == old(d.cells)
      ensures (d.s, it, if e == null then None else Some(e.key)) == DictIter.Next(old(d.s), old(it))
      ensures index == it.index && table == it.table
      ensures e != null ==> Valid() && e.key in d.cells && e == d.cells[e.key].node
    {
      hide TableOk, KeysUnique, Contents, DictIter.Seek, DictIter.IterOk, DictIter.Due, ChainOk, Entries, RehashOk,
        TableLinked;
      IterBounds(d.s, it, d.hash);
      if entry != null {
        entry := nextEntry;
        if entry != null {
          DictIter.NextOk(d.s, it, d.hash);
          ghost var p := PlaceOfNext(d, it);
          Settle(p, DictIter.Next(d.s, it).1);
          return entry;
        }
      }
      e := NextFromBuckets(it);
    }

    /** Take the lock on rehashing. */
    method Lock()
      requires d.Valid()
      modifies d`iterators, d`s
      ensures d.Valid() && d.s == old(d.s).(iterators := old(d.s).iterators + 1)
    {
      hide TableOk, KeysUnique, ChainOk, MapOf;
      d.iterators := d.iterators + 1;
      d.s := d.s.(iterators := d.s.iterators + 1);
    }

    /** `dictReleaseIterator`: an iterator that was started gives its lock back. */
    method Release()
      requires d.Valid() && (!(index == -1 && table == 0) ==> d.iterators > 0)
      modifies d`iterators, d`s
      ensures d.Valid() && d.cells == old(d.cells)
      ensures d.s == if index == -1 && table == 0 then old(d.s)
                     else old(d.s).(iterators := old(d.s).iterators - 1)
    {
      if !(index == -1 && table == 0) {
        d.iterators := d.iterators - 1;
        d.s := d.s.(iterators := d.s.iterators - 1);
      }
    }

    /** Adding to the dictionary leaves an open safe iterator usable, and it still owes every
        other key it owed. */
    method AddDuring(k: Key, v: Value, canResize: bool) returns (ok: bool)
      requires Valid() && index >= 0 && d.iterators > 0
      modifies d, d.table0, d.table1, NodesOf(d.cells)
      ensures Valid() && it == old(it)
      ensures (d.s, ok) == Add(old(d.s), k, v, canResize, d.hash)
      ensures forall x | x != k :: DictIter.Due(d.s, it, x, d.hash) <==> DictIter.Due(old(d.s), it, x, d.hash)
    {
      hide TableOk, KeysUnique, Contents, DictIter.IterOk, DictIter.Due, ChainOk, Entries, RehashOk, TableLinked,
        Add, Mirrors;
      DictSafeIter.AddUndisturbed(d.s, it, k, v, canResize, d.hash);
      ok := d.Add(k, v, canResize);
    }

    /** So does deleting the entry that was returned last. */
    method DeleteDuring(k: Key) returns (ok: bool)
      requires Valid() && index >= 0 && d.iterators > 0 && it.nextEntry != Some(k)
      modifies d, d.table0, d.table1, NodesOf(d.cells)
      ensures Valid() && it == old(it)
      ensures (d.s, ok) == Delete(old(d.s), k, d.hash)
      ensures forall x | x != k :: DictIter.Due(d.s, it, x, d.hash) <==> DictIter.Due(old(d.s), it, x, d.hash)
    {
      hide TableOk, KeysUnique, Contents, DictIter.IterOk, DictIter.Due, ChainOk, Entries, RehashOk, TableLinked,
        Delete, Mirrors;
      DictSafeIter.DeleteUndisturbed(d.s, it, k, d.hash);
      ok := d.Delete(k);
    }
  }

  /** The use of a safe iterator: call `dictNext` until it returns nothing, then release the
      iterator. Every key is returned once, and the dictionary is as it was. */
  method AllKeys(d: Dict) returns (keys: seq<Key>)
    requires d.Valid()
    modifies d`iterators, d`s
    ensures d.Valid() && d.s == old(d.s) && d.cells == old(d.cells)
    ensures forall k :: multiset(keys)[k] == if k in Contents(d.s, d.hash) then 1 else 0
  {
    hide TableOk, KeysUnique, Contents, DictIter.Next, DictIter.IterOk, DictIter.Due, ChainOk, Entries, RehashOk,
      TableLinked, Mirrors, DictSafeIter.SessionOk, DictSafeIter.NextInSession, DictSafeIter.DueKeys;
    var iter := new SafeIterator(d);
    ghost var s0 := d.s;
    ghost var x := DictSafeIter.Opened(s0, d.hash);
    keys := [];
    var done := false;
    DictSafeIter.SessionIsLive(x, d.hash);
    while true
      invariant d.Valid() && d.cells == old(d.cells) && iter.d == d && iter.Valid() && iter.it == x.it
      invariant DictSafeIter.SessionOk(x, d.hash) && DictSafeIter.Live(x, d.hash) && !x.ended
      invariant x.start == Contents(s0, d.hash).Keys && x.deleted == {}
      invariant x.s == d.s && x.returned == keys
      invariant d.s == if iter.index == -1 && iter.table == 0 then s0 else s0.(iterators := s0.iterators + 1)
      decreases |DictSafeIter.DueKeys(x, d.hash)|
    {
      DictSafeIter.SessionCall(x, d.hash);
      var e := iter.Next();
      x := DictSafeIter.NextInSession(x);
      if e == null { break; }
      keys := keys + [e.key];
    }
    DictSafeIter.SessionGivesAll(x, d.hash);
    iter.Release();
  }

  /** Where the saved next entry stands in its bucket. */
  lemma PlaceOfNext(d: Dict, it: DictIter.Iter) returns (p: nat)
    requires d.Valid() && DictIter.IterOk(d.s, it, d.hash)
    ensures it.nextEntry.Some? ==>
              var c := DictIter.TableAt(d.s, it.table).buckets[it.index];
              && p == Position(c, it.nextEntry.value) && p < |c| && c[p].key == it.nextEntry.value
              && it.nextEntry.value in d.cells && NodeAt(c, p, d.cells) == d.cells[it.nextEntry.value].node
  {
    if it.nextEntry.Some? {
      p := Position(DictIter.TableAt(d.s, it.table).buckets[it.index], it.nextEntry.value);
      AtPlace(d, it.table, it.index, p);
    } else {
      p := 0;
    }
  }

  /** What a call of `dictNext` gives when the current bucket is used up. */
  lemma BucketStep(s: State, it: DictIter.Iter, hash: HashFn) returns (step: (State, DictIter.Iter, Option<Key>))
    requires Valid(s, hash) && DictIter.IterOk(s, it, hash) && it.nextEntry.None?
    ensures it.index >= -1 && it.table <= 1 && (it.table == 1 ==> IsRehashing(s))
    ensures it.index < DictIter.BucketSize(s, it.table) && step == DictIter.Next(s, it)
    ensures var s' := if it.index == -1 && it.table == 0 then s.(iterators := s.iterators + 1) else s;
            var r := DictIter.Seek(s', it.table, it.index + 1);
            && step.0 == s'
            && (r.None? ==>
                  && step.2.None?
                  && step.1.table == (if IsRehashing(s) then 1 else it.table)
                  && step.1.index == DictIter.BucketSize(s, step.1.table))
            && (r.Some? ==>
                  var c := DictIter.TableAt(s, r.value.0).buckets[r.value.1];
                  && c != [] && step.2 == Some(c[0].key) && DictIter.IterOk(s', step.1, hash)
                  && step.1 == DictIter.Iter(r.value.1, r.value.0, Some(c[0].key), DictIter.KeyAt(c, 1)))
  {
    hide TableOk, KeysUnique, Contents, DictIter.Seek, DictIter.IterOk, DictIter.Due, Entries, RehashOk;
    IterBounds(s, it, hash);
    DictIter.NextOk(s, it, hash);
    step := DictIter.Next(s, it);
    SeekLocked(s, step.0, it.table, it.index + 1);
    if step.2.Some? { IterOkLocked(s, step.0, step.1, hash); }
  }

  lemma IterBounds(s: State, it: DictIter.Iter, hash: HashFn)
    requires DictIter.IterOk(s, it, hash)
    ensures it.index >= -1 && it.table <= 1 && (it.table == 1 ==> IsRehashing(s))
    ensures it.index < DictIter.BucketSize(s, it.table)
    ensures it.nextEntry.Some? ==> 0 <= it.index < DictIter.BucketSize(s, it.table)
    ensures it.entry.Some? ==> it.index >= 0
  {
  }

  lemma HeadOfBucket(d: Dict, t: nat, i: nat)
    requires d.Valid() && t <= 1 && i < DictIter.BucketSize(d.s, t)
    ensures t == 0 ==> i < d.table0.Length && d.table0[i] == NodeAt(d.s.ht0.buckets[i], 0, d.cells)
    ensures t == 1 ==> i < d.table1.Length && d.table1[i] == NodeAt(d.s.ht1.buckets[i], 0, d.cells)
    ensures NodeAt(DictIter.TableAt(d.s, t).buckets[i], 0, d.cells) == null <==> DictIter.TableAt(d.s, t).buckets[i] == []
  {
    if t == 0 {
      NullIsEmpty(d.table0[..], d.s.ht0.buckets, i, d.cells);
    } else {
      NullIsEmpty(d.table1[..], d.s.ht1.buckets, i, d.cells);
    }
  }

  lemma IterOkLocked(s: State, s': State, it: DictIter.Iter, hash: HashFn)
    requires s' == s.(iterators := s'.iterators) && DictIter.IterOk(s, it, hash)
    ensures DictIter.IterOk(s', it, hash)
  {
  }

  /** The objects at a place of a bucket and behind it. */
  lemma AtPlace(d: Dict, t: nat, i: nat, p: nat)
    requires d.Valid() && t <= 1 && i < DictIter.BucketSize(d.s, t) && p < |DictIter.TableAt(d.s, t).buckets[i]|
    ensures var c := DictIter.TableAt(d.s, t).buckets[i];
            && c[p].key in d.cells && d.cells[c[p].key].node.key == c[p].key
            && d.cells[c[p].key].node.next == NodeAt(c, p + 1, d.cells)
            && NodeAt(c, p, d.cells) == d.cells[c[p].key].node
            && (p + 1 < |c| ==> c[p + 1].key in d.cells)
  {
  }

  lemma {:induction false} SeekLocked(s: State, s': State, t: nat, i: nat)
    requires s' == s.(iterators := s'.iterators)
    ensures DictIter.Seek(s', t, i) == DictIter.Seek(s, t, i)
    decreases if t == 0 then 1 else 0, DictIter.BucketSize(s, t) - i
  {
    if i >= DictIter.BucketSize(s, t) {
      if IsRehashing(s) && t == 0 { SeekLocked(s, s', 1, 0); }
    } else {
      SeekLocked(s, s', t, i + 1);
    }
  }
}
