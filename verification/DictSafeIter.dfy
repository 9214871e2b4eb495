/** Operations between the calls of an open safe iterator, and whole iterations. */
module DictSafeIter {
  import opened Words
  import opened DictState
  import opened DictOps
  import opened DictRuns
  import opened DictIter
  import opened DictRehashIter
  import opened Wrappers

  // ---------- Operations leave the order of a chain alone ----------

  /** Apart from the keys in `except`, `c'` holds the keys of `c` in the same order. */
  ghost predicate SameOrder(c: Chain, c': Chain, except: set<Key>) {
    && (forall a | a !in except :: InChain(c, a) <==> InChain(c', a))
    && (forall a, b | a !in except && b !in except && InChain(c, a) && InChain(c, b) ::
          Position(c, a) >= Position(c, b) <==> Position(c', a) >= Position(c', b))
  }

  ghost predicate SameTable(t: Table, t': Table, except: set<Key>) {
    && |t'.buckets| == |t.buckets|
    && forall i | 0 <= i < |t.buckets| :: SameOrder(t.buckets[i], t'.buckets[i], except)
  }

  lemma PrependOrder(c: Chain, e: Entry)
    ensures SameOrder(c, [e] + c, {e.key})
  {
    assert ([e] + c)[1..] == c;
    forall a | a != e.key ensures Position([e] + c, a) == 1 + Position(c, a) { }
  }

  lemma {:induction false} CutPosition(c: Chain, p: nat, a: Key)
    requires p < |c| && c[p].key != a
    ensures var q := Position(c, a);
            Position(c[..p] + c[p + 1..], a) == if q > p then q - 1 else q
    decreases |c|
  {
    var d := c[..p] + c[p + 1..];
    if p == 0 {
      assert d == c[1..];
    } else {
      assert d[0] == c[0] && d[1..] == c[1..][..p - 1] + c[1..][p..];
      CutPosition(c[1..], p - 1, a);
    }
  }

  lemma CutOrder(c: Chain, k: Key)
    requires InChain(c, k)
    ensures SameOrder(c, Without(c, k), {k})
  {
    var p := Position(c, k);
    var d := Without(c, k);
    forall a | a != k ensures Position(d, a) == if Position(c, a) > p then Position(c, a) - 1 else Position(c, a) {
      CutPosition(c, p, a);
    }
    forall a | a != k && InChain(c, a) ensures Position(c, a) != p { }
  }

  lemma {:induction false} AssignPosition(c: Chain, p: nat, e: Entry, a: Key)
    requires p < |c| && c[p].key == e.key
    ensures Position(c[p := e], a) == Position(c, a)
    decreases |c|
  {
    if p == 0 {
      assert c[0 := e][1..] == c[1..];
    } else {
      assert c[p := e][1..] == c[1..][p - 1 := e];
      AssignPosition(c[1..], p - 1, e, a);
    }
  }

  lemma AssignOrder(c: Chain, p: nat, e: Entry)
    requires p < |c| && c[p].key == e.key
    ensures SameOrder(c, c[p := e], {})
  {
    forall a ensures Position(c[p := e], a) == Position(c, a) { AssignPosition(c, p, e, a); }
  }

  lemma UpdateSame(t: Table, k: Key, c: Chain, used: nat, except: set<Key>, hash: HashFn)
    requires |t.buckets| > 0 && SameOrder(ChainOf(t, k, hash), c, except)
    ensures SameTable(t, SetChain(t, k, c, used, hash), except)
  {
  }

  // ---------- What such a change does to an iterator ----------

  /** The tables keep their sizes and, apart from `except`, their keys in order. */
  ghost predicate SameTables(s: State, s': State, except: set<Key>) {
    && SameTable(s.ht0, s'.ht0, except) && SameTable(s.ht1, s'.ht1, except)
    && (IsRehashing(s) ==> IsRehashing(s'))
  }

  lemma SameHolds(s: State, s': State, t: nat, k: Key, except: set<Key>, hash: HashFn)
    requires SameTables(s, s', except) && k !in except && t <= 1
    ensures Holds(s, t, k, hash) <==> Holds(s', t, k, hash)
    ensures BucketSize(s, t) > 0 ==> Home(s, t, k, hash) == Home(s', t, k, hash)
  {
    if BucketSize(s, t) > 0 {
      var i := Home(s, t, k, hash);
      assert SameOrder(TableAt(s, t).buckets[i], TableAt(s', t).buckets[i], except);
    }
  }

  lemma SameDueIn(s: State, s': State, it: Iter, t: nat, k: Key, except: set<Key>, hash: HashFn)
    requires SameTables(s, s', except) && k !in except && t <= 1 && IterOk(s, it, hash)
    requires it.nextEntry.Some? ==> it.nextEntry.value !in except
    ensures DueIn(s, it, t, k, hash) <==> DueIn(s', it, t, k, hash)
  {
    SameHolds(s, s', t, k, except, hash);
    if Holds(s, t, k, hash) {
      var i := Home(s, t, k, hash);
      assert SameOrder(TableAt(s, t).buckets[i], TableAt(s', t).buckets[i], except);
    }
  }

  lemma SameDue(s: State, s': State, it: Iter, except: set<Key>, hash: HashFn)
    requires SameTables(s, s', except) && IterOk(s, it, hash)
    requires it.nextEntry.Some? ==> it.nextEntry.value !in except
    ensures IterOk(s', it, hash)
    ensures forall k | k !in except :: Due(s, it, k, hash) <==> Due(s', it, k, hash)
  {
    hide SameTables, DueIn, Holds, Home;
    IterStays(s, s', it, except, hash);
    forall k | k !in except ensures Due(s, it, k, hash) <==> Due(s', it, k, hash) {
      SameDueIn(s, s', it, 0, k, except, hash);
      SameDueIn(s, s', it, 1, k, except, hash);
    }
  }

  lemma IterStays(s: State, s': State, it: Iter, except: set<Key>, hash: HashFn)
    requires SameTables(s, s', except) && IterOk(s, it, hash)
    requires it.nextEntry.Some? ==> it.nextEntry.value !in except
    ensures IterOk(s', it, hash)
  {
    if it.nextEntry.Some? { SameHolds(s, s', it.table, it.nextEntry.value, except, hash); }
  }

  /** A second table that has just been made holds nothing, so it changes nothing. */
  lemma NewTableDue(s: State, s': State, it: Iter, hash: HashFn)
    requires IterOk(s, it, hash) && it.index >= 0 && !IsRehashing(s) && s.ht1 == NO_TABLE
    requires s'.ht0 == s.ht0 && (forall i | 0 <= i < |s'.ht1.buckets| :: s'.ht1.buckets[i] == [])
    ensures IterOk(s', it, hash)
    ensures forall k :: Due(s, it, k, hash) <==> Due(s', it, k, hash)
  {
    forall k ensures Due(s, it, k, hash) <==> Due(s', it, k, hash) {
      assert DueIn(s, it, 0, k, hash) <==> DueIn(s', it, 0, k, hash);
    }
  }

  /** An operation `s -> s'` that touches only the keys in `except` does not disturb `it`. */
  ghost predicate Undisturbed(s: State, s': State, it: Iter, except: set<Key>, hash: HashFn) {
    && IterOk(s', it, hash)
    && forall k | k !in except :: Due(s, it, k, hash) <==> Due(s', it, k, hash)
  }

  ghost predicate Open(s: State, it: Iter, hash: HashFn) {
    Valid(s, hash) && s.iterators > 0 && IterOk(s, it, hash) && it.index >= 0
  }

  lemma GrowthUndisturbed(s: State, it: Iter, canResize: bool, hash: HashFn)
    requires Open(s, it, hash)
    ensures Undisturbed(s, ExpandIfNeeded(s, canResize).0, it, {}, hash)
  {
    hide Due, IterOk, Expand, Valid;
    ExpandUndisturbed(s, INITIAL_SIZE, it, hash);
    ExpandUndisturbed(s, s.ht0.used * 2, it, hash);
  }

  lemma ExpandUndisturbed(s: State, size: nat, it: Iter, hash: HashFn)
    requires Open(s, it, hash)
    ensures Undisturbed(s, Expand(s, size).0, it, {}, hash)
  {
    hide TableOk, KeysUnique, Due, NextPower;
    var (s', ok) := Expand(s, size);
    if ok {
      NewTableDue(s, s', it, hash);
    }
  }

  lemma NextIsLive(s: State, it: Iter, hash: HashFn)
    requires Open(s, it, hash) && it.nextEntry.Some?
    ensures it.nextEntry.value in Contents(s, hash) && Due(s, it, it.nextEntry.value, hash)
  {
    HoldsIsLive(s, it.nextEntry.value, hash);
    assert DueIn(s, it, it.table, it.nextEntry.value, hash);
  }

  lemma InsertUndisturbed(s: State, it: Iter, e: Entry, hash: HashFn)
    requires Open(s, it, hash) && Indexable(s) && e.key !in Contents(s, hash)
    ensures Undisturbed(s, Insert(s, e, hash), it, {e.key}, hash)
  {
    hide Due, Valid, MapOf, IterOk, SameOrder;
    SameTableSelf(s.ht0, {e.key});
    SameTableSelf(s.ht1, {e.key});
    if it.nextEntry.Some? { NextIsLive(s, it, hash); }
    if IsRehashing(s) {
      PrependOrder(ChainOf(s.ht1, e.key, hash), e);
      UpdateSame(s.ht1, e.key, [e] + ChainOf(s.ht1, e.key, hash), s.ht1.used + 1, {e.key}, hash);
      SameDue(s, s.(ht1 := Prepend(s.ht1, e, hash)), it, {e.key}, hash);
    } else {
      PrependOrder(ChainOf(s.ht0, e.key, hash), e);
      UpdateSame(s.ht0, e.key, [e] + ChainOf(s.ht0, e.key, hash), s.ht0.used + 1, {e.key}, hash);
      SameDue(s, s.(ht0 := Prepend(s.ht0, e, hash)), it, {e.key}, hash);
    }
  }

  lemma SameTableSelf(t: Table, except: set<Key>)
    ensures SameTable(t, t, except)
  {
  }

  /** Adds, even ones that start a resize, disturb only the key they add. */
  lemma AddUndisturbed(s: State, it: Iter, k: Key, v: Value, canResize: bool, hash: HashFn)
    requires Open(s, it, hash)
    ensures var (s', added) := Add(s, k, v, canResize, hash);
            Undisturbed(s, s', it, if added then {k} else {}, hash)
  {
    hide Due, TableOk, KeysUnique, MapOf, IterOk, ValueIn, ExpandIfNeeded, RehashOk;
    var s2 := ExpandIfNeeded(s, canResize).0;
    ExpandIfNeededOk(s, canResize, hash);
    GrowthUndisturbed(s, it, canResize, hash);
    WhereOk(s2, k, hash);
    if k !in Contents(s2, hash) { InsertUndisturbed(s2, it, Entry(k, v), hash); }
  }

  lemma DeleteUndisturbed(s: State, it: Iter, k: Key, hash: HashFn)
    requires Open(s, it, hash) && it.nextEntry != Some(k)
    ensures var (s', deleted) := Delete(s, k, hash);
            Undisturbed(s, s', it, if deleted then {k} else {}, hash)
  {
    hide Due, Valid, MapOf, IterOk, SameOrder, ValueIn;
    SameTableSelf(s.ht0, {k});
    SameTableSelf(s.ht1, {k});
    if |s.ht0.buckets| > 0 {
      StepIndexable(s, hash);
      WhereOk(s, k, hash);
      if Where(s, k, hash) == 0 {
        CutOrder(ChainOf(s.ht0, k, hash), k);
        UpdateSame(s.ht0, k, Without(ChainOf(s.ht0, k, hash), k), s.ht0.used - 1, {k}, hash);
        SameDue(s, Delete(s, k, hash).0, it, {k}, hash);
      } else if Where(s, k, hash) == 1 {
        CutOrder(ChainOf(s.ht1, k, hash), k);
        UpdateSame(s.ht1, k, Without(ChainOf(s.ht1, k, hash), k), s.ht1.used - 1, {k}, hash);
        SameDue(s, Delete(s, k, hash).0, it, {k}, hash);
      }
    }
  }

  lemma AssignUndisturbed(s: State, it: Iter, k: Key, v: Value, hash: HashFn)
    requires Open(s, it, hash) && Indexable(s)
    ensures Where(s, k, hash) == 0 ==> Undisturbed(s, s.(ht0 := AssignIn(s.ht0, k, v, hash)), it, {}, hash)
    ensures Where(s, k, hash) == 1 ==> Undisturbed(s, s.(ht1 := AssignIn(s.ht1, k, v, hash)), it, {}, hash)
  {
    hide Due, Valid, IterOk, SameOrder, ValueIn;
    SameTableSelf(s.ht0, {});
    SameTableSelf(s.ht1, {});
    if Where(s, k, hash) == 0 {
      var c := ChainOf(s.ht0, k, hash);
      AssignOrder(c, Position(c, k), Entry(k, v));
      UpdateSame(s.ht0, k, c[Position(c, k) := Entry(k, v)], s.ht0.used, {}, hash);
      SameDue(s, s.(ht0 := AssignIn(s.ht0, k, v, hash)), it, {}, hash);
    } else if Where(s, k, hash) == 1 {
      var c := ChainOf(s.ht1, k, hash);
      AssignOrder(c, Position(c, k), Entry(k, v));
      UpdateSame(s.ht1, k, c[Position(c, k) := Entry(k, v)], s.ht1.used, {}, hash);
      SameDue(s, s.(ht1 := AssignIn(s.ht1, k, v, hash)), it, {}, hash);
    }
  }

  lemma ReplaceUndisturbed(s: State, it: Iter, k: Key, v: Value, canResize: bool, hash: HashFn)
    requires Open(s, it, hash)
    ensures var (s', isNew) := Replace(s, k, v, canResize, hash);
            Undisturbed(s, s', it, if isNew then {k} else {}, hash)
  {
    hide Due, TableOk, KeysUnique, MapOf, IterOk, ValueIn, Add, AssignIn;
    var (s1, added) := Add(s, k, v, canResize, hash);
    AddOk(s, k, v, canResize, hash);
    AddUndisturbed(s, it, k, v, canResize, hash);
    if !added {
      StepIndexable(s1, hash);
      WhereOk(s1, k, hash);
      AssignUndisturbed(s1, it, k, v, hash);
    }
  }

  // ---------- Whole iterations ----------

  /** An open safe iteration: the dictionary and the iterator, the keys returned so far, the
      keys deleted since the start, the keys there at the start, and whether it has ended. */
  datatype Session = Session(s: State, it: Iter, returned: seq<Key>, deleted: set<Key>,
                             start: set<Key>, ended: bool)

  /** A session opens with the first call of `dictNext`. */
  ghost function Opened(s: State, hash: HashFn): (x: Session)
    requires Valid(s, hash)
    ensures SessionOk(x, hash) && x.start == Contents(s, hash).Keys
  {
    OpenedOk(s, hash);
    Session(s, FRESH_ITER, [], {}, Contents(s, hash).Keys, false)
  }

  ghost function NextInSession(x: Session): Session
    requires x.it.index >= -1
    requires x.it.nextEntry.Some? ==> 0 <= x.it.index < BucketSize(x.s, x.it.table)
  {
    var (s', it', out) := Next(x.s, x.it);
    match out
    case Some(k) => x.(s := s', it := it', returned := x.returned + [k])
    case None => x.(s := s', it := it', ended := true)
  }

  /** A new entry for `k` would stand ahead of the iterator: in the second table while the
      iterator is in the first, or in a later bucket of the same table. */
  predicate AddedAhead(s: State, it: Iter, k: Key, canResize: bool, hash: HashFn) {
    var s2 := ExpandIfNeeded(s, canResize).0;
    var t := if IsRehashing(s2) then 1 else 0;
    t > it.table || (t == it.table && BucketSize(s2, t) > 0 && Index(hash(k), BucketSize(s2, t)) > it.index)
  }

  /** A key that is added during an iteration becomes due exactly when it is added ahead. */
  lemma AddDueExactly(s: State, it: Iter, k: Key, v: Value, canResize: bool, hash: HashFn)
    requires Open(s, it, hash) && k !in Contents(s, hash)
    ensures Due(Add(s, k, v, canResize, hash).0, it, k, hash) <==> AddedAhead(s, it, k, canResize, hash)
  {
    hide TableOk, KeysUnique, MapOf, Due, ExpandIfNeeded, Expand;
    var s2 := ExpandIfNeeded(s, canResize).0;
    ExpandIfNeededOk(s, canResize, hash);
    ContentsOfEntries(s, s2, hash);
    ExpandUndisturbed(s, INITIAL_SIZE, it, hash);
    ExpandUndisturbed(s, s.ht0.used * 2, it, hash);
    ExpandedIs(s, canResize);
    WhereOk(s2, k, hash);
    InsertDue(s2, it, Entry(k, v), hash);
  }

  lemma ExpandedIs(s: State, canResize: bool)
    ensures var s2 := ExpandIfNeeded(s, canResize).0;
            s2 == s || s2 == Expand(s, INITIAL_SIZE).0 || s2 == Expand(s, s.ht0.used * 2).0
  {
  }

  lemma InsertDue(s: State, it: Iter, e: Entry, hash: HashFn)
    requires Open(s, it, hash) && Indexable(s) && e.key !in Contents(s, hash)
    ensures var t := if IsRehashing(s) then 1 else 0;
            Due(Insert(s, e, hash), it, e.key, hash)
            <==> t > it.table || (t == it.table && Index(hash(e.key), BucketSize(s, t)) > it.index)
  {
    hide TableOk, KeysUnique, MapOf, Entries;
    var s' := Insert(s, e, hash);
    HoldsIsLive(s, e.key, hash);
    if it.nextEntry.Some? { NextIsLive(s, it, hash); }
    var t := if IsRehashing(s) then 1 else 0;
    assert ChainOf(TableAt(s', t), e.key, hash) == [e] + ChainOf(TableAt(s, t), e.key, hash);
    assert !DueIn(s', it, 1 - t, e.key, hash);
  }

  /** What may be done between two calls: look up, resize, add or replace a key, unless it has
      been deleted and would be added ahead of the iterator, delete only the entry just
      returned, and call for a rehash that does no harm. */
  ghost predicate Allowed(x: Session, op: Op, hash: HashFn)
    requires Valid(x.s, hash)
  {
    match op
    case OpAdd(k, _, can) => MayAdd(x, k, can, hash)
    case OpReplace(k, _, can) => MayAdd(x, k, can, hash)
    case OpFind(_) => true
    case OpDelete(k) => k !in Contents(x.s, hash) || x.it.entry == Some(k)
    case OpRehash(n) => HarmlessRehash(x, n, hash)
    case OpResize(_) => true
  }

  /** An explicit `dictRehash` leaves the iterator where it stands, and what it moves leaves no
      returned key ahead of it and no other one behind it. */
  ghost predicate HarmlessRehash(x: Session, n: nat, hash: HashFn)
    requires Valid(x.s, hash)
  {
    var r := Rehash(x.s, n, hash);
    IsRehashing(x.s) ==>
      && StaysPut(x.s, r, x.it)
      && (if IsRehashing(r) then forall k | k in x.returned :: !MovedAhead(x.s, r, x.it, k, hash)
          else forall k | k in Contents(x.s, hash) && (k in x.returned || k in x.start) ::
                 AheadInNew(x.s, x.it, k, hash) <==> k !in x.returned)
  }

  ghost predicate MayAdd(x: Session, k: Key, canResize: bool, hash: HashFn)
    requires Valid(x.s, hash)
  {
    k in Contents(x.s, hash) || k !in x.deleted || !AddedAhead(x.s, x.it, k, canResize, hash)
  }

  ghost function OpInSession(x: Session, op: Op, hash: HashFn): Session
    requires Valid(x.s, hash)
  {
    x.(s := Apply(x.s, op, hash).0,
       deleted := if op.OpDelete? && op.key in Contents(x.s, hash) then x.deleted + {op.key} else x.deleted)
  }

  ghost predicate NoRepeats(keys: seq<Key>) {
    forall i, j | 0 <= i < j < |keys| :: keys[i] != keys[j]
  }

  /** What holds after every step of a session. */
  ghost predicate SessionOk(x: Session, hash: HashFn) {
    && Valid(x.s, hash)
    && (x.it == FRESH_ITER || x.s.iterators > 0)
    && (!x.ended ==> IterOk(x.s, x.it, hash))
    && NoRepeats(x.returned)
    && (!x.ended ==> forall k | k in x.returned :: !Due(x.s, x.it, k, hash))
    && (forall k | k in x.returned :: k in Contents(x.s, hash) || k in x.deleted)
    && (forall k | k in x.deleted :: k in x.returned)
    && (forall k | k in x.start :: k in x.returned || (!x.ended && Due(x.s, x.it, k, hash)))
    && (x.it.entry.Some? ==> x.it.entry.value in x.returned)
  }

  lemma FreshAllDue(s: State, k: Key, hash: HashFn)
    requires Valid(s, hash)
    ensures k in Contents(s, hash) <==> Due(s, FRESH_ITER, k, hash)
  {
    HoldsIsLive(s, k, hash);
  }

  lemma OpenedOk(s: State, hash: HashFn)
    requires Valid(s, hash)
    ensures SessionOk(Session(s, FRESH_ITER, [], {}, Contents(s, hash).Keys, false), hash)
  {
    forall k | k in Contents(s, hash) ensures Due(s, FRESH_ITER, k, hash) { FreshAllDue(s, k, hash); }
  }

  lemma DueIsLive(s: State, it: Iter, k: Key, hash: HashFn)
    requires Valid(s, hash) && Due(s, it, k, hash)
    ensures k in Contents(s, hash)
  {
    HoldsIsLive(s, k, hash);
  }

  lemma NextKeepsSession(x: Session, hash: HashFn)
    requires SessionOk(x, hash) && !x.ended
    ensures SessionOk(NextInSession(x), hash)
  {
    hide Due, TableOk, KeysUnique, MapOf, Next;
    NextOk(x.s, x.it, hash);
    NextLocks(x.s, x.it, hash);
    var (s', it', out) := Next(x.s, x.it);
    DueOfLocked(x.s, s', hash);
    if out.Some? {
      DueIsLive(x.s, x.it, out.value, hash);
      var x' := NextInSession(x);
      forall k | k in x.returned ensures !Due(s', it', k, hash) { }
    }
  }

  lemma NextLocks(s: State, it: Iter, hash: HashFn)
    requires Valid(s, hash) && IterOk(s, it, hash)
    ensures it == FRESH_ITER ==> Next(s, it).0.iterators > 0
    ensures var (_, it', out) := Next(s, it); it'.entry == out && it'.index > -1
  {
  }

  /** Counting iterators moves no entry. */
  lemma DueOfLocked(s: State, s': State, hash: HashFn)
    requires s' == s.(iterators := s'.iterators)
    ensures forall it, k :: Due(s', it, k, hash) <==> Due(s, it, k, hash)
    ensures forall it :: IterOk(s', it, hash) <==> IterOk(s, it, hash)
  {
    forall it, k ensures Due(s', it, k, hash) <==> Due(s, it, k, hash) {
      assert DueIn(s', it, 0, k, hash) <==> DueIn(s, it, 0, k, hash);
      assert DueIn(s', it, 1, k, hash) <==> DueIn(s, it, 1, k, hash);
    }
  }

  /** The keys an operation adds to the map or takes out of it. */
  function Touched(m: map<Key, Value>, op: Op): set<Key> {
    match op
    case OpAdd(k, _, _) => if k in m then {} else {k}
    case OpReplace(k, _, _) => if k in m then {} else {k}
    case OpDelete(k) => if k in m then {k} else {}
    case _ => {}
  }

  lemma OpUndisturbed(x: Session, op: Op, hash: HashFn)
    requires SessionOk(x, hash) && !x.ended && x.it.index >= 0 && Allowed(x, op, hash) && !op.OpRehash?
    ensures Undisturbed(x.s, Apply(x.s, op, hash).0, x.it, Touched(Contents(x.s, hash), op), hash)
  {
    hide Due, TableOk, KeysUnique, MapOf, IterOk, Add, Replace, Delete, Find, Resize, Undisturbed, RehashOk;
    assert Open(x.s, x.it, hash);
    match op
    case OpAdd(k, v, can) =>
      AddUndisturbed(x.s, x.it, k, v, can, hash);
      AddOk(x.s, k, v, can, hash);
    case OpReplace(k, v, can) =>
      ReplaceUndisturbed(x.s, x.it, k, v, can, hash);
      ReplaceOk(x.s, k, v, can, hash);
    case OpFind(k) =>
      FindUndisturbed(x.s, x.it, k, hash);
    case OpDelete(k) =>
      if x.it.nextEntry.Some? { NextIsLive(x.s, x.it, hash); }
      DeleteUndisturbed(x.s, x.it, k, hash);
      DeleteOk(x.s, k, hash);
    case OpResize(can) =>
      ResizeUndisturbed(x.s, x.it, can, hash);
  }

  lemma ResizeUndisturbed(s: State, it: Iter, can: bool, hash: HashFn)
    requires Open(s, it, hash)
    ensures Undisturbed(s, Resize(s, can).0, it, {}, hash)
  {
    hide Valid, Due, IterOk, Expand;
    ExpandUndisturbed(s, if s.ht0.used < INITIAL_SIZE then INITIAL_SIZE else s.ht0.used, it, hash);
  }

  lemma FindUndisturbed(s: State, it: Iter, k: Key, hash: HashFn)
    requires Open(s, it, hash)
    ensures Find(s, k, hash).0 == s && Undisturbed(s, s, it, {}, hash)
  {
    hide Due, TableOk, KeysUnique, ValueIn;
  }

  /** A key that has been returned is not due after an add that is allowed. */
  lemma AddedNotDue(x: Session, op: Op, k: Key, hash: HashFn)
    requires SessionOk(x, hash) && !x.ended && x.it.index >= 0 && Allowed(x, op, hash) && !op.OpRehash?
    requires k in x.returned && k !in Contents(x.s, hash)
    ensures !Due(Apply(x.s, op, hash).0, x.it, k, hash)
  {
    hide Due, TableOk, KeysUnique, MapOf, IterOk, AddedAhead, Add, Replace, Delete, Find, Resize, RehashOk;
    OpUndisturbed(x, op, hash);
    assert k in x.deleted;
    match op
    case OpAdd(a, v, can) =>
      if a == k { AddDueExactly(x.s, x.it, k, v, can, hash); }
    case OpReplace(a, v, can) =>
      if a == k {
        AddDueExactly(x.s, x.it, k, v, can, hash);
        ReplaceIsAdd(x.s, k, v, can, hash);
      }
    case _ =>
  }

  lemma ReplaceIsAdd(s: State, k: Key, v: Value, canResize: bool, hash: HashFn)
    requires Valid(s, hash) && k !in Contents(s, hash)
    ensures Replace(s, k, v, canResize, hash).0 == Add(s, k, v, canResize, hash).0
  {
    hide Add, Valid, MapOf;
    AddOk(s, k, v, canResize, hash);
  }

  /** A rehash in an iteration that stays put keeps the session's promises exactly when it is
      harmless. */
  lemma RehashInSession(x: Session, n: nat, hash: HashFn)
    requires SessionOk(x, hash) && !x.ended && x.it.index >= 0 && IsRehashing(x.s)
    requires StaysPut(x.s, Rehash(x.s, n, hash), x.it)
    ensures var x' := OpInSession(x, OpRehash(n), hash);
            && Valid(x'.s, hash) && IterOk(x'.s, x'.it, hash) && Contents(x'.s, hash) == Contents(x.s, hash)
            && (SessionOk(x', hash) <==> HarmlessRehash(x, n, hash))
  {
    hide Due, TableOk, KeysUnique, MapOf, IterOk, Rehash, StaysPut, MovedAhead, AheadInNew, Moved, Entries, RehashOk;
    var r := Rehash(x.s, n, hash);
    RehashMoves(x.s, n, hash);
    StaysOk(x.s, n, x.it, hash);
    forall k | k in x.start && k !in x.returned ensures k in Contents(x.s, hash) { DueIsLive(x.s, x.it, k, hash); }
    if IsRehashing(r) {
      forall k ensures Due(r, x.it, k, hash) <==> Due(x.s, x.it, k, hash) || MovedAhead(x.s, r, x.it, k, hash) {
        StillRehashingDue(x.s, n, x.it, k, hash);
      }
    } else {
      forall k ensures Due(r, x.it, k, hash) <==> k in Contents(x.s, hash) && AheadInNew(x.s, x.it, k, hash) {
        FinishedDue(x.s, n, x.it, k, hash);
      }
    }
  }

  lemma OpKeepsSession(x: Session, op: Op, hash: HashFn)
    requires SessionOk(x, hash) && !x.ended && x.it.index >= 0 && Allowed(x, op, hash)
    ensures SessionOk(OpInSession(x, op, hash), hash)
  {
    if op.OpRehash? {
      if IsRehashing(x.s) { RehashInSession(x, op.n, hash); }
    } else {
      OtherOpKeepsSession(x, op, hash);
    }
  }

  lemma OtherOpKeepsSession(x: Session, op: Op, hash: HashFn)
    requires SessionOk(x, hash) && !x.ended && x.it.index >= 0 && Allowed(x, op, hash) && !op.OpRehash?
    ensures SessionOk(OpInSession(x, op, hash), hash)
  {
    hide Due, TableOk, KeysUnique, MapOf, IterOk, Apply;
    OpUndisturbed(x, op, hash);
    ApplyRefines(x.s, op, hash);
    var s' := Apply(x.s, op, hash).0;
    forall k | k in x.returned ensures !Due(s', x.it, k, hash) {
      if Due(s', x.it, k, hash) {
        DueIsLive(s', x.it, k, hash);
        AddedNotDue(x, op, k, hash);
      }
    }
    forall k | k in x.start && k !in x.returned ensures Due(s', x.it, k, hash) {
      DueIsLive(x.s, x.it, k, hash);
    }
  }

  datatype Event = CallNext | Do(op: Op)

  /** What the user of an open iterator may do next. */
  ghost predicate LegalEvent(x: Session, ev: Event, hash: HashFn)
    requires SessionOk(x, hash)
  {
    !x.ended && (ev.Do? ==> x.it.index >= 0 && Allowed(x, ev.op, hash))
  }

  ghost function AfterEvent(x: Session, ev: Event, hash: HashFn): (y: Session)
    requires SessionOk(x, hash) && LegalEvent(x, ev, hash)
    ensures SessionOk(y, hash) && y.start == x.start
  {
    match ev
    case CallNext =>
      NextKeepsSession(x, hash);
      NextInSession(x)
    case Do(op) =>
      OpKeepsSession(x, op, hash);
      OpInSession(x, op, hash)
  }

  /** Each of these events may happen when its turn comes. */
  ghost predicate LegalRun(x: Session, evs: seq<Event>, hash: HashFn)
    requires SessionOk(x, hash)
    decreases |evs|
  {
    evs != [] ==> LegalEvent(x, evs[0], hash) && LegalRun(AfterEvent(x, evs[0], hash), evs[1..], hash)
  }

  ghost function AfterRun(x: Session, evs: seq<Event>, hash: HashFn): (y: Session)
    requires SessionOk(x, hash) && LegalRun(x, evs, hash)
    ensures SessionOk(y, hash) && y.start == x.start
    decreases |evs|
  {
    if evs == [] then x else AfterRun(AfterEvent(x, evs[0], hash), evs[1..], hash)
  }

  lemma {:induction false} NoRepeatsCount(keys: seq<Key>, k: Key)
    requires NoRepeats(keys)
    ensures multiset(keys)[k] == if k in keys then 1 else 0
  {
    if keys != [] {
      var n := |keys| - 1;
      assert keys == keys[..n] + [keys[n]];
      NoRepeatsCount(keys[..n], k);
    }
  }

  // ---------- Calling dictNext to the end ----------

  ghost predicate Live(x: Session, hash: HashFn) {
    Valid(x.s, hash) && (!x.ended ==> IterOk(x.s, x.it, hash))
  }

  /** What a call of `dictNext` does to a session. */
  lemma CallNextOk(x: Session, hash: HashFn)
    requires Live(x, hash) && !x.ended
    ensures x.it.index >= -1 && (x.it.nextEntry.Some? ==> 0 <= x.it.index < BucketSize(x.s, x.it.table))
    ensures var y := NextInSession(x);
            && Live(y, hash)
            && (y.ended ==> y.returned == x.returned && forall k :: !Due(x.s, x.it, k, hash))
            && (!y.ended ==>
                  && |y.returned| == |x.returned| + 1 && y.returned[..|x.returned|] == x.returned
                  && Due(x.s, x.it, y.returned[|x.returned|], hash)
                  && forall k | k != y.returned[|x.returned|] :: Due(y.s, y.it, k, hash) <==> Due(x.s, x.it, k, hash))
  {
    hide Due, Valid, Next;
    NextOk(x.s, x.it, hash);
    DueOfLocked(x.s, Next(x.s, x.it).0, hash);
  }

  ghost function Called(x: Session, hash: HashFn): (y: Session)
    requires Live(x, hash) && !x.ended
    ensures Live(y, hash)
  {
    CallNextOk(x, hash);
    NextInSession(x)
  }

  /** `n` calls of `dictNext`, or fewer when the iteration ends. */
  ghost function NextMany(x: Session, n: nat, hash: HashFn): Session
    requires Live(x, hash)
    decreases n
  {
    if n == 0 || x.ended then x else NextMany(Called(x, hash), n - 1, hash)
  }

  ghost function DueKeys(x: Session, hash: HashFn): set<Key>
    requires Live(x, hash)
  {
    set k | k in Contents(x.s, hash).Keys && Due(x.s, x.it, k, hash)
  }

  /** Each call takes one key out of what is due, or ends the iteration. */
  lemma CallTakesOne(x: Session, hash: HashFn)
    requires Live(x, hash) && !x.ended
    ensures var y := Called(x, hash);
            !y.ended ==> exists k | k in DueKeys(x, hash) :: DueKeys(y, hash) == DueKeys(x, hash) - {k}
  {
    hide Due, Valid, Next, Contents;
    NextOk(x.s, x.it, hash);
    var (s', it', out) := Next(x.s, x.it);
    DueOfLocked(x.s, s', hash);
    if out.Some? {
      DueIsLive(x.s, x.it, out.value, hash);
      assert out.value in DueKeys(x, hash);
      assert DueKeys(Called(x, hash), hash) == DueKeys(x, hash) - {out.value};
    }
  }

  /** More calls of `dictNext` than there are keys due end the iteration. */
  lemma {:induction false} IterationEnds(x: Session, n: nat, hash: HashFn)
    requires Live(x, hash) && n > |DueKeys(x, hash)|
    ensures NextMany(x, n, hash).ended
    decreases n
  {
    hide Live, DueKeys, Called;
    if !x.ended {
      CallTakesOne(x, hash);
      var y := Called(x, hash);
      if y.ended {
        assert NextMany(y, n - 1, hash) == y;
      } else {
        IterationEnds(y, n - 1, hash);
      }
    }
  }

  lemma DueKeysAreFew(x: Session, hash: HashFn)
    requires Live(x, hash)
    ensures |DueKeys(x, hash)| <= |Contents(x.s, hash)|
  {
    hide Valid, IterOk, Due, Contents;
    SubsetSize(DueKeys(x, hash), Contents(x.s, hash).Keys);
  }

  lemma {:induction false} SubsetSize<T>(a: set<T>, b: set<T>)
    requires a <= b
    ensures |a| <= |b|
  {
    if a != {} {
      var x :| x in a;
      SubsetSize(a - {x}, b - {x});
    }
  }

  lemma SessionIsLive(x: Session, hash: HashFn)
    requires SessionOk(x, hash)
    ensures Live(x, hash)
  {
  }

  lemma {:induction false} NextManyKeepsSession(x: Session, n: nat, hash: HashFn)
    requires SessionOk(x, hash)
    ensures Live(x, hash) && SessionOk(NextMany(x, n, hash), hash) && NextMany(x, n, hash).start == x.start
    decreases n
  {
    hide SessionOk, Live;
    SessionIsLive(x, hash);
    if n > 0 && !x.ended {
      NextKeepsSession(x, hash);
      NextManyKeepsSession(Called(x, hash), n - 1, hash);
    }
  }

  lemma SessionGives(x: Session, hash: HashFn)
    requires SessionOk(x, hash)
    ensures forall k :: multiset(x.returned)[k] <= 1
    ensures x.ended ==> forall k | k in x.start :: multiset(x.returned)[k] == 1
  {
    forall k ensures multiset(x.returned)[k] == if k in x.returned then 1 else 0 {
      NoRepeatsCount(x.returned, k);
    }
  }

  /** When nothing has been deleted or added, an ended session has returned just the keys that
      were there. */
  lemma SessionGivesAll(x: Session, hash: HashFn)
    requires SessionOk(x, hash) && x.ended && x.deleted == {} && x.start == Contents(x.s, hash).Keys
    ensures forall k :: multiset(x.returned)[k] == if k in Contents(x.s, hash) then 1 else 0
  {
    SessionGives(x, hash);
    forall k ensures multiset(x.returned)[k] == if k in Contents(x.s, hash) then 1 else 0 {
      if k !in Contents(x.s, hash) { assert k !in x.returned; }
    }
  }

  /** What a call of `dictNext` on an open session gives, in terms of `DictIter.Next`. */
  lemma SessionCall(x: Session, hash: HashFn)
    requires SessionOk(x, hash) && !x.ended
    ensures Live(x, hash) && x.it.index >= -1
    ensures x.it.nextEntry.Some? ==> 0 <= x.it.index < BucketSize(x.s, x.it.table)
    ensures var (s', it', out) := Next(x.s, x.it);
            var y := NextInSession(x);
            && SessionOk(y, hash) && Live(y, hash) && y.start == x.start && y.deleted == x.deleted
            && y.s == s' == (if x.it.index == -1 && x.it.table == 0 then x.s.(iterators := x.s.iterators + 1) else x.s)
            && y.it == it' && it'.index >= 0
            && y.ended == out.None? && y.returned == (if out.Some? then x.returned + [out.value] else x.returned)
            && (!y.ended ==> |DueKeys(y, hash)| < |DueKeys(x, hash)|)
  {
    hide SessionOk, Live, DueKeys, IterOk, Valid, EnterBucket;
    SessionIsLive(x, hash);
    NextKeepsSession(x, hash);
    CallTakesOne(x, hash);
    CallNextOk(x, hash);
    LiveIs(x, hash);
    NextLocks(x.s, x.it, hash);
  }

  lemma LiveIs(x: Session, hash: HashFn)
    requires Live(x, hash) && !x.ended
    ensures Valid(x.s, hash) && IterOk(x.s, x.it, hash)
  {
  }

  /** Safe iteration: whatever is done in between, no key is returned twice; and calling
      `dictNext` once more than there are entries ends the iteration, with every key that was
      there at the start returned exactly once. */
  lemma SafeIteration(s: State, evs: seq<Event>, n: nat, hash: HashFn)
    requires Valid(s, hash) && LegalRun(Opened(s, hash), evs, hash)
    ensures var x := AfterRun(Opened(s, hash), evs, hash);
            && Live(x, hash)
            && (forall k :: multiset(x.returned)[k] <= 1)
            && (n > |Contents(x.s, hash)| ==>
                  var y := NextMany(x, n, hash);
                  && y.ended
                  && (forall k :: multiset(y.returned)[k] <= 1)
                  && forall k | k in Contents(s, hash) :: multiset(y.returned)[k] == 1)
  {
    hide SessionOk, Live, LegalRun, Contents;
    var x := AfterRun(Opened(s, hash), evs, hash);
    SessionIsLive(x, hash);
    SessionGives(x, hash);
    NextManyKeepsSession(x, n, hash);
    SessionGives(NextMany(x, n, hash), hash);
    if n > |Contents(x.s, hash)| {
      DueKeysAreFew(x, hash);
      IterationEnds(x, n, hash);
    }
  }

  // ---------- Adding a deleted key again ----------

  /** A key that is due is returned before the iteration ends, even if it has been returned. */
  lemma {:induction false} DueIsReturned(x: Session, n: nat, k: Key, hash: HashFn)
    requires Live(x, hash) && !x.ended && Due(x.s, x.it, k, hash)
    ensures var y := NextMany(x, n, hash);
            y.ended ==> multiset(y.returned)[k] > multiset(x.returned)[k]
    decreases n
  {
    hide Due, Live, NextInSession;
    if n > 0 {
      CallNextOk(x, hash);
      var y := Called(x, hash);
      var m := |x.returned|;
      assert y.returned == x.returned + [y.returned[m]];
      ReturnedGrows(y, n - 1, k, hash);
      if y.returned[m] != k { DueIsReturned(y, n - 1, k, hash); }
    }
  }

  lemma {:induction false} ReturnedGrows(x: Session, n: nat, k: Key, hash: HashFn)
    requires Live(x, hash)
    ensures multiset(NextMany(x, n, hash).returned)[k] >= multiset(x.returned)[k]
    decreases n
  {
    hide Due, Live, NextInSession;
    if n > 0 && !x.ended {
      CallNextOk(x, hash);
      var y := Called(x, hash);
      if !y.ended { assert y.returned == x.returned + [y.returned[|x.returned|]]; }
      ReturnedGrows(y, n - 1, k, hash);
    }
  }

  /** The condition on adds is exact. Adding a key that has been returned and deleted keeps the
      session's promises if the key is not added ahead of the iterator; if it is, the key is
      returned again by the calls that end the iteration. */
  lemma ReaddExactly(x: Session, k: Key, v: Value, can: bool, n: nat, hash: HashFn)
    requires SessionOk(x, hash) && !x.ended && x.it.index >= 0
    requires k in x.deleted && k !in Contents(x.s, hash)
    ensures var x' := OpInSession(x, OpAdd(k, v, can), hash);
            && Live(x', hash)
            && (SessionOk(x', hash) <==> !AddedAhead(x.s, x.it, k, can, hash))
            && (n > |Contents(x'.s, hash)| ==> NextMany(x', n, hash).ended)
            && (n > |Contents(x'.s, hash)| && AddedAhead(x.s, x.it, k, can, hash) ==>
                  multiset(NextMany(x', n, hash).returned)[k] >= 2)
  {
    hide Due, TableOk, KeysUnique, MapOf, IterOk, AddedAhead, Add, RehashOk, NextMany;
    AddDueExactly(x.s, x.it, k, v, can, hash);
    AddUndisturbed(x.s, x.it, k, v, can, hash);
    AddOk(x.s, k, v, can, hash);
    var x' := OpInSession(x, OpAdd(k, v, can), hash);
    DueKeysAreFew(x', hash);
    if n > |Contents(x'.s, hash)| { IterationEnds(x', n, hash); }
    if AddedAhead(x.s, x.it, k, can, hash) {
      DueIsReturned(x', n, k, hash);
      assert k in multiset(x.returned);
    } else {
      OpKeepsSession(x, OpAdd(k, v, can), hash);
    }
  }

  // ---------- Rehashing explicitly ----------

  /** A key that is not due is not returned. */
  lemma {:induction false} NotDueNotReturned(x: Session, n: nat, k: Key, hash: HashFn)
    requires Live(x, hash) && !Due(x.s, x.it, k, hash)
    ensures multiset(NextMany(x, n, hash).returned)[k] == multiset(x.returned)[k]
    decreases n
  {
    hide Due, Live, NextInSession;
    if n > 0 && !x.ended {
      CallNextOk(x, hash);
      var y := Called(x, hash);
      if y.ended {
        assert NextMany(y, n - 1, hash) == y;
      } else {
        assert y.returned == x.returned + [y.returned[|x.returned|]];
        NotDueNotReturned(y, n - 1, k, hash);
      }
    }
  }

  /** A returned key that a rehash makes due again is returned again. */
  lemma ReturnedAgain(x: Session, n: nat, m: nat, k: Key, hash: HashFn)
    requires SessionOk(x, hash) && !x.ended && x.it.index >= 0 && IsRehashing(x.s)
    requires StaysPut(x.s, Rehash(x.s, n, hash), x.it) && m > |Contents(x.s, hash)|
    requires k in x.returned && Due(Rehash(x.s, n, hash), x.it, k, hash)
    ensures var x' := OpInSession(x, OpRehash(n), hash);
            Live(x', hash) && NextMany(x', m, hash).ended && multiset(NextMany(x', m, hash).returned)[k] >= 2
  {
    hide Due, TableOk, KeysUnique, MapOf, IterOk, Rehash, StaysPut, Entries, RehashOk, NextMany, HarmlessRehash;
    RehashInSession(x, n, hash);
    var x' := OpInSession(x, OpRehash(n), hash);
    DueKeysAreFew(x', hash);
    IterationEnds(x', m, hash);
    DueIsReturned(x', m, k, hash);
    assert k in multiset(x.returned);
  }

  /** An explicit `dictRehash` during an iteration that stays put keeps its promises, each key
      at most once and the ones there at the start exactly once, if and only if it is harmless. */
  lemma RehashExactly(x: Session, n: nat, m: nat, hash: HashFn)
    requires SessionOk(x, hash) && !x.ended && x.it.index >= 0 && IsRehashing(x.s)
    requires StaysPut(x.s, Rehash(x.s, n, hash), x.it) && m > |Contents(x.s, hash)|
    ensures var x' := OpInSession(x, OpRehash(n), hash);
            Live(x', hash) &&
            var y := NextMany(x', m, hash);
            && y.ended
            && (HarmlessRehash(x, n, hash) <==>
                  && (forall k :: multiset(y.returned)[k] <= 1)
                  && forall k | k in x.start :: multiset(y.returned)[k] == 1)
  {
    hide Due, TableOk, KeysUnique, MapOf, IterOk, Rehash, StaysPut, MovedAhead, AheadInNew, Entries, RehashOk, NextMany, SessionOk;
    SessionIs(x, hash);
    RehashInSession(x, n, hash);
    var x' := OpInSession(x, OpRehash(n), hash);
    var y := NextMany(x', m, hash);
    DueKeysAreFew(x', hash);
    IterationEnds(x', m, hash);
    if HarmlessRehash(x, n, hash) {
      NextManyKeepsSession(x', m, hash);
      SessionGives(y, hash);
    } else if IsRehashing(x'.s) {
      var k :| k in x.returned && MovedAhead(x.s, x'.s, x.it, k, hash);
      StillRehashingDue(x.s, n, x.it, k, hash);
      ReturnedAgain(x, n, m, k, hash);
    } else {
      var k :| k in Contents(x.s, hash) && (k in x.returned || k in x.start)
               && !(AheadInNew(x.s, x.it, k, hash) <==> k !in x.returned);
      FinishedDue(x.s, n, x.it, k, hash);
      if k in x.returned { ReturnedAgain(x, n, m, k, hash); } else { NotDueNotReturned(x', m, k, hash); }
    }
  }

  lemma SessionIs(x: Session, hash: HashFn)
    requires SessionOk(x, hash)
    ensures Valid(x.s, hash) && (!x.ended ==> IterOk(x.s, x.it, hash))
  {
  }

  /** A rehash that moves the bucket of the saved next entry: the next call still returns that
      entry, and then it stands ahead, in the new table. */
  lemma MovedNextComesAgain(x: Session, n: nat, k: Key, hash: HashFn)
    requires SessionOk(x, hash) && !x.ended && x.it.index >= 0 && IsRehashing(x.s)
    requires x.it.table == 0 && x.it.nextEntry == Some(k)
    requires var r := Rehash(x.s, n, hash); IsRehashing(r) && x.it.index < r.rehashidx
    ensures var x' := OpInSession(x, OpRehash(n), hash);
            && x'.it.index < BucketSize(x'.s, 0)
            && var y := NextInSession(x');
               !y.ended && y.returned == x.returned + [k] && y.it.table == 0 && DueIn(y.s, y.it, 1, k, hash)
  {
    hide TableOk, KeysUnique, MapOf, Rehash, Entries, Position;
    RehashMoves(x.s, n, hash);
    NewHolds(x.s, Rehash(x.s, n, hash), k, hash);
  }

  /** A rehash that ends with the iterator in the table that is dropped, or past the end of the
      one that is left: the next call ends the iteration, whatever has not been returned. */
  lemma RehashEndsIteration(x: Session, n: nat, hash: HashFn)
    requires SessionOk(x, hash) && !x.ended && x.it.index >= 0 && IsRehashing(x.s) && x.it.nextEntry.None?
    requires !IsRehashing(Rehash(x.s, n, hash)) && (x.it.table == 1 || x.it.index >= |x.s.ht1.buckets|)
    ensures var y := NextInSession(OpInSession(x, OpRehash(n), hash)); y.ended && y.returned == x.returned
  {
    hide TableOk, KeysUnique, MapOf, Rehash, Entries;
    RehashMoves(x.s, n, hash);
    SameSize(x.s, Rehash(x.s, n, hash));
  }

  lemma NextReturnsOnly(s: State, it: Iter, k: Key, hash: HashFn)
    requires Valid(s, hash) && IterOk(s, it, hash) && Due(s, it, k, hash)
    requires forall x | x in Contents(s, hash) :: x == k
    ensures Next(s, it).2 == Some(k)
  {
    hide TableOk, KeysUnique, MapOf, Next, Due;
    NextOk(s, it, hash);
    match Next(s, it).2
    case Some(x) => DueIsLive(s, it, x, hash);
    case None =>
  }

  /** The first entry is found in the old table when the new one is still empty. */
  lemma FirstInOldTable(s: State, k: Key, hash: HashFn)
    requires Valid(s, hash) && k in Contents(s, hash)
    requires forall i | 0 <= i < |s.ht1.buckets| :: s.ht1.buckets[i] == []
    ensures Next(s, FRESH_ITER).1.table == 0
  {
    hide TableOk, KeysUnique, MapOf;
    HoldsIsLive(s, k, hash);
    HomeNotEmpty(s, 0, k, hash);
    SeekOk(s, 0, 0);
  }

  lemma AddedIsDue(s: State, it: Iter, k: Key, v: Value, hash: HashFn)
    requires Open(s, it, hash) && IsRehashing(s) && it.table == 0 && k !in Contents(s, hash)
    ensures Due(Add(s, k, v, true, hash).0, it, k, hash)
  {
    hide TableOk, KeysUnique, MapOf;
    WhereOk(s, k, hash);
    var s' := Add(s, k, v, true, hash).0;
    assert ChainOf(s'.ht1, k, hash)[0] == Entry(k, v);
    assert DueIn(s', it, 1, k, hash);
  }

  lemma DeleteKeepsRehashing(s: State, k: Key, hash: HashFn)
    requires Valid(s, hash) && s.iterators > 0 && IsRehashing(s)
    ensures IsRehashing(Delete(s, k, hash).0)
  {
    hide TableOk, KeysUnique, MapOf;
  }

  /** A session in which this happens: with a rehash under way, a key that is returned, deleted
      and added again goes to the second table and is returned a second time. */
  lemma ReaddedKeyReturnsTwice(e: Entry, hash: HashFn) returns (s: State, x1: Session, x2: Session, x3: Session)
    ensures Valid(s, hash) && LegalEvent(Opened(s, hash), CallNext, hash)
    ensures x1 == NextInSession(Opened(s, hash)) && x1.returned == [e.key]
    ensures SessionOk(x1, hash) && LegalEvent(x1, Do(OpDelete(e.key)), hash)
    ensures x2 == OpInSession(x1, OpDelete(e.key), hash)
    ensures Valid(x2.s, hash) && x3 == OpInSession(x2, OpAdd(e.key, e.val, true), hash)
    ensures IterOk(x3.s, x3.it, hash) && NextInSession(x3).returned == [e.key, e.key]
  {
    hide TableOk, KeysUnique, MapOf, Next, IterOk, Due, Add, Delete, ShrinkStarted;
    var k := e.key;
    s := ShrinkStarted(2, 3, e, hash);
    ShrinkStartedValid(2, 3, e, hash);
    FreshAllDue(s, k, hash);
    OpenedIterOk(s, hash);
    NextReturnsOnly(s, FRESH_ITER, k, hash);
    NextKeepsSession(Opened(s, hash), hash);
    NextOk(s, FRESH_ITER, hash);
    NextLocks(s, FRESH_ITER, hash);
    FirstInShrink(e, hash);
    x1 := NextInSession(Opened(s, hash));
    OpKeepsSession(x1, OpDelete(k), hash);
    x2 := OpInSession(x1, OpDelete(k), hash);
    DeleteOk(x1.s, k, hash);
    DeleteKeepsRehashing(x1.s, k, hash);
    x3 := OpInSession(x2, OpAdd(k, e.val, true), hash);
    AddedIsDue(x2.s, x2.it, k, e.val, hash);
    AddUndisturbed(x2.s, x2.it, k, e.val, true, hash);
    AddOk(x2.s, k, e.val, true, hash);
    NextReturnsOnly(x3.s, x3.it, k, hash);
  }

  lemma OpenedIterOk(s: State, hash: HashFn)
    requires Valid(s, hash)
    ensures IterOk(s, FRESH_ITER, hash)
  {
  }

  lemma FirstInShrink(e: Entry, hash: HashFn)
    ensures Next(ShrinkStarted(2, 3, e, hash), FRESH_ITER).1.table == 0
  {
    ShrinkStartedValid(2, 3, e, hash);
    FirstInOldTable(ShrinkStarted(2, 3, e, hash), e.key, hash);
  }

  // ---------- A session in which a rehash returns a key twice ----------

  /** A shrink from eight to four buckets has just started; `a` and `b` are in the old table. */
  function TwoInOld(a: Entry, b: Entry, hash: HashFn): State {
    State(Prepend(Prepend(NewTable(Pow2(3)), b, hash), a, hash), NewTable(Pow2(2)), 0, 0)
  }

  /** Two keys in different buckets of eight, the one of `a` first. */
  predicate InOrder(a: Entry, b: Entry, hash: HashFn) {
    Index(hash(a.key), 8) < Index(hash(b.key), 8)
  }

  lemma TwoInOldTable(a: Entry, b: Entry, hash: HashFn)
    requires InOrder(a, b, hash)
    ensures TwoInOld(a, b, hash).ht0
         == Table(seq(8, _ => [])[Index(hash(b.key), 8) := [b]][Index(hash(a.key), 8) := [a]], 2)
  {
    hide Index;
    assert Pow2(3) == 8;
    var none := seq(8, _ => []);
    assert NewTable(Pow2(3)).buckets == none;
    assert [b] + none[Index(hash(b.key), 8)] == [b];
    assert [a] + none[Index(hash(b.key), 8) := [b]][Index(hash(a.key), 8)] == [a];
  }

  lemma TwoInOldIs(a: Entry, b: Entry, hash: HashFn)
    requires InOrder(a, b, hash)
    ensures var s := TwoInOld(a, b, hash);
            && Valid(s, hash) && s.rehashidx == 0 && s.iterators == 0 && |s.ht1.buckets| == 4
            && Contents(s, hash) == map[a.key := a.val, b.key := b.val]
  {
    hide TableOk, KeysUnique, MapOf, Bag, Prepend, NewTable, Index, Pow2;
    FourAndEight();
    var s := TwoInOld(a, b, hash);
    OneEntryTable(3, b, hash);
    EmptyTable(2, hash);
    PrependOk(Prepend(NewTable(Pow2(3)), b, hash), a, hash);
    PairMap(a, b);
    assert Entries(s) == multiset{a, b};
  }

  lemma FourAndEight()
    ensures Pow2(2) == 4 && Pow2(3) == 8
  {
  }

  lemma PairMap(a: Entry, b: Entry)
    requires a.key != b.key
    ensures KeysUnique(multiset{a, b}) && MapOf(multiset{a, b}) == map[a.key := a.val, b.key := b.val]
  {
  }

  lemma {:induction false} SeekFirst(s: State, t: nat, i: nat, j: nat)
    requires i <= j < BucketSize(s, t) && TableAt(s, t).buckets[j] != [] && EmptyBetween(s, t, i, j)
    ensures Seek(s, t, i) == Some((t, j))
    decreases j - i
  {
    if i < j { SeekFirst(s, t, i + 1, j); }
  }

  lemma {:induction false} SkipFirst(b: seq<Chain>, i: nat, visits: nat, j: nat)
    requires i <= j < |b| && SomeFrom(b, i) && b[j] != [] && visits > j - i && forall x | i <= x < j :: b[x] == []
    ensures SkipEmpty(b, i, visits) == (j, visits - (j - i))
    decreases j - i
  {
    if i < j {
      assert SomeFrom(b, i + 1);
      SkipFirst(b, i + 1, visits - 1, j);
    }
  }

  /** One round moves the first bucket in use. */
  lemma OneRound(s: State, j: nat, hash: HashFn)
    requires Valid(s, hash) && IsRehashing(s) && s.rehashidx == 0 && j < 10
    requires j < |s.ht0.buckets| && s.ht0.buckets[j] != [] && forall x | 0 <= x < j :: s.ht0.buckets[x] == []
    requires s.ht0.used > |s.ht0.buckets[j]|
    ensures Rehash(s, 1, hash) == MoveBucket(s, j, hash) && IsRehashing(Rehash(s, 1, hash))
  {
    hide TableOk, KeysUnique, Entries;
    SomeLeft(s, hash);
    SkipFirst(s.ht0.buckets, 0, 10, j);
    MoveBucketOk(s, j, hash);
  }

  /** The first call returns `a`, a rehash of one bucket is made, and the calls that end the
      iteration return `a` again. */
  lemma RehashedKeyReturnsTwice(a: Entry, b: Entry, m: nat, hash: HashFn) returns (s: State, x: Session)
    requires InOrder(a, b, hash) && m > 2
    ensures Valid(s, hash) && LegalEvent(Opened(s, hash), CallNext, hash)
    ensures x == NextInSession(Opened(s, hash)) && SessionOk(x, hash) && x.returned == [a.key] && !x.ended
    ensures var x' := OpInSession(x, OpRehash(1), hash);
            Live(x', hash) && NextMany(x', m, hash).ended && multiset(NextMany(x', m, hash).returned)[a.key] >= 2
  {
    hide TableOk, KeysUnique, MapOf, IterOk, Due, TwoInOld, Rehash, NextMany, MoveChain;
    s := TwoInOld(a, b, hash);
    var j := Index(hash(a.key), 8);
    TwoInOldIs(a, b, hash);
    TwoInOldTable(a, b, hash);
    FirstOfTwo(a, b, hash);
    NextKeepsSession(Opened(s, hash), hash);
    x := NextInSession(Opened(s, hash));
    OneRound(x.s, j, hash);
    assert MovedAhead(x.s, Rehash(x.s, 1, hash), x.it, a.key, hash);
    StillRehashingDue(x.s, 1, x.it, a.key, hash);
    ReturnedAgain(x, 1, m, a.key, hash);
  }

  lemma FirstOfTwo(a: Entry, b: Entry, hash: HashFn)
    requires InOrder(a, b, hash)
    ensures var s, j := TwoInOld(a, b, hash), Index(hash(a.key), 8);
            Next(s, FRESH_ITER) == (s.(iterators := 1), Iter(j, 0, Some(a.key), None), Some(a.key))
  {
    hide TwoInOld;
    TwoInOldIs(a, b, hash);
    TwoInOldTable(a, b, hash);
    var s, j := TwoInOld(a, b, hash), Index(hash(a.key), 8);
    SeekFirst(s, 0, 0, j);
  }
}
