/** The operations of src/dict.c on the value of a dictionary. */
module DictOps {
  import opened Words
  import opened DictState
  import opened Wrappers

  // ---------- Growing ----------

  /** `_dictNextPower`: double from the initial size until large enough. */
  function NextPowerFrom(i: nat, size: nat): (r: nat)
    requires i > 0
    decreases size - i
  {
    if i >= size then i else NextPowerFrom(2 * i, size)
  }

  function NextPower(size: nat): nat {
    NextPowerFrom(INITIAL_SIZE, size)
  }

  function NewTable(size: nat): Table {
    Table(seq(size, _ => []), 0)
  }

  /** `dictExpand`: a first table, or a second one to rehash into. */
  function Expand(s: State, size: nat): (r: (State, bool)) {
    var realSize := NextPower(size);
    if IsRehashing(s) || s.ht0.used > size then (s, false)
    else if realSize == |s.ht0.buckets| then (s, false)
    else if |s.ht0.buckets| == 0 then (s.(ht0 := NewTable(realSize)), true)
    else (s.(ht1 := NewTable(realSize), rehashidx := 0), true)
  }

  /** `_dictExpandIfNeeded`. */
  function ExpandIfNeeded(s: State, canResize: bool): (r: (State, bool)) {
    var used, size := s.ht0.used, |s.ht0.buckets|;
    if IsRehashing(s) then (s, true)
    else if size == 0 then Expand(s, INITIAL_SIZE)
    else if used >= size && (canResize || used / size > FORCE_RESIZE_RATIO) then Expand(s, used * 2)
    else (s, true)
  }

  /** `dictResize`: shrink to the least table that holds the entries. */
  function Resize(s: State, canResize: bool): (r: (State, bool)) {
    if !canResize || IsRehashing(s) then (s, false)
    else Expand(s, if s.ht0.used < INITIAL_SIZE then INITIAL_SIZE else s.ht0.used)
  }

  // ---------- Looking along a chain ----------

  /** Position of the first entry with this key, or the chain's length. */
  function Position(c: Chain, k: Key): (p: nat)
    ensures p <= |c|
    ensures p < |c| ==> c[p].key == k
    ensures forall j | 0 <= j < p :: c[j].key != k
  {
    if c == [] then 0 else if c[0].key == k then 0 else 1 + Position(c[1..], k)
  }

  function ChainOf(t: Table, k: Key, hash: HashFn): Chain
    requires |t.buckets| > 0
  {
    t.buckets[Index(hash(k), |t.buckets|)]
  }

  predicate InChain(c: Chain, k: Key) {
    Position(c, k) < |c|
  }

  /** Replace the chain that holds `k`. */
  function SetChain(t: Table, k: Key, c: Chain, used: nat, hash: HashFn): Table
    requires |t.buckets| > 0
  {
    Table(t.buckets[Index(hash(k), |t.buckets|) := c], used)
  }

  // ---------- The operations ----------

  /** Both tables can be indexed: the guard every operation establishes before hashing. */
  predicate Indexable(s: State) {
    |s.ht0.buckets| > 0 && (IsRehashing(s) ==> |s.ht1.buckets| > 0)
  }

  /** The search of `_dictKeyIndex`: the bucket for a new key, or nothing if it is present. */
  function KeyIndex(s: State, k: Key, hash: HashFn): (r: Option<nat>)
    requires Indexable(s)
  {
    if InChain(ChainOf(s.ht0, k, hash), k) then None
    else if !IsRehashing(s) then Some(Index(hash(k), |s.ht0.buckets|))
    else if InChain(ChainOf(s.ht1, k, hash), k) then None
    else Some(Index(hash(k), |s.ht1.buckets|))
  }

  /** The tail of `dictAddRaw`: while a rehash is running, new entries go to the new table. */
  function Insert(s: State, e: Entry, hash: HashFn): State
    requires Indexable(s)
  {
    if IsRehashing(s) then s.(ht1 := Prepend(s.ht1, e, hash)) else s.(ht0 := Prepend(s.ht0, e, hash))
  }

  /** `dictAdd`. */
  ghost function Add(s: State, k: Key, v: Value, canResize: bool, hash: HashFn): (r: (State, bool))
    requires Valid(s, hash)
  {
    var s1 := RehashStep(s, hash);
    RehashStepOk(s, hash);
    var s2 := ExpandIfNeeded(s1, canResize).0;
    ExpandIfNeededOk(s1, canResize, hash);
    if KeyIndex(s2, k, hash).None? then (s2, false) else (Insert(s2, Entry(k, v), hash), true)
  }

  /** Which table holds `k`: 0, 1, or 2 for neither. */
  function Where(s: State, k: Key, hash: HashFn): nat
    requires Indexable(s)
  {
    if InChain(ChainOf(s.ht0, k, hash), k) then 0
    else if IsRehashing(s) && InChain(ChainOf(s.ht1, k, hash), k) then 1
    else 2
  }

  function ValueIn(c: Chain, k: Key): Option<Value> {
    if InChain(c, k) then Some(c[Position(c, k)].val) else None
  }

  /** `dictFind`, giving the value of the entry found. */
  ghost function Find(s: State, k: Key, hash: HashFn): (r: (State, Option<Value>))
    requires Valid(s, hash)
  {
    if |s.ht0.buckets| == 0 then (s, None)
    else
      var s1 := RehashStep(s, hash);
      StepIndexable(s, hash);
      (s1, match Where(s1, k, hash)
           case 0 => ValueIn(ChainOf(s1.ht0, k, hash), k)
           case 1 => ValueIn(ChainOf(s1.ht1, k, hash), k)
           case _ => None)
  }

  function Without(c: Chain, k: Key): Chain
    requires InChain(c, k)
  {
    var p := Position(c, k);
    c[..p] + c[p + 1..]
  }

  function DeleteIn(t: Table, k: Key, hash: HashFn): Table
    requires |t.buckets| > 0 && t.used > 0 && InChain(ChainOf(t, k, hash), k)
  {
    SetChain(t, k, Without(ChainOf(t, k, hash), k), t.used - 1, hash)
  }

  /** `dictDelete`. */
  ghost function Delete(s: State, k: Key, hash: HashFn): (r: (State, bool))
    requires Valid(s, hash)
  {
    if |s.ht0.buckets| == 0 then (s, false)
    else
      var s1 := RehashStep(s, hash);
      StepIndexable(s, hash);
      WhereOk(s1, k, hash);
      match Where(s1, k, hash)
      case 0 => (s1.(ht0 := DeleteIn(s1.ht0, k, hash)), true)
      case 1 => (s1.(ht1 := DeleteIn(s1.ht1, k, hash)), true)
      case _ => (s1, false)
  }

  function AssignIn(t: Table, k: Key, v: Value, hash: HashFn): (r: Table)
    requires |t.buckets| > 0 && InChain(ChainOf(t, k, hash), k)
    ensures |r.buckets| == |t.buckets| && r.used == t.used
  {
    var c := ChainOf(t, k, hash);
    SetChain(t, k, c[Position(c, k) := Entry(k, v)], t.used, hash)
  }

  /** `dictReplace`: add, or else find the entry and set its value. */
  ghost function Replace(s: State, k: Key, v: Value, canResize: bool, hash: HashFn): (r: (State, bool))
    requires Valid(s, hash)
  {
    var (s1, added) := Add(s, k, v, canResize, hash);
    if added then (s1, true)
    else
      AddOk(s, k, v, canResize, hash);
      var s2 := RehashStep(s1, hash);
      StepIndexable(s1, hash);
      match Where(s2, k, hash)
      case 0 => (s2.(ht0 := AssignIn(s2.ht0, k, v, hash)), false)
      case 1 => (s2.(ht1 := AssignIn(s2.ht1, k, v, hash)), false)
      case _ => (s2, false)
  }

  // ---------- Growing keeps the invariant ----------

  lemma {:induction false} NextPowerIs(i: nat, size: nat, k: nat)
    requires i == Pow2(k) && k >= 2
    ensures var r := NextPowerFrom(i, size);
            r >= size && r >= i && IsTableSize(r) && (r == i || r < 2 * size)
    decreases size - i
  {
    if i < size {
      assert 2 * i == Pow2(k + 1);
      NextPowerIs(2 * i, size, k + 1);
    }
  }

  lemma NextPowerOk(size: nat)
    ensures NextPower(size) >= size && NextPower(size) >= INITIAL_SIZE && IsTableSize(NextPower(size))
    ensures NextPower(size) == INITIAL_SIZE || NextPower(size) < 2 * size
  {
    assert Pow2(2) == 4;
    NextPowerIs(INITIAL_SIZE, size, 2);
  }

  lemma NewTableOk(size: nat, hash: HashFn)
    requires IsTableSize(size)
    ensures TableOk(NewTable(size), hash) && Bag(NewTable(size).buckets) == multiset{}
  {
    EmptyBag(NewTable(size).buckets);
  }

  lemma ExpandOk(s: State, size: nat, hash: HashFn)
    requires Valid(s, hash)
    ensures var (r, ok) := Expand(s, size);
            && Valid(r, hash) && Entries(r) == Entries(s) && r.iterators == s.iterators
            && (!ok ==> r == s)
            && (ok ==> Indexable(r))
  {
    NextPowerOk(size);
    NewTableOk(NextPower(size), hash);
    if |s.ht0.buckets| == 0 && !IsRehashing(s) {
      assert s.ht0.buckets == [] && s.ht1.buckets == [];
      assert Entries(s) == multiset{};
    }
  }

  /** `_dictExpandIfNeeded` never fails and leaves a table to index. */
  lemma ExpandIfNeededOk(s: State, canResize: bool, hash: HashFn)
    requires Valid(s, hash)
    ensures var (r, ok) := ExpandIfNeeded(s, canResize);
            && ok && Valid(r, hash) && Entries(r) == Entries(s) && r.iterators == s.iterators
            && Indexable(r)
  {
    hide Valid, Expand, Entries, Indexable, IsRehashing;
    var used, size := s.ht0.used, |s.ht0.buckets|;
    Guard(s, hash);
    if !IsRehashing(s) && size == 0 {
      ExpandOk(s, INITIAL_SIZE, hash);
      ExpandSucceeds(s, INITIAL_SIZE);
    } else if !IsRehashing(s) && used >= size && (canResize || used / size > FORCE_RESIZE_RATIO) {
      ExpandOk(s, used * 2, hash);
      ExpandSucceeds(s, used * 2);
    }
  }

  /** A table without buckets is unused; a dictionary with buckets, or one being rehashed, can
      be indexed. */
  lemma Guard(s: State, hash: HashFn)
    requires Valid(s, hash)
    ensures |s.ht0.buckets| == 0 ==> s.ht0.used == 0
    ensures IsRehashing(s) || |s.ht0.buckets| > 0 ==> Indexable(s)
  {
    hide AllHomed, KeysUnique, IsTableSize;
    if |s.ht0.buckets| == 0 { assert s.ht0.buckets == []; }
  }

  /** A request for more buckets than there are, and no fewer than the entries, is granted. */
  lemma ExpandSucceeds(s: State, size: nat)
    requires !IsRehashing(s) && s.ht0.used <= size && |s.ht0.buckets| < size
    ensures Expand(s, size).1
  {
    hide IsTableSize;
    NextPowerOk(size);
  }

  lemma RehashStepOk(s: State, hash: HashFn)
    requires Valid(s, hash)
    ensures var r := RehashStep(s, hash);
            Valid(r, hash) && Entries(r) == Entries(s) && r.iterators == s.iterators
  {
    RehashKeeps(s, 1, hash);
  }

  /** A rehash step never leaves a dictionary without a table. */
  lemma StepIndexable(s: State, hash: HashFn)
    requires Valid(s, hash) && |s.ht0.buckets| > 0
    ensures Valid(RehashStep(s, hash), hash) && Indexable(RehashStep(s, hash))
  {
    RehashStepOk(s, hash);
  }

  // ---------- A key is where its hash says ----------

  lemma {:induction false} InBagOfTable(t: Table, k: Key, hash: HashFn, e: Entry)
    requires TableOk(t, hash) && |t.buckets| > 0 && e.key == k
    ensures e in Bag(t.buckets) <==> e in ChainOf(t, k, hash)
  {
    if e in Bag(t.buckets) {
      var i := BagBucket(t.buckets, e);
      assert Homed(t.buckets[i], i, |t.buckets|, hash);
    }
    if e in ChainOf(t, k, hash) {
      InBag(t.buckets, Index(hash(k), |t.buckets|), e);
    }
  }

  lemma TableHasKey(t: Table, k: Key, hash: HashFn)
    requires TableOk(t, hash) && |t.buckets| > 0
    ensures InChain(ChainOf(t, k, hash), k) <==> exists e :: e in Bag(t.buckets) && e.key == k
    ensures InChain(ChainOf(t, k, hash), k) ==>
              t.used > 0 && ChainOf(t, k, hash)[Position(ChainOf(t, k, hash), k)] in Bag(t.buckets)
  {
    var c := ChainOf(t, k, hash);
    if InChain(c, k) {
      InBagOfTable(t, k, hash, c[Position(c, k)]);
    }
    if e :| e in Bag(t.buckets) && e.key == k {
      InBagOfTable(t, k, hash, e);
    }
  }

  /** The search over the two tables finds the key exactly when the map has it. */
  lemma WhereOk(s: State, k: Key, hash: HashFn)
    requires Valid(s, hash) && Indexable(s)
    ensures Where(s, k, hash) < 2 <==> k in Contents(s, hash)
    ensures Where(s, k, hash) == 0 ==>
              s.ht0.used > 0 && ValueIn(ChainOf(s.ht0, k, hash), k) == Some(Contents(s, hash)[k])
    ensures Where(s, k, hash) == 1 ==>
              s.ht1.used > 0 && ValueIn(ChainOf(s.ht1, k, hash), k) == Some(Contents(s, hash)[k])
    ensures KeyIndex(s, k, hash).None? <==> k in Contents(s, hash)
  {
    TableHasKey(s.ht0, k, hash);
    if IsRehashing(s) { TableHasKey(s.ht1, k, hash); }
  }

  lemma {:induction false} ContentsOfEntries(s: State, s': State, hash: HashFn)
    requires Valid(s, hash) && Valid(s', hash) && Entries(s') == Entries(s)
    ensures Contents(s', hash) == Contents(s, hash)
  {
  }

  // ---------- Each operation is the map operation ----------

  lemma InMap(bag: multiset<Entry>, e: Entry)
    requires KeysUnique(bag) && e in bag
    ensures bag[e] == 1 && e.key in MapOf(bag) && MapOf(bag)[e.key] == e.val
  {
    assert e.key == e.key;
  }

  lemma FromMap(bag: multiset<Entry>, k: Key)
    requires KeysUnique(bag) && k in MapOf(bag)
    ensures Entry(k, MapOf(bag)[k]) in bag
  {
  }

  lemma SameKeySameEntry(bag: multiset<Entry>, e: Entry, e': Entry)
    requires KeysUnique(bag) && e in bag && e' in bag && e.key == e'.key
    ensures e == e' && bag[e] == 1
  {
  }

  lemma InsertUnique(bag: multiset<Entry>, e: Entry)
    requires KeysUnique(bag) && e.key !in MapOf(bag)
    ensures KeysUnique(bag + multiset{e})
  {
    hide MapOf;
    var b' := bag + multiset{e};
    if e in bag { InMap(bag, e); }
    forall x, y | x in b' && y in b' && x.key == y.key ensures x == y && b'[x] == 1 {
      if x in bag { InMap(bag, x); }
      if y in bag { InMap(bag, y); }
    }
  }

  lemma InsertEntry(bag: multiset<Entry>, e: Entry)
    requires KeysUnique(bag) && e.key !in MapOf(bag)
    ensures KeysUnique(bag + multiset{e}) && MapOf(bag + multiset{e}) == MapOf(bag)[e.key := e.val]
  {
    hide *;
    InsertUnique(bag, e);
    var b' := bag + multiset{e};
    var m, m' := MapOf(bag), MapOf(b');
    InMap(b', e);
    forall k | k in m' ensures k in m[e.key := e.val] && m'[k] == m[e.key := e.val][k] {
      FromMap(b', k);
      if k != e.key { InMap(bag, Entry(k, m'[k])); }
    }
    forall k | k in m ensures k in m' {
      FromMap(bag, k);
      InMap(b', Entry(k, m[k]));
    }
  }

  lemma RemoveUnique(bag: multiset<Entry>, e: Entry)
    requires KeysUnique(bag) && e in bag
    ensures KeysUnique(bag - multiset{e})
    ensures forall x :: x in bag - multiset{e} <==> x in bag && x.key != e.key
  {
    var b' := bag - multiset{e};
    SameKeySameEntry(bag, e, e);
    forall x, y | x in b' && y in b' && x.key == y.key ensures x == y && b'[x] == 1 {
      SameKeySameEntry(bag, x, y);
    }
  }

  lemma RemoveEntry(bag: multiset<Entry>, e: Entry)
    requires KeysUnique(bag) && e in bag
    ensures KeysUnique(bag - multiset{e}) && MapOf(bag - multiset{e}) == MapOf(bag) - {e.key}
  {
    hide *;
    RemoveUnique(bag, e);
    var b' := bag - multiset{e};
    var m, m' := MapOf(bag), MapOf(b');
    forall k | k in m' ensures k in m && k != e.key && m'[k] == m[k] {
      FromMap(b', k);
      InMap(bag, Entry(k, m'[k]));
    }
    forall k | k in m && k != e.key ensures k in m' {
      FromMap(bag, k);
      InMap(b', Entry(k, m[k]));
    }
  }

  /** What a state holding one more entry stands for. */
  lemma EntryAdded(s: State, s': State, e: Entry, hash: HashFn)
    requires Valid(s, hash) && e.key !in Contents(s, hash)
    requires TableOk(s'.ht0, hash) && TableOk(s'.ht1, hash) && RehashOk(s')
    requires Entries(s') == Entries(s) + multiset{e}
    ensures Valid(s', hash) && Contents(s', hash) == Contents(s, hash)[e.key := e.val]
  {
    hide MapOf, KeysUnique, TableOk, RehashOk, Entries;
    InsertEntry(Entries(s), e);
  }

  lemma EntryRemoved(s: State, s': State, e: Entry, hash: HashFn)
    requires Valid(s, hash) && TableOk(s'.ht0, hash) && TableOk(s'.ht1, hash) && RehashOk(s')
    requires Entries(s) == Entries(s') + multiset{e}
    ensures Valid(s', hash) && Contents(s', hash) == Contents(s, hash) - {e.key}
  {
    hide MapOf, KeysUnique, TableOk, RehashOk, Entries;
    assert Entries(s') == Entries(s) - multiset{e};
    RemoveEntry(Entries(s), e);
  }

  lemma BagRest(x': multiset<Entry>, x: multiset<Entry>, e: Entry, e': Entry)
    requires x' + multiset{e} == x + multiset{e'} && e in x
    ensures x' == x - multiset{e} + multiset{e'}
  {
    assert x == x - multiset{e} + multiset{e};
    BagCancel(x', x - multiset{e} + multiset{e'}, multiset{e});
  }

  lemma BagBeside(x': multiset<Entry>, x: multiset<Entry>, e: Entry, e': Entry, y: multiset<Entry>)
    requires x' + multiset{e} == x + multiset{e'}
    ensures (x' + y) + multiset{e} == (x + y) + multiset{e'}
    ensures (y + x') + multiset{e} == (y + x) + multiset{e'}
  {
    assert (x' + y) + multiset{e} == (x' + multiset{e}) + y;
    assert (x + y) + multiset{e'} == (x + multiset{e'}) + y;
    assert y + x' == x' + y && y + x == x + y;
  }

  lemma EntryChanged(s: State, s': State, e: Entry, v: Value, hash: HashFn)
    requires Valid(s, hash) && e in Entries(s)
    requires TableOk(s'.ht0, hash) && TableOk(s'.ht1, hash) && RehashOk(s')
    requires Entries(s') + multiset{e} == Entries(s) + multiset{Entry(e.key, v)}
    ensures Valid(s', hash) && Contents(s', hash) == Contents(s, hash)[e.key := v]
  {
    hide MapOf, KeysUnique, TableOk, RehashOk, Entries;
    var rest := Entries(s) - multiset{e};
    BagRest(Entries(s'), Entries(s), e, Entry(e.key, v));
    RemoveEntry(Entries(s), e);
    InsertEntry(rest, Entry(e.key, v));
  }

  lemma InsertOk(s: State, e: Entry, hash: HashFn)
    requires Valid(s, hash) && Indexable(s) && e.key !in Contents(s, hash)
    ensures var s' := Insert(s, e, hash);
            Valid(s', hash) && Contents(s', hash) == Contents(s, hash)[e.key := e.val]
  {
    hide MapOf, KeysUnique, TableOk;
    if IsRehashing(s) {
      PrependOk(s.ht1, e, hash);
      EntryAdded(s, s.(ht1 := Prepend(s.ht1, e, hash)), e, hash);
    } else {
      PrependOk(s.ht0, e, hash);
      EntryAdded(s, s.(ht0 := Prepend(s.ht0, e, hash)), e, hash);
    }
  }

  lemma AddOk(s: State, k: Key, v: Value, canResize: bool, hash: HashFn)
    requires Valid(s, hash)
    ensures var (r, ok) := Add(s, k, v, canResize, hash);
            && Valid(r, hash) && Indexable(r) && r.iterators == s.iterators
            && (ok <==> k !in Contents(s, hash))
            && Contents(r, hash) == if ok then Contents(s, hash)[k := v] else Contents(s, hash)
  {
    hide MapOf, KeysUnique, TableOk, RehashOk, RehashStep, ExpandIfNeeded, KeyIndex;
    var s1 := RehashStep(s, hash);
    RehashStepOk(s, hash);
    var s2 := ExpandIfNeeded(s1, canResize).0;
    ExpandIfNeededOk(s1, canResize, hash);
    WhereOk(s2, k, hash);
    if k !in Contents(s2, hash) { InsertOk(s2, Entry(k, v), hash); }
  }

  lemma FindOk(s: State, k: Key, hash: HashFn)
    requires Valid(s, hash)
    ensures var (r, v) := Find(s, k, hash);
            && Valid(r, hash) && r.iterators == s.iterators
            && Contents(r, hash) == Contents(s, hash)
            && v == if k in Contents(s, hash) then Some(Contents(s, hash)[k]) else None
  {
    hide MapOf, KeysUnique, TableOk, RehashOk, RehashStep, ValueIn;
    if |s.ht0.buckets| == 0 {
      NoEntries(s, hash);
    } else {
      RehashStepOk(s, hash);
      StepIndexable(s, hash);
      WhereOk(RehashStep(s, hash), k, hash);
    }
  }

  lemma NoEntries(s: State, hash: HashFn)
    requires Valid(s, hash) && |s.ht0.buckets| == 0
    ensures Entries(s) == multiset{} && Contents(s, hash) == map[]
  {
    assert s.ht0.buckets == [] && s.ht1.buckets == [];
  }

  /** Changing one chain to hold `c` instead. */
  lemma SetChainOk(t: Table, k: Key, c: Chain, hash: HashFn)
    requires TableOk(t, hash) && |t.buckets| > 0
    requires Homed(c, Index(hash(k), |t.buckets|), |t.buckets|, hash)
    ensures var b := SetChain(t, k, c, 0, hash).buckets;
            && AllHomed(b, hash)
            && Bag(b) + multiset(ChainOf(t, k, hash)) == Bag(t.buckets) + multiset(c)
            && |Bag(b)| + |ChainOf(t, k, hash)| == |Bag(t.buckets)| + |c|
  {
    var i := Index(hash(k), |t.buckets|);
    HomedUpdate(t.buckets, i, c, hash);
    BagUpdate(t.buckets, i, c);
    var x, y := Bag(t.buckets[i := c]) + multiset(t.buckets[i]), Bag(t.buckets) + multiset(c);
    assert |x| == |y|;
  }

  lemma DeleteInOk(t: Table, k: Key, hash: HashFn)
    requires TableOk(t, hash) && |t.buckets| > 0 && t.used > 0 && InChain(ChainOf(t, k, hash), k)
    ensures TableOk(DeleteIn(t, k, hash), hash)
    ensures var e := ChainOf(t, k, hash)[Position(ChainOf(t, k, hash), k)];
            Bag(t.buckets) == Bag(DeleteIn(t, k, hash).buckets) + multiset{e}
  {
    var c := ChainOf(t, k, hash);
    var p := Position(c, k);
    var c' := Without(c, k);
    assert c == c[..p] + [c[p]] + c[p + 1..];
    assert multiset(c) == multiset(c') + multiset{c[p]};
    var i := Index(hash(k), |t.buckets|);
    assert Homed(t.buckets[i], i, |t.buckets|, hash);
    SetChainOk(t, k, c', hash);
    var x := Bag(DeleteIn(t, k, hash).buckets);
    assert x + multiset{c[p]} + multiset(c') == Bag(t.buckets) + multiset(c');
    BagCancel(x + multiset{c[p]}, Bag(t.buckets), multiset(c'));
  }

  lemma DeleteOk(s: State, k: Key, hash: HashFn)
    requires Valid(s, hash)
    ensures var (r, ok) := Delete(s, k, hash);
            && Valid(r, hash) && r.iterators == s.iterators
            && (ok <==> k in Contents(s, hash))
            && Contents(r, hash) == Contents(s, hash) - {k}
  {
    hide MapOf, KeysUnique, TableOk, RehashOk, RehashStep, DeleteIn, ValueIn;
    if |s.ht0.buckets| == 0 {
      NoEntries(s, hash);
    } else {
      var s1 := RehashStep(s, hash);
      RehashStepOk(s, hash);
      StepIndexable(s, hash);
      WhereOk(s1, k, hash);
      if Where(s1, k, hash) == 0 {
        DeleteFrom0(s1, k, hash);
      } else if Where(s1, k, hash) == 1 {
        DeleteFrom1(s1, k, hash);
      }
    }
  }

  lemma DeleteFrom0(s: State, k: Key, hash: HashFn)
    requires Valid(s, hash) && Indexable(s) && s.ht0.used > 0 && InChain(ChainOf(s.ht0, k, hash), k)
    ensures var r := s.(ht0 := DeleteIn(s.ht0, k, hash));
            Valid(r, hash) && Contents(r, hash) == Contents(s, hash) - {k}
  {
    hide MapOf, KeysUnique, TableOk;
    var c, r := ChainOf(s.ht0, k, hash), s.(ht0 := DeleteIn(s.ht0, k, hash));
    DeleteInOk(s.ht0, k, hash);
    StillEmptyBelow(s, k, hash);
    EntryRemoved(s, r, c[Position(c, k)], hash);
  }

  lemma DeleteFrom1(s: State, k: Key, hash: HashFn)
    requires Valid(s, hash) && Indexable(s) && IsRehashing(s)
    requires s.ht1.used > 0 && InChain(ChainOf(s.ht1, k, hash), k)
    ensures var r := s.(ht1 := DeleteIn(s.ht1, k, hash));
            Valid(r, hash) && Contents(r, hash) == Contents(s, hash) - {k}
  {
    hide MapOf, KeysUnique, TableOk;
    var c, r := ChainOf(s.ht1, k, hash), s.(ht1 := DeleteIn(s.ht1, k, hash));
    DeleteInOk(s.ht1, k, hash);
    EntryRemoved(s, r, c[Position(c, k)], hash);
  }

  /** A key in the old table is not in a bucket the rehash has emptied. */
  lemma StillEmptyBelow(s: State, k: Key, hash: HashFn)
    requires Valid(s, hash) && Indexable(s) && InChain(ChainOf(s.ht0, k, hash), k)
    ensures Index(hash(k), |s.ht0.buckets|) >= s.rehashidx
  {
  }

  lemma SwapInChain(c: Chain, p: nat, e: Entry)
    requires p < |c|
    ensures multiset(c[p := e]) + multiset{c[p]} == multiset(c) + multiset{e}
  {
    assert c == c[..p] + [c[p]] + c[p + 1..] && c[p := e] == c[..p] + [e] + c[p + 1..];
  }

  lemma AssignInOk(t: Table, k: Key, v: Value, hash: HashFn)
    requires TableOk(t, hash) && |t.buckets| > 0 && InChain(ChainOf(t, k, hash), k)
    ensures TableOk(AssignIn(t, k, v, hash), hash)
    ensures var e := ChainOf(t, k, hash)[Position(ChainOf(t, k, hash), k)];
            Bag(AssignIn(t, k, v, hash).buckets) + multiset{e} == Bag(t.buckets) + multiset{Entry(k, v)}
  {
    var c := ChainOf(t, k, hash);
    var p := Position(c, k);
    var c' := c[p := Entry(k, v)];
    assert Homed(c, Index(hash(k), |t.buckets|), |t.buckets|, hash);
    SetChainOk(t, k, c', hash);
    SwapInChain(c, p, Entry(k, v));
    BagSwap(Bag(AssignIn(t, k, v, hash).buckets), Bag(t.buckets), multiset(c'), multiset(c),
            multiset{Entry(k, v)}, multiset{c[p]});
  }

  lemma BagSwap(x': multiset<Entry>, x: multiset<Entry>, c': multiset<Entry>, c: multiset<Entry>,
                e': multiset<Entry>, e: multiset<Entry>)
    requires x' + c == x + c' && c' + e == c + e'
    ensures x' + e == x + e'
  {
    forall z ensures (x' + e)[z] == (x + e')[z] {
      assert (x' + c)[z] == (x + c')[z] && (c' + e)[z] == (c + e')[z];
    }
  }

  lemma Assign0(s: State, k: Key, v: Value, hash: HashFn)
    requires Valid(s, hash) && Indexable(s) && InChain(ChainOf(s.ht0, k, hash), k)
    ensures var r := s.(ht0 := AssignIn(s.ht0, k, v, hash));
            Valid(r, hash) && Contents(r, hash) == Contents(s, hash)[k := v]
  {
    hide MapOf, KeysUnique, TableOk;
    var c, r := ChainOf(s.ht0, k, hash), s.(ht0 := AssignIn(s.ht0, k, v, hash));
    TableHasKey(s.ht0, k, hash);
    AssignInOk(s.ht0, k, v, hash);
    StillEmptyBelow(s, k, hash);
    var e := c[Position(c, k)];
    BagBeside(Bag(r.ht0.buckets), Bag(s.ht0.buckets), e, Entry(k, v), Bag(s.ht1.buckets));
    EntryChanged(s, r, e, v, hash);
  }

  lemma Assign1(s: State, k: Key, v: Value, hash: HashFn)
    requires Valid(s, hash) && Indexable(s) && IsRehashing(s) && InChain(ChainOf(s.ht1, k, hash), k)
    ensures var r := s.(ht1 := AssignIn(s.ht1, k, v, hash));
            Valid(r, hash) && Contents(r, hash) == Contents(s, hash)[k := v]
  {
    hide MapOf, KeysUnique, TableOk;
    var c, r := ChainOf(s.ht1, k, hash), s.(ht1 := AssignIn(s.ht1, k, v, hash));
    TableHasKey(s.ht1, k, hash);
    AssignInOk(s.ht1, k, v, hash);
    var e := c[Position(c, k)];
    BagBeside(Bag(r.ht1.buckets), Bag(s.ht1.buckets), e, Entry(k, v), Bag(s.ht0.buckets));
    EntryChanged(s, r, e, v, hash);
  }

  lemma ReplaceOk(s: State, k: Key, v: Value, canResize: bool, hash: HashFn)
    requires Valid(s, hash)
    ensures var (r, isNew) := Replace(s, k, v, canResize, hash);
            && Valid(r, hash) && r.iterators == s.iterators
            && (isNew <==> k !in Contents(s, hash))
            && Contents(r, hash) == Contents(s, hash)[k := v]
  {
    hide MapOf, KeysUnique, TableOk, RehashOk, RehashStep, Add, AssignIn, ValueIn;
    var (s1, added) := Add(s, k, v, canResize, hash);
    AddOk(s, k, v, canResize, hash);
    if !added {
      var s2 := RehashStep(s1, hash);
      RehashStepOk(s1, hash);
      StepIndexable(s1, hash);
      WhereOk(s2, k, hash);
      if Where(s2, k, hash) == 0 { Assign0(s2, k, v, hash); } else { Assign1(s2, k, v, hash); }
    }
  }

  // ---------- A dictionary in mid-rehash ----------

  /** A shrink from 2^k1 to 2^k0 buckets has just started; `x` is the only entry. */
  function ShrinkStarted(k0: nat, k1: nat, x: Entry, hash: HashFn): State {
    State(Prepend(NewTable(Pow2(k1)), x, hash), NewTable(Pow2(k0)), 0, 0)
  }

  lemma Pow2Less(a: nat, b: nat)
    requires a < b
    ensures Pow2(a) < Pow2(b)
  {
    Pow2Mono(a, b - 1);
  }

  lemma EmptyTable(k: nat, hash: HashFn)
    requires 2 <= k
    ensures var t := NewTable(Pow2(k));
            TableOk(t, hash) && Bag(t.buckets) == multiset{} && t.used == 0 && |t.buckets| == Pow2(k)
  {
    assert IsTableSize(Pow2(k));
    NewTableOk(Pow2(k), hash);
  }

  lemma OneEntryTable(k: nat, x: Entry, hash: HashFn)
    requires 2 <= k
    ensures var t := Prepend(NewTable(Pow2(k)), x, hash);
            TableOk(t, hash) && Bag(t.buckets) == multiset{x} && t.used == 1 && |t.buckets| == Pow2(k)
  {
    assert IsTableSize(Pow2(k));
    NewTableOk(Pow2(k), hash);
    PrependOk(NewTable(Pow2(k)), x, hash);
  }

  lemma ShrinkStartedValid(k0: nat, k1: nat, x: Entry, hash: HashFn)
    requires 2 <= k0 < k1
    ensures var s := ShrinkStarted(k0, k1, x, hash);
            Valid(s, hash) && IsRehashing(s) && Entries(s) == multiset{x} && Contents(s, hash) == map[x.key := x.val]
  {
    hide AllHomed, IsTableSize, Bag, Prepend, NewTable;
    var s := ShrinkStarted(k0, k1, x, hash);
    OneEntryTable(k1, x, hash);
    EmptyTable(k0, hash);
    Pow2Less(k0, k1);
    assert Entries(s) == multiset{x};
  }
}
