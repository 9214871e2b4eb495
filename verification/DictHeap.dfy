/** The hash table of src/dict.c as it stands in memory: bucket arrays of linked entries
    that are relinked in place. Every method is proved to do to the value `s` what the
    function of the same name in DictState and DictOps says. */
module DictHeap {
  import opened DictState
  import opened DictOps
  import opened Wrappers

  /** `DictEntry`. */
  class DictEntry {
    const key: Key
    var val: Value
    var next: DictEntry?

    constructor (key: Key, val: Value, next: DictEntry?)
      ensures this.key == key && this.val == val && this.next == next
    {
      this.key, this.val, this.next := key, val, next;
    }
  }

  /** What is in memory for one key: its object and the object's mutable fields. */
  datatype Cell = Cell(node: DictEntry, val: Value, next: DictEntry?)

  type Cells = map<Key, Cell>

  ghost function NodesOf(cells: Cells): set<DictEntry> {
    set k | k in cells :: cells[k].node
  }

  /** The same keys are held by the same objects. */
  ghost predicate SameObjects(cells: Cells, cells': Cells) {
    && cells'.Keys == cells.Keys
    && NodesOf(cells') == NodesOf(cells)
    && forall k | k in cells :: cells'[k].node == cells[k].node
  }

  /** `cells` is a true picture of the objects. */
  ghost predicate Mirrors(cells: Cells)
    reads NodesOf(cells)
  {
    forall k | k in cells ::
      && cells[k].node in NodesOf(cells)
      && cells[k].node.key == k && cells[k].node.val == cells[k].val && cells[k].node.next == cells[k].next
  }

  ghost function NodeAt(c: Chain, j: nat, cells: Cells): DictEntry? {
    if j < |c| && c[j].key in cells then cells[c[j].key].node else null
  }

  /** `head` starts a linked list of the objects for the entries of `c`, in order. */
  ghost predicate ChainOk(head: DictEntry?, c: Chain, cells: Cells) {
    && head == NodeAt(c, 0, cells)
    && forall j | 0 <= j < |c| ::
         && c[j].key in cells
         && cells[c[j].key].val == c[j].val
         && cells[c[j].key].next == NodeAt(c, j + 1, cells)
  }

  /** Every chain but number `skip` is linked. */
  ghost predicate ChainsOk(heads: seq<DictEntry?>, b: seq<Chain>, cells: Cells, skip: nat) {
    && |heads| == |b|
    && forall i | 0 <= i < |b| && i != skip :: ChainOk(heads[i], b[i], cells)
  }

  ghost predicate TableLinked(heads: seq<DictEntry?>, b: seq<Chain>, cells: Cells) {
    ChainsOk(heads, b, cells, |b|)
  }

  // ---------- Changing the cell of one key ----------

  ghost predicate NoKey(c: Chain, k: Key) {
    forall j | 0 <= j < |c| :: c[j].key != k
  }

  ghost predicate OthersLack(b: seq<Chain>, k: Key, skip: nat) {
    forall j | 0 <= j < |b| && j != skip :: NoKey(b[j], k)
  }

  /** The cells of keys other than `k` are the same. */
  ghost predicate OnlyChanged(cells: Cells, cells': Cells, k: Key) {
    forall x | x != k && x in cells :: x in cells' && cells'[x] == cells[x]
  }

  /** Chains without the key are linked as before. */
  lemma ChainsFrame(heads: seq<DictEntry?>, b: seq<Chain>, cells: Cells, cells': Cells, k: Key, skip: nat)
    requires ChainsOk(heads, b, cells, skip) && OthersLack(b, k, skip) && OnlyChanged(cells, cells', k)
    ensures ChainsOk(heads, b, cells', skip)
  {
    forall i | 0 <= i < |b| && i != skip ensures ChainOk(heads[i], b[i], cells') {
      ChainFrame(heads[i], b[i], cells, cells', k);
    }
  }

  lemma ChainFrame(head: DictEntry?, c: Chain, cells: Cells, cells': Cells, k: Key)
    requires ChainOk(head, c, cells) && NoKey(c, k) && OnlyChanged(cells, cells', k)
    ensures ChainOk(head, c, cells')
  {
    forall j | 0 <= j <= |c| ensures NodeAt(c, j, cells') == NodeAt(c, j, cells) { }
  }

  // ---------- One key, one place ----------

  lemma {:induction false} BagConcat(a: seq<Chain>, b: seq<Chain>)
    ensures Bag(a + b) == Bag(a) + Bag(b)
  {
    if a == [] {
      assert a + b == b;
    } else {
      assert (a + b)[1..] == a[1..] + b;
      BagConcat(a[1..], b);
    }
  }

  lemma {:induction false} InTwoChains(b: seq<Chain>, i: nat, i': nat, e: Entry)
    requires i < i' < |b| && e in b[i] && e in b[i']
    ensures Bag(b)[e] >= 2
  {
    if i == 0 {
      InBag(b[1..], i' - 1, e);
    } else {
      InTwoChains(b[1..], i - 1, i' - 1, e);
    }
  }

  lemma {:induction false} TwiceInChain(b: seq<Chain>, i: nat, j: nat, j': nat)
    requires i < |b| && j < j' < |b[i]| && b[i][j] == b[i][j']
    ensures Bag(b)[b[i][j]] >= 2
  {
    if i == 0 {
      var c := b[0];
      assert c == c[..j] + [c[j]] + c[j + 1..j'] + [c[j']] + c[j' + 1..];
    } else {
      TwiceInChain(b[1..], i - 1, j, j');
    }
  }

  /** A key of a dictionary stands in one place only. */
  lemma OnePlace(b: seq<Chain>, i: nat, j: nat, i': nat, j': nat)
    requires KeysUnique(Bag(b))
    requires i < |b| && j < |b[i]| && i' < |b| && j' < |b[i']| && b[i][j].key == b[i'][j'].key
    ensures i == i' && j == j'
  {
    InBag(b, i, b[i][j]);
    InBag(b, i', b[i'][j']);
    assert b[i][j] == b[i'][j'];
    if i < i' {
      InTwoChains(b, i, i', b[i][j]);
    } else if i' < i {
      InTwoChains(b, i', i, b[i][j]);
    } else if j < j' {
      TwiceInChain(b, i, j, j');
    } else if j' < j {
      TwiceInChain(b, i, j', j);
    }
  }

  /** The key at place `p` of chain `i` of one table is nowhere else in either table. */
  lemma OnlyHere(b0: seq<Chain>, b1: seq<Chain>, i: nat, p: nat)
    requires KeysUnique(Bag(b0) + Bag(b1)) && i < |b0| && p < |b0[i]|
    ensures var k := b0[i][p].key;
            && (forall j | 0 <= j < |b0[i]| && j != p :: b0[i][j].key != k)
            && OthersLack(b0, k, i)
            && OthersLack(b1, k, |b1|)
  {
    hide Bag, KeysUnique;
    var b, k := b0 + b1, b0[i][p].key;
    BagConcat(b0, b1);
    assert b[i] == b0[i];
    forall j | 0 <= j < |b0[i]| && j != p ensures b0[i][j].key != k {
      if b0[i][j].key == k { OnePlace(b, i, p, i, j); }
    }
    forall x, j | 0 <= x < |b0| && x != i && 0 <= j < |b0[x]| ensures b0[x][j].key != k {
      assert b[x] == b0[x];
      if b0[x][j].key == k { OnePlace(b, i, p, x, j); }
    }
    forall x, j | 0 <= x < |b1| && 0 <= j < |b1[x]| ensures b1[x][j].key != k {
      assert b[|b0| + x] == b1[x];
      if b1[x][j].key == k { OnePlace(b, i, p, |b0| + x, j); }
    }
  }

  lemma HeadOnlyHere(b0: seq<Chain>, b1: seq<Chain>, i: nat)
    requires KeysUnique(Bag(b0) + Bag(b1)) && i < |b0| && b0[i] != []
    ensures var k := b0[i][0].key;
            NoKey(b0[i][1..], k) && OthersLack(b0, k, i) && OthersLack(b1, k, |b1|)
  {
    OnlyHere(b0, b1, i, 0);
  }

  ghost predicate OnlyAt(b: seq<Chain>, i: nat, k: Key)
    requires i < |b|
  {
    OthersLack(b, k, i) && forall j | 0 <= j < |b[i]| && j != Position(b[i], k) :: b[i][j].key != k
  }

  /** In a valid dictionary the key found in one table is only there. */
  lemma FoundOnlyHere(s: State, k: Key, hash: HashFn)
    requires DictState.Valid(s, hash) && Indexable(s)
    ensures InChain(ChainOf(s.ht0, k, hash), k) ==>
              OnlyAt(s.ht0.buckets, Index(hash(k), |s.ht0.buckets|), k) && OthersLack(s.ht1.buckets, k, |s.ht1.buckets|)
    ensures IsRehashing(s) && InChain(ChainOf(s.ht1, k, hash), k) ==>
              OnlyAt(s.ht1.buckets, Index(hash(k), |s.ht1.buckets|), k) && OthersLack(s.ht0.buckets, k, |s.ht0.buckets|)
  {
    hide Bag, KeysUnique, TableOk;
    var b0, b1 := s.ht0.buckets, s.ht1.buckets;
    assert KeysUnique(Bag(b0) + Bag(b1)) && Bag(b0) + Bag(b1) == Bag(b1) + Bag(b0);
    if InChain(ChainOf(s.ht0, k, hash), k) {
      OnlyHere(b0, b1, Index(hash(k), |b0|), Position(ChainOf(s.ht0, k, hash), k));
    }
    if IsRehashing(s) && InChain(ChainOf(s.ht1, k, hash), k) {
      OnlyHere(b1, b0, Index(hash(k), |b1|), Position(ChainOf(s.ht1, k, hash), k));
    }
  }

  // ---------- The dictionary object ----------

  /** `Dict`. Its value is the ghost field `s`; `cells` pictures the object of every entry. */
  class Dict {
    const hash: HashFn
    var table0: array<DictEntry?>
    var used0: nat
    var table1: array<DictEntry?>
    var used1: nat
    var rehashidx: int
    var iterators: nat
    ghost var s: State
    ghost var cells: Cells

    /** The fields and the linked objects are those of the value `s`. */
    ghost predicate Linked()
      reads this, table0, table1, NodesOf(cells)
    {
      && table0 != table1 && Mirrors(cells)
      && TableLinked(table0[..], s.ht0.buckets, cells) && TableLinked(table1[..], s.ht1.buckets, cells)
      && used0 == s.ht0.used && used1 == s.ht1.used
      && rehashidx == s.rehashidx && iterators == s.iterators
    }

    ghost predicate Valid()
      reads this, table0, table1, NodesOf(cells)
    {
      && Linked()
      && DictState.Valid(s, hash)
      && cells.Keys == Contents(s, hash).Keys
    }

    constructor (hash: HashFn)
      ensures Valid() && s == EMPTY_DICT && this.hash == hash && fresh(table0) && fresh(table1)
    {
      this.hash := hash;
      table0, table1 := new DictEntry?[0], new DictEntry?[0];
      used0, used1, rehashidx, iterators := 0, 0, -1, 0;
      s, cells := EMPTY_DICT, map[];
    }

    /** Relink `de`, the head of what is left of bucket `idx` of the old table, into the new
        table. `rest` is what is left and `t` is the new table so far. */
    method MoveEntry(de: DictEntry, idx: nat, ghost rest: Chain, ghost t: Table)
      requires idx < table0.Length && 0 < table1.Length
      requires Mirrors(cells) && ChainsOk(table0[..], s.ht0.buckets, cells, idx)
      requires TableLinked(table1[..], t.buckets, cells) && ChainOk(de, rest, cells)
      requires KeysUnique(Bag(s.ht0.buckets[idx := rest]) + Bag(t.buckets))
      requires table0 != table1 && used0 > 0 && used1 == t.used
      modifies this`used0, this`used1, this`cells, table1, de`next
      ensures rest != [] && |t.buckets| > 0 && Mirrors(cells) && ChainsOk(table0[..], s.ht0.buckets, cells, idx)
      ensures TableLinked(table1[..], Prepend(t, rest[0], hash).buckets, cells)
      ensures ChainOk(old(de.next), rest[1..], cells)
      ensures used0 == old(used0) - 1 && used1 == t.used + 1
      ensures SameObjects(old(cells), cells)
    {
      hide KeysUnique, Bag, NoKey, OthersLack, OnlyChanged, ChainOk;
      ghost var b, k := s.ht0.buckets, de.key;
      HeadIs(de, rest, cells);
      HeadOnlyHere(b[idx := rest], t.buckets, idx);
      OthersLackUpdated(b, idx, rest, k);
      var h := Index(hash(de.key), table1.Length);
      ghost var heads1 := table1[..];
      ghost var next := de.next;
      ghost var was := cells;
      de.next := table1[h];
      cells := cells[k := Cell(de, de.val, de.next)];
      CellChanged(was, k, cells[k]);
      assert Mirrors(cells);
      ChainsFrame(table0[..], b, was, cells, k, idx);
      ChainsFrame(heads1, t.buckets, was, cells, k, |t.buckets|);
      TailOk(next, rest, was, cells, k);
      assert NoKey(t.buckets[h], k) by { LacksAll(t.buckets, k, h); }
      LinkedFront(de, rest[0], t.buckets[h], heads1[h], was, cells);
      table1[h] := de;
      used0 := used0 - 1;
      used1 := used1 + 1;
      assert table1[..] == heads1[h := de];
      SameNodes(was, cells, k);
    }

    /** The inner loop of `dictRehash`: relink every entry of bucket `idx`. */
    method RelinkChain(idx: nat) returns (ghost t: Table)
      requires Linked() && MidRehash(s, hash) && idx < table0.Length
      requires |s.ht0.buckets[idx]| <= s.ht0.used
      modifies this`used0, this`used1, this`cells, table1, NodesOf(cells)
      ensures t == MoveChain(s.ht0.buckets[idx], s.ht1, hash) && used1 == t.used
      ensures used0 == s.ht0.used - |s.ht0.buckets[idx]|
      ensures Mirrors(cells) && TableLinked(table1[..], t.buckets, cells)
      ensures ChainsOk(table0[..], s.ht0.buckets, cells, idx)
      ensures SameObjects(old(cells), cells)
    {
      hide KeysUnique, Bag, NoKey, OthersLack, OnlyChanged, ChainOk, TableOk;
      ghost var b := s.ht0.buckets;
      ghost var c := b[idx];
      ghost var rest, moved := c, 0;
      t := s.ht1;
      var de := table0[idx];
      assert b[idx := c] == b;
      while de != null
        invariant moved + |rest| == |c| && Mirrors(cells)
        invariant ChainsOk(table0[..], b, cells, idx) && TableLinked(table1[..], t.buckets, cells)
        invariant ChainOk(de, rest, cells)
        invariant |t.buckets| == table1.Length > 0 && TableOk(t, hash)
        invariant Bag(b[idx := rest]) + Bag(t.buckets) == Entries(s)
        invariant used0 == s.ht0.used - moved && used1 == t.used
        invariant MoveChain(rest, t, hash) == MoveChain(c, s.ht1, hash)
        invariant SameObjects(old(cells), cells)
        decreases |rest|
      {
        HeadIs(de, rest, cells);
        ShiftEntry(b, idx, rest, t, hash);
        var next := de.next;
        MoveEntry(de, idx, rest, t);
        t := Prepend(t, rest[0], hash);
        rest, moved, de := rest[1..], moved + 1, next;
      }
      EndOfChain(rest, cells);
    }

    /** One round of `dictRehash`: move the bucket at the rehash index. */
    method MoveBucket()
      requires Linked() && MidRehash(s, hash) && rehashidx < table0.Length
      modifies this`used0, this`used1, this`cells, this`rehashidx, this`s, table0, table1, NodesOf(cells)
      ensures Linked() && MidRehash(s, hash)
      ensures s == DictState.MoveBucket(old(s), old(rehashidx), hash)
      ensures SameObjects(old(cells), cells)
    {
      hide KeysUnique, Bag, ChainOk, TableOk;
      var idx: nat := rehashidx;
      ghost var b, heads := s.ht0.buckets, table0[..];
      MoveBucketOk(s, idx, hash);
      ghost var t := RelinkChain(idx);
      EmptiedBucket(heads, b, idx, cells);
      table0[idx] := null;
      rehashidx := rehashidx + 1;
      s := DictState.MoveBucket(s, idx, hash);
      assert table0[..] == heads[idx := null];
    }

    /** `dictRehash`: `n` rounds at most, each over at most a share of empty buckets. */
    method Rehash(n: nat) returns (more: bool)
      requires Valid()
      modifies this, table0, table1, NodesOf(cells)
      ensures Valid() && s == DictState.Rehash(old(s), n, hash)
      ensures more == IsRehashing(s)
      ensures SameObjects(old(cells), cells)
      ensures table0 == old(table0) || table0 == old(table1)
      ensures table1 == old(table1) || fresh(table1)
    {
      hide TableOk, KeysUnique, Entries, ChainOk, FinishRehash, DictState.MoveBucket, RehashLoop, MapOf, Mirrors, RehashOk;
      if rehashidx == -1 { return false; }
      RehashKeeps(s, n, hash);
      ContentsOfEntries(s, DictState.Rehash(s, n, hash), hash);
      MidOfValid(s, n, hash);
      var rounds: nat, visits: nat := n, n * 10;
      while rounds > 0 && used0 != 0
        invariant Linked() && MidRehash(s, hash) && (rounds > 0 ==> visits > 0)
        invariant RehashLoop(s, rounds, visits, hash) == DictState.Rehash(old(s), n, hash)
        invariant SameObjects(old(cells), cells)
        invariant table0 == old(table0) && table1 == old(table1)
      {
        RoundIs(s, rounds, visits, hash);
        visits := SkipEmptyBuckets(visits);
        if visits == 0 { return true; }
        rounds := rounds - 1;
        MoveBucket();
      }
      LoopEnds(s, rounds, visits, hash);
      var dropped := DropOldTable();
      more := !dropped;
    }

    /** The end of `dictRehash`: once the old table is empty the new one takes its place. */
    method DropOldTable() returns (dropped: bool)
      requires Linked()
      modifies this`table0, this`used0, this`table1, this`used1, this`rehashidx, this`s
      ensures Linked() && s == FinishRehash(old(s)) && dropped == (old(s).ht0.used == 0)
      ensures if dropped then table0 == old(table1) && fresh(table1)
              else table0 == old(table0) && table1 == old(table1)
    {
      hide ChainOk;
      if used0 == 0 {
        table0, used0 := table1, used1;
        table1, used1 := new DictEntry?[0], 0;
        rehashidx := -1;
        s := FinishRehash(s);
        return true;
      }
      return false;
    }

    /** The walk over empty buckets in `dictRehash`; it stops when `visits` is used up. */
    method SkipEmptyBuckets(visits: nat) returns (left: nat)
      requires Linked() && visits > 0 && rehashidx >= 0 && SomeFrom(s.ht0.buckets, rehashidx)
      modifies this`rehashidx, this`s
      ensures Linked()
      ensures (s.rehashidx, left) == SkipEmpty(s.ht0.buckets, old(rehashidx), visits)
      ensures s == old(s).(rehashidx := s.rehashidx)
    {
      hide ChainOk;
      ghost var b := s.ht0.buckets;
      left := visits;
      while table0[rehashidx] == null
        invariant 0 <= rehashidx < table0.Length && SomeFrom(b, rehashidx) && left > 0
        invariant s == old(s).(rehashidx := rehashidx) && Linked()
        invariant SkipEmpty(b, rehashidx, left) == SkipEmpty(b, old(rehashidx), visits)
        decreases left
      {
        NullIsEmpty(table0[..], b, rehashidx, cells);
        rehashidx := rehashidx + 1;
        s := s.(rehashidx := rehashidx);
        left := left - 1;
        if left == 0 { return; }
      }
      NullIsEmpty(table0[..], b, rehashidx, cells);
    }

    /** `_dictRehashStep`. */
    method RehashStep()
      requires Valid()
      modifies this, table0, table1, NodesOf(cells)
      ensures Valid() && s == DictState.RehashStep(old(s), hash)
      ensures SameObjects(old(cells), cells)
      ensures table0 == old(table0) || table0 == old(table1)
      ensures table1 == old(table1) || fresh(table1)
    {
      if iterators == 0 {
        var _ := Rehash(1);
      }
    }

    /** `dictExpand`. */
    method Expand(size: nat) returns (ok: bool)
      requires Valid()
      modifies this
      ensures Valid() && (s, ok) == DictOps.Expand(old(s), size)
      ensures cells == old(cells)
      ensures table0 == old(table0) || fresh(table0)
      ensures table1 == old(table1) || fresh(table1)
    {
      hide ChainOk, TableOk, KeysUnique, Entries, NextPower, MapOf, NodesOf, RehashOk;
      ExpandOk(s, size, hash);
      ContentsOfEntries(s, DictOps.Expand(s, size).0, hash);
      var realSize := NextPowerLoop(size);
      if rehashidx != -1 || used0 > size { return false; }
      if realSize == table0.Length { return false; }
      var table := new DictEntry?[realSize](_ => null);
      EmptyLinked(table[..], realSize, cells);
      if table0.Length == 0 {
        table0, used0 := table, 0;
      } else {
        table1, used1, rehashidx := table, 0, 0;
      }
      s := DictOps.Expand(s, size).0;
      return true;
    }

    /** `_dictExpandIfNeeded`. */
    method ExpandIfNeeded(canResize: bool)
      requires Valid()
      modifies this
      ensures Valid() && s == DictOps.ExpandIfNeeded(old(s), canResize).0 && Indexable(s)
      ensures cells == old(cells)
      ensures table0 == old(table0) || fresh(table0)
      ensures table1 == old(table1) || fresh(table1)
    {
      hide ChainOk, TableOk, KeysUnique, Entries, NextPower;
      ExpandIfNeededOk(s, canResize, hash);
      if rehashidx != -1 { return; }
      if table0.Length == 0 {
        var _ := Expand(INITIAL_SIZE);
      } else if used0 >= table0.Length && (canResize || used0 / table0.Length > FORCE_RESIZE_RATIO) {
        var _ := Expand(used0 * 2);
      }
    }

    /** `dictResize`. */
    method Resize(canResize: bool) returns (ok: bool)
      requires Valid()
      modifies this
      ensures Valid() && (s, ok) == DictOps.Resize(old(s), canResize) && cells == old(cells)
    {
      hide ChainOk, TableOk, KeysUnique, Entries, NextPower;
      if !canResize || rehashidx != -1 { return false; }
      var minimal := used0;
      if minimal < INITIAL_SIZE { minimal := INITIAL_SIZE; }
      ok := Expand(minimal);
    }

    /** The `while (he)` walk along one chain: the entry with this key, or null. */
    method Walk(head: DictEntry?, ghost c: Chain, k: Key) returns (prev: DictEntry?, he: DictEntry?)
      requires Mirrors(cells) && ChainOk(head, c, cells)
      ensures he == NodeAt(c, Position(c, k), cells) && (he == null <==> !InChain(c, k))
      ensures he != null ==> he.key == k && k in cells && cells[k].node == he && Some(he.val) == ValueIn(c, k)
      ensures prev == if Position(c, k) == 0 then null else NodeAt(c, Position(c, k) - 1, cells)
    {
      prev, he := null, head;
      ghost var p := 0;
      while he != null && he.key != k
        invariant p <= |c| && he == NodeAt(c, p, cells)
        invariant prev == if p == 0 then null else NodeAt(c, p - 1, cells)
        invariant forall j | 0 <= j < p :: c[j].key != k
        decreases |c| - p
      {
        prev, he, p := he, he.next, p + 1;
      }
    }

    /** `_dictKeyIndex` after its call of `_dictExpandIfNeeded`. */
    method KeyIndex(k: Key) returns (index: int)
      requires Valid() && Indexable(s)
      ensures index == (match DictOps.KeyIndex(s, k, hash) case None => -1 case Some(i) => i)
    {
      hide TableOk, KeysUnique, Entries, Position;
      var h := hash(k);
      var i0 := Index(h, table0.Length);
      var prev, he := Walk(table0[i0], s.ht0.buckets[i0], k);
      if he != null { return -1; }
      if rehashidx == -1 { return i0; }
      var i1 := Index(h, table1.Length);
      prev, he := Walk(table1[i1], s.ht1.buckets[i1], k);
      return if he != null then -1 else i1;
    }

    /** A new entry object at the head of bucket `index` of `table`, which holds `t`. */
    method PushFront(table: array<DictEntry?>, ghost t: Table, k: Key, v: Value, index: nat)
      requires Mirrors(cells) && TableLinked(table[..], t.buckets, cells)
      requires k !in cells && OthersLack(t.buckets, k, |t.buckets|)
      requires 0 < |t.buckets| && index == Index(hash(k), |t.buckets|)
      modifies table, this`cells
      ensures Mirrors(cells) && TableLinked(table[..], Prepend(t, Entry(k, v), hash).buckets, cells)
      ensures k in cells && fresh(cells[k].node) && cells == old(cells)[k := cells[k]]
    {
      hide ChainOk, OthersLack, OnlyChanged, NoKey;
      ghost var was, heads := cells, table[..];
      var entry := new DictEntry(k, v, table[index]);
      cells := cells[k := Cell(entry, v, table[index])];
      CellChanged(was, k, cells[k]);
      ChainsFrame(heads, t.buckets, was, cells, k, |t.buckets|);
      LacksAll(t.buckets, k, index);
      LinkedFront(entry, Entry(k, v), t.buckets[index], heads[index], was, cells);
      table[index] := entry;
      assert table[..] == heads[index := entry];
    }

    /** The tail of `dictAddRaw`. */
    method Insert(k: Key, v: Value, index: nat)
      requires Valid() && Indexable(s) && k !in Contents(s, hash)
      requires DictOps.KeyIndex(s, k, hash) == Some(index)
      modifies this, table0, table1
      ensures Valid() && table0 == old(table0) && table1 == old(table1)
      ensures s == DictOps.Insert(old(s), Entry(k, v), hash)
      ensures k in cells && fresh(cells[k].node) && cells == old(cells)[k := cells[k]]
    {
      hide TableOk, KeysUnique, Entries, Position, ChainOk, RehashOk, Prepend, MapOf, OthersLack, OnlyChanged, NodesOf;
      ghost var was := cells;
      InsertOk(s, Entry(k, v), hash);
      KeyNowhere(s, k, hash);
      if rehashidx != -1 {
        PushFront(table1, s.ht1, k, v, index);
        CellChanged(was, k, cells[k]);
        ChainsFrame(table0[..], s.ht0.buckets, was, cells, k, table0.Length);
        used1 := used1 + 1;
      } else {
        PushFront(table0, s.ht0, k, v, index);
        CellChanged(was, k, cells[k]);
        ChainsFrame(table1[..], s.ht1.buckets, was, cells, k, table1.Length);
        used0 := used0 + 1;
      }
      PrependUsed(s.ht0, Entry(k, v), hash);
      PrependUsed(s.ht1, Entry(k, v), hash);
      s := DictOps.Insert(s, Entry(k, v), hash);
    }

    /** `dictAdd`. */
    method Add(k: Key, v: Value, canResize: bool) returns (ok: bool)
      requires Valid()
      modifies this, table0, table1, NodesOf(cells)
      ensures Valid() && (s, ok) == DictOps.Add(old(s), k, v, canResize, hash)
      ensures if ok then k in cells && fresh(cells[k].node) else SameObjects(old(cells), cells)
      ensures table0 == old(table0) || table0 == old(table1) || fresh(table0)
      ensures table1 == old(table1) || fresh(table1)
      ensures forall x | x in old(cells) :: x in cells && cells[x].node == old(cells)[x].node
    {
      hide TableOk, KeysUnique, Entries, Position, ChainOk, RehashOk, MapOf, Mirrors, TableLinked;
      AddOk(s, k, v, canResize, hash);
      RehashStepOk(s, hash);
      ExpandIfNeededOk(DictState.RehashStep(s, hash), canResize, hash);
      RehashStep();
      ExpandIfNeeded(canResize);
      WhereOk(s, k, hash);
      var index := KeyIndex(k);
      if index == -1 { return false; }
      Insert(k, v, index);
      return true;
    }

    /** The search of `dictFind` over the two tables. */
    method Lookup(k: Key) returns (he: DictEntry?)
      requires Valid() && Indexable(s)
      ensures he == (if k in cells then cells[k].node else null)
      ensures he != null ==> he.val == Contents(s, hash)[k]
    {
      hide TableOk, KeysUnique, Entries, ChainOk, RehashOk, MapOf, Position, NodeAt;
      WhereOk(s, k, hash);
      var i0 := Index(hash(k), table0.Length);
      var prev, e := Walk(table0[i0], s.ht0.buckets[i0], k);
      if e != null { return e; }
      if rehashidx == -1 { return null; }
      var i1 := Index(hash(k), table1.Length);
      prev, e := Walk(table1[i1], s.ht1.buckets[i1], k);
      return e;
    }

    /** `dictFind`. */
    method Find(k: Key) returns (he: DictEntry?)
      requires Valid()
      modifies this, table0, table1, NodesOf(cells)
      ensures Valid() && s == DictOps.Find(old(s), k, hash).0 && SameObjects(old(cells), cells)
      ensures he == (if k in cells then cells[k].node else null)
      ensures (if he == null then None else Some(he.val)) == DictOps.Find(old(s), k, hash).1
      ensures table0 == old(table0) || table0 == old(table1)
      ensures table1 == old(table1) || fresh(table1)
    {
      hide TableOk, KeysUnique, Entries, ChainOk, RehashOk, MapOf, Mirrors;
      FindOk(s, k, hash);
      if table0.Length == 0 { return null; }
      StepIndexable(s, hash);
      RehashStep();
      he := Lookup(k);
    }

    /** Set the value of the entry `he`, which holds `k`. */
    method SetValue(he: DictEntry, k: Key, v: Value)
      requires Valid() && Indexable(s) && k in cells && cells[k].node == he
      modifies this`s, this`cells, he`val
      ensures Valid() && SameObjects(old(cells), cells)
      ensures s == (match Where(old(s), k, hash)
                    case 0 => old(s).(ht0 := AssignIn(old(s).ht0, k, v, hash))
                    case 1 => old(s).(ht1 := AssignIn(old(s).ht1, k, v, hash))
                    case _ => old(s))
    {
      hide DictState.Valid, Entries, MapOf, Position, SameObjects, ValueIn, AssignIn, TableLinked, ChainsOk, InChain, Contents;
      WhereOk(s, k, hash);
      ghost var was := cells;
      he.val := v;
      cells := cells[k := Cell(he, v, he.next)];
      SameNodes(was, cells, k);
      assert Mirrors(cells);
      if Where(s, k, hash) == 0 {
        SetIn0(table0[..], table1[..], s, k, v, was, cells, hash);
        s := s.(ht0 := AssignIn(s.ht0, k, v, hash));
      } else {
        SetIn1(table0[..], table1[..], s, k, v, was, cells, hash);
        s := s.(ht1 := AssignIn(s.ht1, k, v, hash));
      }
    }

    /** `dictReplace`. */
    method Replace(k: Key, v: Value, canResize: bool) returns (isNew: bool)
      requires Valid()
      modifies this, table0, table1, NodesOf(cells)
      ensures Valid() && (s, isNew) == DictOps.Replace(old(s), k, v, canResize, hash)
      ensures forall x | x in old(cells) :: x in cells && cells[x].node == old(cells)[x].node
    {
      hide TableOk, KeysUnique, Entries, ChainOk, RehashOk, MapOf, Mirrors, TableLinked, DictOps.Add;
      AddOk(s, k, v, canResize, hash);
      var added := Add(k, v, canResize);
      if added { return true; }
      ghost var s1 := s;
      StepIndexable(s1, hash);
      WhereOk(DictState.RehashStep(s1, hash), k, hash);
      var entry := Find(k);
      assert entry in old(NodesOf(cells));
      SetValue(entry, k, v);
      return false;
    }

    /** Unlink `he`, found after `prev` in bucket `i` of `table`. The other table, `others`
        with the chains `ob`, is left as it is. */
    method Unlink(table: array<DictEntry?>, ghost t: Table, i: nat, k: Key, prev: DictEntry?, he: DictEntry,
                  ghost others: seq<DictEntry?>, ghost ob: seq<Chain>)
      requires Mirrors(cells) && TableLinked(table[..], t.buckets, cells) && TableLinked(others, ob, cells)
      requires KeysUnique(Bag(t.buckets) + Bag(ob))
      requires i < |t.buckets| && i == Index(hash(k), |t.buckets|) && InChain(t.buckets[i], k) && t.used > 0
      requires k in cells && he == cells[k].node
      requires var p := Position(t.buckets[i], k); prev == if p == 0 then null else NodeAt(t.buckets[i], p - 1, cells)
      modifies table, this`cells, NodesOf(cells)
      ensures Mirrors(cells) && TableLinked(others, ob, cells)
      ensures TableLinked(table[..], DeleteIn(t, k, hash).buckets, cells)
      ensures cells.Keys == old(cells).Keys - {k}
      ensures forall x | x in cells :: cells[x].node == old(cells)[x].node
    {
      hide KeysUnique, Bag, ChainOk, OthersLack, OnlyChanged, Position;
      ghost var b, heads, was := t.buckets, table[..], cells;
      ghost var c := b[i];
      ghost var p := Position(c, k);
      OnlyHere(b, ob, i, p);
      NodeOfPlace(heads[i], c, p, cells);
      if p > 0 {
        OnlyHere(b, ob, i, p - 1);
        NodeOfPlace(heads[i], c, p - 1, cells);
      }
      if prev != null {
        ghost var kp := c[p - 1].key;
        prev.next := he.next;
        cells := cells[kp := Cell(prev, prev.val, he.next)];
        CellChanged(was, kp, cells[kp]);
        ChainsFrame(heads, b, was, cells, kp, i);
        ChainsFrame(others, ob, was, cells, kp, |ob|);
      } else {
        table[i] := he.next;
      }
      ghost var mid := cells;
      cells := cells - {k};
      KeyDropped(mid, k);
      ChainsFrame(heads, b, mid, cells, k, i);
      ChainsFrame(others, ob, mid, cells, k, |ob|);
      CutChain(heads[i], c, p, was, cells);
      TableLinkedUpdate(heads, b, i, table[i], Without(c, k), cells);
      assert table[..] == heads[i := table[i]];
    }

    /** Delete the entry found in the old table. */
    method DeleteFrom0(k: Key, prev: DictEntry?, he: DictEntry)
      requires Valid() && Indexable(s) && InChain(ChainOf(s.ht0, k, hash), k)
      requires k in cells && he == cells[k].node
      requires var c := ChainOf(s.ht0, k, hash);
               prev == if Position(c, k) == 0 then null else NodeAt(c, Position(c, k) - 1, cells)
      modifies this, table0, NodesOf(cells)
      ensures old(s).ht0.used > 0 && Valid() && s == old(s).(ht0 := DeleteIn(old(s).ht0, k, hash))
      ensures table0 == old(table0) && table1 == old(table1)
      ensures forall x | x in old(cells) && x != k :: x in cells && cells[x].node == old(cells)[x].node
    {
      hide TableOk, KeysUnique, ChainOk, RehashOk, MapOf, Bag, Position, OthersLack, NodeAt;
      WhereOk(s, k, hash);
      DictOps.DeleteFrom0(s, k, hash);
      Unlink(table0, s.ht0, Index(hash(k), table0.Length), k, prev, he, table1[..], s.ht1.buckets);
      used0 := used0 - 1;
      s := s.(ht0 := DeleteIn(s.ht0, k, hash));
    }

    /** Delete the entry found in the new table. */
    method DeleteFrom1(k: Key, prev: DictEntry?, he: DictEntry)
      requires Valid() && Indexable(s) && IsRehashing(s) && InChain(ChainOf(s.ht1, k, hash), k)
      requires !InChain(ChainOf(s.ht0, k, hash), k)
      requires k in cells && he == cells[k].node
      requires var c := ChainOf(s.ht1, k, hash);
               prev == if Position(c, k) == 0 then null else NodeAt(c, Position(c, k) - 1, cells)
      modifies this, table1, NodesOf(cells)
      ensures old(s).ht1.used > 0 && Valid() && s == old(s).(ht1 := DeleteIn(old(s).ht1, k, hash))
      ensures table0 == old(table0) && table1 == old(table1)
      ensures forall x | x in old(cells) && x != k :: x in cells && cells[x].node == old(cells)[x].node
    {
      hide TableOk, KeysUnique, ChainOk, RehashOk, MapOf, Bag, Position, OthersLack, NodeAt;
      WhereOk(s, k, hash);
      DictOps.DeleteFrom1(s, k, hash);
      BagSwapTables(s);
      Unlink(table1, s.ht1, Index(hash(k), table1.Length), k, prev, he, table0[..], s.ht0.buckets);
      used1 := used1 - 1;
      s := s.(ht1 := DeleteIn(s.ht1, k, hash));
    }

    /** `dictDelete`. */
    method Delete(k: Key) returns (ok: bool)
      requires Valid()
      modifies this, table0, table1, NodesOf(cells)
      ensures Valid() && (s, ok) == DictOps.Delete(old(s), k, hash)
      ensures forall x | x in old(cells) && x != k :: x in cells && cells[x].node == old(cells)[x].node
      ensures table0 == old(table0) || table0 == old(table1)
      ensures table1 == old(table1) || fresh(table1)
    {
      hide TableOk, KeysUnique, Entries, ChainOk, RehashOk, MapOf, Bag, Position, OthersLack, NodeAt, DeleteIn, ValueIn, NodesOf;
      DeleteOk(s, k, hash);
      if table0.Length == 0 { return false; }
      StepIndexable(s, hash);
      RehashStep();
      WhereOk(s, k, hash);
      var i0 := Index(hash(k), table0.Length);
      var prev, he := Walk(table0[i0], s.ht0.buckets[i0], k);
      if he != null {
        DeleteFrom0(k, prev, he);
        return true;
      }
      if rehashidx == -1 { return false; }
      var i1 := Index(hash(k), table1.Length);
      prev, he := Walk(table1[i1], s.ht1.buckets[i1], k);
      if he != null {
        DeleteFrom1(k, prev, he);
        return true;
      }
      return false;
    }
  }

  lemma BagSwapTables(s: State)
    ensures Bag(s.ht1.buckets) + Bag(s.ht0.buckets) == Entries(s)
  {
  }

  lemma KeyDropped(cells: Cells, k: Key)
    ensures OnlyChanged(cells, cells - {k}, k)
  {
  }

  lemma NodeOfPlace(head: DictEntry?, c: Chain, p: nat, cells: Cells)
    requires ChainOk(head, c, cells) && p < |c|
    ensures c[p].key in cells && NodeAt(c, p, cells) == cells[c[p].key].node && cells[c[p].key].val == c[p].val
    ensures cells[c[p].key].next == NodeAt(c, p + 1, cells)
  {
  }

  /** Where the objects of a chain are after place `p` is cut out of it. */
  lemma CutNodes(c: Chain, p: nat, cells: Cells, cells': Cells)
    requires p < |c| && forall j | 0 <= j < |c| && j != p :: c[j].key != c[p].key
    requires forall j | 0 <= j < |c| && j != p :: c[j].key in cells && c[j].key in cells'
    requires forall j | 0 <= j < |c| && j != p :: cells'[c[j].key].node == cells[c[j].key].node
    ensures var d := c[..p] + c[p + 1..];
            && (forall j | 0 <= j < p :: NodeAt(d, j, cells') == NodeAt(c, j, cells))
            && (forall j | p <= j < |c| :: NodeAt(d, j, cells') == NodeAt(c, j + 1, cells))
  {
  }

  /** A chain with place `p` cut out: the entry before it, or the head, points past it. */
  lemma CutChain(head: DictEntry?, c: Chain, p: nat, cells: Cells, cells': Cells)
    requires ChainOk(head, c, cells) && p < |c|
    requires forall j | 0 <= j < |c| && j != p :: c[j].key != c[p].key
    requires p > 0 ==> forall j | 0 <= j < |c| && j != p - 1 :: c[j].key != c[p - 1].key
    requires c[p].key in cells
    requires var next := cells[c[p].key].next;
             if p == 0 then cells' == cells - {c[0].key}
             else c[p - 1].key in cells
                  && cells' == cells[c[p - 1].key := cells[c[p - 1].key].(next := next)] - {c[p].key}
    ensures ChainOk(if p == 0 then cells[c[0].key].next else head, c[..p] + c[p + 1..], cells')
  {
    hide NodeAt;
    CutNodes(c, p, cells, cells');
  }

  /** A value set in the cell of a key that the first table holds. */
  lemma SetIn0(h0: seq<DictEntry?>, h1: seq<DictEntry?>, s: State, k: Key, v: Value, was: Cells, now: Cells, hash: HashFn)
    requires DictState.Valid(s, hash) && Indexable(s) && Where(s, k, hash) == 0
    requires TableLinked(h0, s.ht0.buckets, was) && TableLinked(h1, s.ht1.buckets, was)
    requires k in was && now == was[k := was[k].(val := v)]
    ensures var r := s.(ht0 := AssignIn(s.ht0, k, v, hash));
            && DictState.Valid(r, hash) && Contents(r, hash) == Contents(s, hash)[k := v]
            && TableLinked(h0, r.ht0.buckets, now) && TableLinked(h1, r.ht1.buckets, now)
  {
    hide DictState.Valid, Entries, ChainOk, MapOf, Position, OnlyChanged, OthersLack, AssignIn;
    Assign0(s, k, v, hash);
    FoundOnlyHere(s, k, hash);
    CellChanged(was, k, now[k]);
    AssignLinked(h0, s.ht0, k, v, was, now, hash);
    ChainsFrame(h1, s.ht1.buckets, was, now, k, |h1|);
  }

  lemma SetIn1(h0: seq<DictEntry?>, h1: seq<DictEntry?>, s: State, k: Key, v: Value, was: Cells, now: Cells, hash: HashFn)
    requires DictState.Valid(s, hash) && Indexable(s) && Where(s, k, hash) == 1
    requires TableLinked(h0, s.ht0.buckets, was) && TableLinked(h1, s.ht1.buckets, was)
    requires k in was && now == was[k := was[k].(val := v)]
    ensures var r := s.(ht1 := AssignIn(s.ht1, k, v, hash));
            && DictState.Valid(r, hash) && Contents(r, hash) == Contents(s, hash)[k := v]
            && TableLinked(h0, r.ht0.buckets, now) && TableLinked(h1, r.ht1.buckets, now)
  {
    hide DictState.Valid, Entries, ChainOk, MapOf, Position, OnlyChanged, OthersLack, AssignIn;
    Assign1(s, k, v, hash);
    FoundOnlyHere(s, k, hash);
    CellChanged(was, k, now[k]);
    AssignLinked(h1, s.ht1, k, v, was, now, hash);
    ChainsFrame(h0, s.ht0.buckets, was, now, k, |h0|);
  }

  /** The chain that holds `k` stays linked when the value of its entry is set. */
  lemma AssignLinked(heads: seq<DictEntry?>, t: Table, k: Key, v: Value, cells: Cells, cells': Cells, hash: HashFn)
    requires TableLinked(heads, t.buckets, cells) && |t.buckets| > 0 && InChain(ChainOf(t, k, hash), k)
    requires k in cells && cells' == cells[k := cells[k].(val := v)]
    requires OnlyAt(t.buckets, Index(hash(k), |t.buckets|), k)
    ensures TableLinked(heads, AssignIn(t, k, v, hash).buckets, cells')
  {
    var b, i := t.buckets, Index(hash(k), |t.buckets|);
    var p := Position(b[i], k);
    AssignChain(heads[i], b[i], p, Entry(k, v), cells, cells');
    ChainsFrame(heads, b, cells, cells', k, i);
    TableLinkedUpdate(heads, b, i, heads[i], b[i][p := Entry(k, v)], cells');
  }

  lemma AssignChain(head: DictEntry?, c: Chain, p: nat, e: Entry, cells: Cells, cells': Cells)
    requires ChainOk(head, c, cells) && p < |c| && c[p].key == e.key
    requires forall j | 0 <= j < |c| && j != p :: c[j].key != e.key
    requires cells' == cells[e.key := cells[e.key].(val := e.val)]
    ensures ChainOk(head, c[p := e], cells')
  {
    var d := c[p := e];
    forall j | 0 <= j <= |c| ensures NodeAt(d, j, cells') == NodeAt(c, j, cells) { }
  }

  lemma TableLinkedUpdate(heads: seq<DictEntry?>, b: seq<Chain>, i: nat, head: DictEntry?, c: Chain, cells: Cells)
    requires ChainsOk(heads, b, cells, i) && i < |b| && ChainOk(head, c, cells)
    ensures TableLinked(heads[i := head], b[i := c], cells)
  {
  }

  lemma PrependUsed(t: Table, e: Entry, hash: HashFn)
    ensures |t.buckets| > 0 ==> Prepend(t, e, hash).used == t.used + 1
  {
  }

  /** A key that is not in the map is in no chain. */
  lemma KeyNowhere(s: State, k: Key, hash: HashFn)
    requires DictState.Valid(s, hash) && k !in Contents(s, hash)
    ensures OthersLack(s.ht0.buckets, k, |s.ht0.buckets|) && OthersLack(s.ht1.buckets, k, |s.ht1.buckets|)
  {
    forall i, j | 0 <= i < |s.ht0.buckets| && 0 <= j < |s.ht0.buckets[i]| ensures s.ht0.buckets[i][j].key != k {
      InBag(s.ht0.buckets, i, s.ht0.buckets[i][j]);
      InMap(Entries(s), s.ht0.buckets[i][j]);
    }
    forall i, j | 0 <= i < |s.ht1.buckets| && 0 <= j < |s.ht1.buckets[i]| ensures s.ht1.buckets[i][j].key != k {
      InBag(s.ht1.buckets, i, s.ht1.buckets[i][j]);
      InMap(Entries(s), s.ht1.buckets[i][j]);
    }
  }

  /** `_dictNextPower`. */
  method NextPowerLoop(size: nat) returns (i: nat)
    ensures i == NextPower(size)
  {
    i := INITIAL_SIZE;
    while i < size
      invariant i > 0 && NextPowerFrom(i, size) == NextPower(size)
    {
      i := i * 2;
    }
  }

  lemma EmptyLinked(heads: seq<DictEntry?>, size: nat, cells: Cells)
    requires |heads| == size && forall i | 0 <= i < size :: heads[i] == null
    ensures TableLinked(heads, NewTable(size).buckets, cells)
  {
  }

  lemma MidOfValid(s: State, n: nat, hash: HashFn)
    requires Valid(s, hash) && IsRehashing(s)
    ensures MidRehash(s, hash) && DictState.Rehash(s, n, hash) == RehashLoop(s, n, n * 10, hash)
  {
  }

  lemma LoopEnds(s: State, n: nat, visits: nat, hash: HashFn)
    requires MidRehash(s, hash) && (n > 0 ==> visits > 0) && (n == 0 || s.ht0.used == 0)
    ensures RehashLoop(s, n, visits, hash) == FinishRehash(s)
    ensures IsRehashing(FinishRehash(s)) <==> s.ht0.used != 0
  {
  }

  /** One round of the loop of `dictRehash`: skip empty buckets, then move one. */
  lemma RoundIs(s: State, n: nat, visits: nat, hash: HashFn)
    requires MidRehash(s, hash) && n > 0 && visits > 0 && s.ht0.used != 0
    ensures SomeFrom(s.ht0.buckets, s.rehashidx)
    ensures var (i, left) := SkipEmpty(s.ht0.buckets, s.rehashidx, visits);
            var s' := s.(rehashidx := i);
            && MidRehash(s', hash) && IsRehashing(s')
            && (left == 0 ==> RehashLoop(s, n, visits, hash) == s')
            && (left > 0 ==>
                  var moved := DictState.MoveBucket(s', i, hash);
                  && MidRehash(moved, hash)
                  && RehashLoop(s, n, visits, hash) == RehashLoop(moved, n - 1, left, hash))
  {
    SomeLeft(s, hash);
    var (i, left) := SkipEmpty(s.ht0.buckets, s.rehashidx, visits);
    MoveBucketOk(s, i, hash);
  }

  lemma NullIsEmpty(heads: seq<DictEntry?>, b: seq<Chain>, i: nat, cells: Cells)
    requires TableLinked(heads, b, cells) && i < |b|
    ensures heads[i] == null <==> b[i] == []
  {
  }

  /** Moving one entry between the tables leaves all entries together the same. */
  lemma ShiftEntry(b: seq<Chain>, i: nat, rest: Chain, t: Table, hash: HashFn)
    requires i < |b| && rest != [] && TableOk(t, hash) && |t.buckets| > 0
    ensures var t' := Prepend(t, rest[0], hash);
            && TableOk(t', hash)
            && Bag(b[i := rest[1..]]) + Bag(t'.buckets) == Bag(b[i := rest]) + Bag(t.buckets)
  {
    hide TableOk, Bag;
    PrependOk(t, rest[0], hash);
    BagUpdate(b, i, rest);
    BagUpdate(b, i, rest[1..]);
    assert rest == [rest[0]] + rest[1..];
    var x, y, z := Bag(b[i := rest[1..]]), Bag(b[i := rest]), multiset(b[i]);
    assert multiset(rest) == multiset(rest[1..]) + multiset{rest[0]};
    assert x + multiset{rest[0]} + z == (x + z) + multiset{rest[0]};
    assert y + z == (Bag(b) + multiset(rest[1..])) + multiset{rest[0]};
    BagCancel(x + multiset{rest[0]}, y, z);
  }

  lemma EndOfChain(c: Chain, cells: Cells)
    requires ChainOk(null, c, cells)
    ensures c == []
  {
  }

  lemma EmptiedBucket(heads: seq<DictEntry?>, b: seq<Chain>, i: nat, cells: Cells)
    requires ChainsOk(heads, b, cells, i) && i < |b|
    ensures TableLinked(heads[i := null], b[i := []], cells)
  {
  }

  lemma SameNodes(cells: Cells, cells': Cells, k: Key)
    requires k in cells && k in cells' && cells'[k].node == cells[k].node
    requires cells' == cells[k := cells'[k]]
    ensures SameObjects(cells, cells')
  {
    forall n | n in NodesOf(cells) ensures n in NodesOf(cells') {
      var x :| x in cells && cells[x].node == n;
      assert cells'[x].node == n;
    }
    forall n | n in NodesOf(cells') ensures n in NodesOf(cells) {
      var x :| x in cells' && cells'[x].node == n;
      assert cells[x].node == n;
    }
  }

  lemma CellChanged(cells: Cells, k: Key, cell: Cell)
    ensures OnlyChanged(cells, cells[k := cell], k)
  {
  }

  /** The object at the head of a list holds the list's first key. */
  lemma HeadIs(de: DictEntry, c: Chain, cells: Cells)
    requires Mirrors(cells) && ChainOk(de, c, cells)
    ensures c != [] && c[0].key == de.key && de.key in cells && cells[de.key].node == de
    ensures de.val == c[0].val && de.next == NodeAt(c, 1, cells)
  {
  }

  lemma LacksAll(b: seq<Chain>, k: Key, i: nat)
    requires OthersLack(b, k, |b|) && i < |b|
    ensures NoKey(b[i], k)
  {
  }

  lemma OthersLackUpdated(b: seq<Chain>, i: nat, c: Chain, k: Key)
    requires i < |b| && OthersLack(b[i := c], k, i)
    ensures OthersLack(b, k, i)
  {
    forall j | 0 <= j < |b| && j != i ensures NoKey(b[j], k) { assert b[i := c][j] == b[j]; }
  }

  /** What follows the first entry stays linked when only that entry's cell changes. */
  lemma TailOk(next: DictEntry?, c: Chain, cells: Cells, cells': Cells, k: Key)
    requires c != [] && c[0].key == k && NoKey(c[1..], k) && OnlyChanged(cells, cells', k)
    requires ChainOk(NodeAt(c, 0, cells), c, cells) && next == NodeAt(c, 1, cells)
    ensures ChainOk(next, c[1..], cells')
  {
    var d := c[1..];
    forall j | 0 <= j <= |d| ensures NodeAt(d, j, cells) == NodeAt(c, j + 1, cells) { }
    ChainFrame(next, d, cells, cells', k);
  }

  /** Linking an object in front of a chain. */
  lemma LinkedFront(de: DictEntry, e: Entry, c: Chain, head: DictEntry?, cells: Cells, cells': Cells)
    requires ChainOk(head, c, cells) && NoKey(c, e.key) && OnlyChanged(cells, cells', e.key)
    requires e.key in cells' && cells'[e.key] == Cell(de, e.val, head)
    ensures ChainOk(de, [e] + c, cells')
  {
    ChainFrame(head, c, cells, cells', e.key);
    var d := [e] + c;
    forall j | 0 < j <= |d| ensures NodeAt(d, j, cells') == NodeAt(c, j - 1, cells') { }
  }
}
