/** The integer set of src/intset.c: sorted integers of 2, 4 or 8 bytes each in one buffer. */
module IntSet {
  import opened Bytes
  import opened Memory

  const ENC_INT16: nat := 2
  const ENC_INT32: nat := 4
  const ENC_INT64: nat := 8

  predicate KnownEncoding(enc: nat) {
    enc == ENC_INT16 || enc == ENC_INT32 || enc == ENC_INT64
  }

  /** `_intsetValueEncoding`: the narrowest encoding that holds the value. */
  function ValueEncoding(v: int): (enc: nat)
    requires IsInt64(v)
    ensures KnownEncoding(enc) && FitsSigned(v, enc)
    ensures forall e | KnownEncoding(e) && FitsSigned(v, e) :: enc <= e
  {
    Powers();
    if v < -0x8000_0000 || v > 0x7fff_ffff then ENC_INT64
    else if v < -0x8000 || v > 0x7fff then ENC_INT32
    else ENC_INT16
  }

  /** Where element `pos` starts. */
  function Place(pos: nat, enc: nat): nat
    requires KnownEncoding(enc)
  {
    if enc == ENC_INT64 then 8 * pos else if enc == ENC_INT32 then 4 * pos else 2 * pos
  }

  // ---------- The set as a sorted sequence ----------

  predicate Sorted(vs: seq<int>) {
    forall i, j | 0 <= i < j < |vs| :: vs[i] < vs[j]
  }

  predicate AllFit(vs: seq<int>, enc: nat) {
    forall i | 0 <= i < |vs| :: FitsSigned(vs[i], enc)
  }

  /** What the set holds and how wide its elements are. */
  datatype View = View(values: seq<int>, encoding: nat)

  predicate ViewOk(s: View) {
    KnownEncoding(s.encoding) && Sorted(s.values) && AllFit(s.values, s.encoding)
  }

  /** `pos` is the place of `v`, or the place to put it. */
  predicate IsPlace(vs: seq<int>, v: int, pos: nat) {
    && pos <= |vs|
    && (forall i | 0 <= i < pos :: vs[i] < v)
    && (forall i | pos <= i < |vs| :: v <= vs[i])
  }

  function PlaceOf(vs: seq<int>, v: int): (pos: nat)
    requires Sorted(vs)
    ensures IsPlace(vs, v, pos)
  {
    if vs == [] || v > vs[|vs| - 1] then |vs| else PlaceOf(vs[..|vs| - 1], v)
  }

  lemma PlaceUnique(vs: seq<int>, v: int, p: nat, q: nat)
    requires IsPlace(vs, v, p) && IsPlace(vs, v, q)
    ensures p == q
  {
    assert p < |vs| ==> v <= vs[p];
    assert q < |vs| ==> v <= vs[q];
  }

  function Added(s: View, v: int): View
    requires ViewOk(s) && IsInt64(v)
  {
    if v in s.values then s
    else
      var p, e := PlaceOf(s.values, v), ValueEncoding(v);
      View(s.values[..p] + [v] + s.values[p..], if e > s.encoding then e else s.encoding)
  }

  function Removed(s: View, v: int): View
    requires ViewOk(s)
  {
    if v !in s.values then s
    else
      var p := PlaceOf(s.values, v);
      s.(values := s.values[..p] + s.values[p + 1..])
  }

  function Elements(s: View): set<int> {
    set v | v in s.values
  }

  lemma FitsWider(v: int, e: nat, e': nat)
    requires KnownEncoding(e) && KnownEncoding(e') && FitsSigned(v, e) && e <= e'
    ensures FitsSigned(v, e')
  {
    Powers();
  }

  lemma InsertedSorted(vs: seq<int>, v: int, p: nat)
    requires Sorted(vs) && IsPlace(vs, v, p) && v !in vs
    ensures Sorted(vs[..p] + [v] + vs[p..])
    ensures forall x :: x in vs[..p] + [v] + vs[p..] <==> x in vs || x == v
  {
    var r := vs[..p] + [v] + vs[p..];
    forall i, j | 0 <= i < j < |r| ensures r[i] < r[j] {
      assert j > p ==> r[j] == vs[j - 1];
      assert i > p ==> r[i] == vs[i - 1];
    }
    assert r[p] == v;
    assert vs == vs[..p] + vs[p..];
  }

  lemma {:induction false} AddedOk(s: View, v: int)
    requires ViewOk(s) && IsInt64(v)
    ensures var r := Added(s, v);
            && ViewOk(r) && Elements(r) == Elements(s) + {v}
            && r.encoding >= s.encoding
            && (forall e: nat | KnownEncoding(e) && e >= s.encoding && FitsSigned(v, e) :: r.encoding <= e)
            && (r == s <==> v in Elements(s))
  {
    if v !in s.values {
      var r := Added(s, v);
      InsertedSorted(s.values, v, PlaceOf(s.values, v));
      forall i | 0 <= i < |r.values| ensures FitsSigned(r.values[i], r.encoding) {
        var x := r.values[i];
        assert x in r.values;
        FitsWider(x, if x == v then ValueEncoding(v) else s.encoding, r.encoding);
      }
    }
  }

  lemma RemovedOk(s: View, v: int)
    requires ViewOk(s)
    ensures var r := Removed(s, v);
            && ViewOk(r) && Elements(r) == Elements(s) - {v}
            && r.encoding == s.encoding
            && (r == s <==> v !in Elements(s))
  {
    if v in s.values {
      var p := PlaceOf(s.values, v);
      var k :| 0 <= k < |s.values| && s.values[k] == v;
      PlaceUnique(s.values, v, k, p);
      RemovedSorted(s.values, p);
      forall i | 0 <= i < |Removed(s, v).values| ensures FitsSigned(Removed(s, v).values[i], s.encoding) {
        assert Removed(s, v).values[i] in s.values;
      }
    }
  }

  lemma RemovedSorted(vs: seq<int>, p: nat)
    requires Sorted(vs) && p < |vs|
    ensures Sorted(vs[..p] + vs[p + 1..])
    ensures forall x :: x in vs[..p] + vs[p + 1..] <==> x in vs && x != vs[p]
  {
    var r := vs[..p] + vs[p + 1..];
    forall i | 0 <= i < |r| ensures r[i] == if i < p then vs[i] else vs[i + 1] {}
    assert vs == vs[..p] + [vs[p]] + vs[p + 1..];
  }

  // ---------- Whole runs ----------

  datatype Op = Add(value: int) | Remove(value: int) | Find(value: int)

  /** The set after an operation and the flag it reports. */
  function Step(s: View, op: Op): (View, bool)
    requires ViewOk(s) && IsInt64(op.value)
  {
    match op
    case Add(v) => (Added(s, v), v !in s.values)
    case Remove(v) => (Removed(s, v), v in s.values)
    case Find(v) => (s, v in s.values)
  }

  predicate OpsOk(ops: seq<Op>) {
    forall i | 0 <= i < |ops| :: IsInt64(ops[i].value)
  }

  /** The set after a run, and the flags reported. */
  ghost function Run(s: View, ops: seq<Op>): (r: (View, seq<bool>))
    requires ViewOk(s) && OpsOk(ops)
    ensures ViewOk(r.0) && r.0.encoding >= s.encoding
    decreases |ops|
  {
    if ops == [] then (s, [])
    else
      var (s', flag) := Step(s, ops[0]);
      StepOk(s, ops[0]);
      var (r, flags) := Run(s', ops[1..]);
      (r, [flag] + flags)
  }

  /** The set and the flag that an operation on a finite set gives. */
  function SetStep(s: set<int>, op: Op): (set<int>, bool) {
    match op
    case Add(v) => (s + {v}, v !in s)
    case Remove(v) => (s - {v}, v in s)
    case Find(v) => (s, v in s)
  }

  function RunSet(s: set<int>, ops: seq<Op>): (set<int>, seq<bool>)
    decreases |ops|
  {
    if ops == [] then (s, [])
    else
      var (s', flag) := SetStep(s, ops[0]);
      var (r, flags) := RunSet(s', ops[1..]);
      (r, [flag] + flags)
  }

  /** Every run, from any valid set, answers as the same run on a finite set; contents stay
      strictly sorted and fit, and the encoding never narrows. */
  lemma {:induction false} RunRefinesSet(s: View, ops: seq<Op>)
    requires ViewOk(s) && OpsOk(ops)
    ensures var (r, flags) := Run(s, ops);
            && (Elements(r), flags) == RunSet(Elements(s), ops)
            && Sorted(r.values) && AllFit(r.values, r.encoding) && r.encoding >= s.encoding
    decreases |ops|
  {
    hide Added, Removed, Elements;
    if ops != [] {
      StepOk(s, ops[0]);
      RunRefinesSet(Step(s, ops[0]).0, ops[1..]);
    }
  }

  lemma StepOk(s: View, op: Op)
    requires ViewOk(s) && IsInt64(op.value)
    ensures var (r, flag) := Step(s, op);
            && ViewOk(r) && r.encoding >= s.encoding
            && SetStep(Elements(s), op) == (Elements(r), flag)
  {
    hide ViewOk, Added, Removed;
    match op
    case Add(v) => AddedOk(s, v);
    case Remove(v) => RemovedOk(s, v);
    case Find(v) =>
  }

  // ---------- Elements in the buffer ----------

  /** Element `k` of the buffer is `v`. */
  predicate Holds(b: seq<byte>, enc: nat, k: nat, v: int) {
    KnownEncoding(enc) && Place(k, enc) + enc <= |b| && b[Place(k, enc)..Place(k, enc) + enc] == StoreSigned(v, enc)
  }

  predicate HoldsAll(b: seq<byte>, s: View) {
    KnownEncoding(s.encoding) && forall k | 0 <= k < |s.values| :: Holds(b, s.encoding, k, s.values[k])
  }

  lemma HoldsRead(b: seq<byte>, enc: nat, k: nat, v: int)
    requires Holds(b, enc, k, v) && FitsSigned(v, enc)
    ensures LoadSigned(b[Place(k, enc)..Place(k, enc) + enc]) == v
  {
    LoadStored(v, enc);
  }

  lemma PutHolds(b: seq<byte>, enc: nat, k: nat, v: int)
    requires KnownEncoding(enc) && Place(k, enc) + enc <= |b|
    ensures Holds(Put(b, Place(k, enc), StoreSigned(v, enc)), enc, k, v)
  {
    hide StoreSigned;
  }

  /** Writing elsewhere does not touch an element. */
  lemma PutElsewhere(b: seq<byte>, off: nat, x: seq<byte>, enc: nat, k: nat, v: int)
    requires Holds(b, enc, k, v) && off + |x| <= |b|
    requires Place(k, enc) + enc <= off || off + |x| <= Place(k, enc)
    ensures Holds(Put(b, off, x), enc, k, v)
  {
    hide StoreSigned;
    SliceElsewhere(b, off, x, Place(k, enc), Place(k, enc) + enc);
  }

  lemma SliceElsewhere(b: seq<byte>, off: nat, x: seq<byte>, lo: nat, hi: nat)
    requires off + |x| <= |b| && lo <= hi <= |b| && (hi <= off || off + |x| <= lo)
    ensures Put(b, off, x)[lo..hi] == b[lo..hi]
  {
  }

  /** An element moved along with the tail, and one that stays. */
  lemma MovedHolds(b: seq<byte>, enc: nat, from: nat, to: nat, count: nat, k: nat, v: int)
    requires Holds(b, enc, k, v) && Place(from, enc) + Place(count, enc) <= |b| && Place(to, enc) + Place(count, enc) <= |b|
    ensures from <= k < from + count ==>
              Holds(Moved(b, Place(to, enc), Place(from, enc), Place(count, enc)), enc, k - from + to, v)
    ensures k < to ==> Holds(Moved(b, Place(to, enc), Place(from, enc), Place(count, enc)), enc, k, v)
  {
    hide StoreSigned, Place, Moved;
    if from <= k < from + count {
      PlaceSum(from, k - from, enc);
      PlaceSum(to, k - from, enc);
      PlaceBefore(k - from, count, enc);
      MovedSlice(b, Place(to, enc), Place(from, enc), Place(count, enc), Place(k - from, enc), Place(k - from, enc) + enc);
    }
    if k < to {
      PlaceBefore(k, to, enc);
      MovedBefore(b, Place(to, enc), Place(from, enc), Place(count, enc), Place(k, enc), Place(k, enc) + enc);
    }
  }

  lemma PlaceSum(a: nat, b: nat, enc: nat)
    requires KnownEncoding(enc)
    ensures Place(a + b, enc) == Place(a, enc) + Place(b, enc)
  {
  }

  lemma PlaceBefore(a: nat, b: nat, enc: nat)
    requires KnownEncoding(enc) && a < b
    ensures Place(a, enc) + enc <= Place(b, enc)
  {
  }

  lemma MovedSlice(b: seq<byte>, dst: nat, src: nat, n: nat, lo: nat, hi: nat)
    requires dst + n <= |b| && src + n <= |b| && lo <= hi <= n
    ensures Moved(b, dst, src, n)[dst + lo..dst + hi] == b[src + lo..src + hi]
  {
    MiddleSlice(b[..dst], b[src..src + n], b[dst + n..], lo, hi);
    SliceOfSlice(b, src, n, lo, hi);
  }

  lemma SliceOfSlice<T>(b: seq<T>, src: nat, n: nat, lo: nat, hi: nat)
    requires src + n <= |b| && lo <= hi <= n
    ensures b[src..src + n][lo..hi] == b[src + lo..src + hi]
  {
    var x, y := b[src..src + n][lo..hi], b[src + lo..src + hi];
    forall i | 0 <= i < hi - lo ensures x[i] == y[i] {
      assert x[i] == b[src + lo + i];
    }
  }

  lemma MiddleSlice<T>(a: seq<T>, m: seq<T>, c: seq<T>, lo: nat, hi: nat)
    requires lo <= hi <= |m|
    ensures (a + m + c)[|a| + lo..|a| + hi] == m[lo..hi]
  {
    assert forall i | lo <= i < hi :: (a + m + c)[|a| + i] == m[i];
  }

  lemma MovedBefore(b: seq<byte>, dst: nat, src: nat, n: nat, lo: nat, hi: nat)
    requires dst + n <= |b| && src + n <= |b| && lo <= hi <= dst
    ensures Moved(b, dst, src, n)[lo..hi] == b[lo..hi]
  {
  }

  lemma PrefixHolds(b: seq<byte>, r: seq<byte>, n: nat, enc: nat, k: nat, v: int)
    requires Holds(b, enc, k, v) && Place(k, enc) + enc <= n <= |b| && n <= |r| && r[..n] == b[..n]
    ensures Holds(r, enc, k, v)
  {
    assert r[Place(k, enc)..Place(k, enc) + enc] == r[..n][Place(k, enc)..Place(k, enc) + enc];
    assert b[Place(k, enc)..Place(k, enc) + enc] == b[..n][Place(k, enc)..Place(k, enc) + enc];
  }

  // ---------- Widening in place ----------

  /** Before element `n` is rewritten: the elements below it are still narrow where they were,
      and the others already wide at their new places. */
  predicate Widening(b: seq<byte>, s: View, enc: nat, prepend: nat, n: nat) {
    && KnownEncoding(s.encoding) && KnownEncoding(enc) && n <= |s.values|
    && (forall k | 0 <= k < n :: Holds(b, s.encoding, k, s.values[k]))
    && (forall k | n <= k < |s.values| :: Holds(b, enc, k + prepend, s.values[k]))
  }

  lemma WidenStart(b: seq<byte>, r: seq<byte>, s: View, enc: nat, prepend: nat)
    requires HoldsAll(b, s) && KnownEncoding(enc) && s.encoding < enc
    requires |b| == Place(|s.values|, s.encoding) && |r| == Place(|s.values| + 1, enc)
    requires if |r| <= |b| then r == b[..|r|] else r[..|b|] == b
    ensures Widening(r, s, enc, prepend, |s.values|)
  {
    hide Holds;
    forall k | 0 <= k < |s.values| ensures Holds(r, s.encoding, k, s.values[k]) {
      PrefixHolds(b, r, |b|, s.encoding, k, s.values[k]);
    }
  }

  /** The element to be read is intact, and writing it wide keeps the elements not yet read:
      it starts at or behind their end. */
  lemma WidenNext(b: seq<byte>, s: View, enc: nat, prepend: nat, n: nat)
    requires Widening(b, s, enc, prepend, n + 1) && s.encoding < enc && prepend <= 1
    requires |b| == Place(|s.values| + 1, enc)
    ensures Holds(b, s.encoding, n, s.values[n])
    ensures Place(n + prepend, enc) + enc <= |b|
    ensures Widening(Put(b, Place(n + prepend, enc), StoreSigned(s.values[n], enc)), s, enc, prepend, n)
  {
    hide Holds, StoreSigned, Put;
    var at, x := Place(n + prepend, enc), StoreSigned(s.values[n], enc);
    PutHolds(b, enc, n + prepend, s.values[n]);
    forall k | 0 <= k < n ensures Holds(Put(b, at, x), s.encoding, k, s.values[k]) {
      PutElsewhere(b, at, x, s.encoding, k, s.values[k]);
    }
    forall k | n < k < |s.values| ensures Holds(Put(b, at, x), enc, k + prepend, s.values[k]) {
      PutElsewhere(b, at, x, enc, k + prepend, s.values[k]);
    }
  }

  /** A value that needs a wider encoding is below or above all elements. */
  lemma OutsideAll(s: View, v: int)
    requires ViewOk(s) && IsInt64(v) && ValueEncoding(v) > s.encoding
    ensures v !in s.values && PlaceOf(s.values, v) == if v < 0 then 0 else |s.values|
    ensures Added(s, v) == View(if v < 0 then [v] + s.values else s.values + [v], ValueEncoding(v)) && ViewOk(Added(s, v))
  {
    hide StoreSigned;
    Powers();
    assert !FitsSigned(v, s.encoding);
    PlaceUnique(s.values, v, PlaceOf(s.values, v), if v < 0 then 0 else |s.values|);
    AddedOk(s, v);
  }

  lemma WidenEnd(b: seq<byte>, s: View, enc: nat, prepend: nat, v: int)
    requires Widening(b, s, enc, prepend, 0) && |b| == Place(|s.values| + 1, enc)
    requires ViewOk(s) && IsInt64(v) && enc == ValueEncoding(v) > s.encoding && prepend == if v < 0 then 1 else 0
    ensures var pos := if prepend == 1 then 0 else |s.values|;
            && Place(pos, enc) + enc <= |b|
            && HoldsAll(Put(b, Place(pos, enc), StoreSigned(v, enc)), Added(s, v))
  {
    hide Holds, StoreSigned, Put, FitsSigned, Sorted;
    OutsideAll(s, v);
    var pos := if prepend == 1 then 0 else |s.values|;
    var r, x := Added(s, v), StoreSigned(v, enc);
    PutHolds(b, enc, pos, v);
    forall k | 0 <= k < |r.values| ensures Holds(Put(b, Place(pos, enc), x), enc, k, r.values[k]) {
      if k != pos {
        assert r.values[k] == s.values[k - prepend];
        assert Holds(b, enc, k - prepend + prepend, s.values[k - prepend]);
        PutElsewhere(b, Place(pos, enc), x, enc, k, r.values[k]);
      }
    }
  }

  lemma TooWide(s: View, v: int)
    requires ViewOk(s) && IsInt64(v)
    ensures ValueEncoding(v) > s.encoding ==> v !in s.values
  {
    Powers();
  }

  lemma FitsAt(s: View, k: nat)
    requires ViewOk(s) && k < |s.values|
    ensures FitsSigned(s.values[k], s.encoding)
  {
  }

  lemma AddedSame(s: View, v: int)
    requires ViewOk(s) && IsInt64(v) && v in s.values
    ensures Added(s, v) == s
  {
  }

  lemma RemovedSame(s: View, v: int)
    requires ViewOk(s)
    ensures v !in s.values ==> Removed(s, v) == s
  {
  }

  // ---------- Adding and removing in place ----------

  lemma AddedFits(s: View, v: int, pos: nat)
    requires ViewOk(s) && IsInt64(v) && ValueEncoding(v) <= s.encoding && v !in s.values && IsPlace(s.values, v, pos)
    ensures KnownEncoding(s.encoding) && pos <= |s.values| && ViewOk(Added(s, v))
    ensures Added(s, v) == View(s.values[..pos] + [v] + s.values[pos..], s.encoding)
  {
    PlaceUnique(s.values, v, pos, PlaceOf(s.values, v));
    AddedOk(s, v);
  }

  lemma AddedHolds(b0: seq<byte>, b1: seq<byte>, b2: seq<byte>, s: View, v: int, pos: nat)
    requires KnownEncoding(s.encoding) && HoldsAll(b0, s) && pos <= |s.values|
    requires |b0| == Place(|s.values|, s.encoding) && |b1| == Place(|s.values| + 1, s.encoding) && b1[..|b0|] == b0
    requires b2 == if pos < |s.values|
                   then Moved(b1, Place(pos + 1, s.encoding), Place(pos, s.encoding), Place(|s.values| - pos, s.encoding))
                   else b1
    ensures HoldsAll(Put(b2, Place(pos, s.encoding), StoreSigned(v, s.encoding)),
                     View(s.values[..pos] + [v] + s.values[pos..], s.encoding))
  {
    hide Holds, StoreSigned, Put, Moved;
    var e, x, r := s.encoding, StoreSigned(v, s.encoding), s.values[..pos] + [v] + s.values[pos..];
    PutHolds(b2, e, pos, v);
    forall k | 0 <= k < |r| ensures Holds(Put(b2, Place(pos, e), x), e, k, r[k]) {
      InsertedAt(s.values, pos, v, k);
      if k != pos {
        var j := if k < pos then k else k - 1;
        PrefixHolds(b0, b1, |b0|, e, j, s.values[j]);
        if pos < |s.values| { MovedHolds(b1, e, pos, pos + 1, |s.values| - pos, j, s.values[j]); }
        PutElsewhere(b2, Place(pos, e), x, e, k, r[k]);
      }
    }
  }

  lemma RemovedFits(s: View, v: int, pos: nat)
    requires ViewOk(s) && v in s.values && IsPlace(s.values, v, pos)
    ensures KnownEncoding(s.encoding) && pos < |s.values| && ViewOk(Removed(s, v))
    ensures Removed(s, v) == View(s.values[..pos] + s.values[pos + 1..], s.encoding)
  {
    PlaceUnique(s.values, v, pos, PlaceOf(s.values, v));
    RemovedOk(s, v);
  }

  lemma RemovedHolds(b0: seq<byte>, b1: seq<byte>, b2: seq<byte>, s: View, v: int, pos: nat)
    requires KnownEncoding(s.encoding) && HoldsAll(b0, s) && pos < |s.values|
    requires |b0| == Place(|s.values|, s.encoding) && |b2| == Place(|s.values| - 1, s.encoding)
    requires b1 == if pos < |s.values| - 1
                   then Moved(b0, Place(pos, s.encoding), Place(pos + 1, s.encoding), Place(|s.values| - 1 - pos, s.encoding))
                   else b0
    requires |b1| >= |b2| && b2 == b1[..|b2|]
    ensures HoldsAll(b2, View(s.values[..pos] + s.values[pos + 1..], s.encoding))
  {
    hide Holds, StoreSigned, Put, Moved;
    var e, r := s.encoding, s.values[..pos] + s.values[pos + 1..];
    forall k | 0 <= k < |r| ensures Holds(b2, e, k, r[k]) {
      var j := if k < pos then k else k + 1;
      assert r[k] == s.values[j];
      if pos < |s.values| - 1 { MovedHolds(b0, e, pos + 1, pos, |s.values| - 1 - pos, j, s.values[j]); }
      PrefixHolds(b1, b2, |b2|, e, k, r[k]);
    }
  }

  lemma InsertedAt(vs: seq<int>, p: nat, v: int, k: nat)
    requires p <= |vs| && k <= |vs|
    ensures (vs[..p] + [v] + vs[p..])[k] == if k < p then vs[k] else if k == p then v else vs[k - 1]
  {
  }

  // ---------- The set object ----------

  class IntSet {
    var encoding: nat
    var length: nat
    var contents: array<byte>
    /** The elements in order. */
    ghost var values: seq<int>

    ghost predicate Valid()
      reads this, contents
    {
      && ViewOk(View(values, encoding)) && length == |values| && Place(length, encoding) <= UINT32_MAX
      && contents.Length == Place(length, encoding) && HoldsAll(contents[..], View(values, encoding))
    }

    ghost function State(): View
      reads this
    {
      View(values, encoding)
    }

    /** `intsetNew`. */
    constructor ()
      ensures Valid() && fresh(contents) && State() == View([], ENC_INT16)
    {
      encoding, length, values := ENC_INT16, 0, [];
      contents := new byte[0];
    }

    /** `_intsetGetEncoded`. */
    method GetEncoded(pos: nat, enc: nat, ghost v: int) returns (r: int)
      requires Holds(contents[..], enc, pos, v) && FitsSigned(v, enc)
      ensures r == v
    {
      HoldsRead(contents[..], enc, pos, v);
      var at := Place(pos, enc);
      assert contents[at..at + enc] == contents[..][at..at + enc];
      r := LoadSigned(contents[at..at + enc]);
    }

    /** `_intsetGet`. */
    method ValueAt(pos: nat) returns (r: int)
      requires Valid() && pos < length
      ensures r == values[pos]
    {
      hide StoreSigned, Sorted;
      r := GetEncoded(pos, encoding, values[pos]);
    }

    /** `_intsetSet`. */
    method Set(pos: nat, v: int)
      requires KnownEncoding(encoding) && Place(pos, encoding) + encoding <= contents.Length
      modifies contents
      ensures contents[..] == Put(old(contents[..]), Place(pos, encoding), StoreSigned(v, encoding))
    {
      Store(contents, Place(pos, encoding), StoreSigned(v, encoding));
    }

    /** `intsetResize`. */
    method Resize(n: nat)
      requires KnownEncoding(encoding)
      modifies this`contents
      ensures fresh(contents) && contents.Length == Place(n, encoding)
      ensures var m := Place(n, encoding);
              if m <= old(contents.Length) then contents[..] == old(contents[..m])
              else contents[..old(contents.Length)] == old(contents[..])
    {
      contents := Realloc(contents, Place(n, encoding));
    }

    /** `intsetSearch`: whether the value is there, and its place. */
    method Search(value: int) returns (found: bool, pos: nat)
      requires Valid()
      ensures found <==> value in values
      ensures IsPlace(values, value, pos)
    {
      hide HoldsAll, AllFit;
      if length == 0 { return false, 0; }
      var last := ValueAt(length - 1);
      var first := ValueAt(0);
      if value > last { return false, length; }
      if value < first { return false, 0; }
      var min, max, mid, cur := 0, length - 1, -1, -1;
      found := false;
      while max >= min
        invariant 0 <= min <= max + 1 <= length
        invariant forall i | 0 <= i < min :: values[i] < value
        invariant forall i | max < i < length :: values[i] > value
        invariant mid >= 0 ==> cur != value
        decreases max - min
      {
        mid := (min + max) / 2;
        cur := ValueAt(mid);
        if value > cur {
          min := mid + 1;
        } else if value < cur {
          max := mid - 1;
        } else {
          return true, mid;
        }
      }
      pos := min;
    }

    /** `intsetMoveTail`: the elements from `from` on start at `to`, each of them whole, and
        those before `to` stay. */
    method MoveTail(from: nat, to: nat)
      requires KnownEncoding(encoding) && from <= length
      requires Place(length, encoding) <= contents.Length && Place(length - from + to, encoding) <= contents.Length
      modifies contents
      ensures contents[..] == Moved(old(contents[..]), Place(to, encoding), Place(from, encoding), Place(length - from, encoding))
      ensures forall k: nat, v | Holds(old(contents[..]), encoding, k, v) ::
                && (from <= k < length ==> Holds(contents[..], encoding, k - from + to, v))
                && (k < to ==> Holds(contents[..], encoding, k, v))
    {
      hide Holds, Moved;
      ghost var b := contents[..];
      PlaceSum(from, length - from, encoding);
      PlaceSum(to, length - from, encoding);
      MemMove(contents, Place(to, encoding), Place(from, encoding), Place(length - from, encoding));
      forall k: nat, v | Holds(b, encoding, k, v)
        ensures from <= k < length ==> Holds(contents[..], encoding, k - from + to, v)
        ensures k < to ==> Holds(contents[..], encoding, k, v)
      {
        MovedHolds(b, encoding, from, to, length - from, k, v);
      }
    }

    /** The loop of `intsetUpgradeAndAdd`. `s` is the set before. */
    method WidenAll(curEnc: nat, prepend: nat, ghost s: View)
      requires KnownEncoding(encoding) && prepend <= 1 && ViewOk(s)
      requires curEnc == s.encoding < encoding && length == |s.values| && contents.Length == Place(length + 1, encoding)
      requires Widening(contents[..], s, encoding, prepend, length)
      modifies contents
      ensures Widening(contents[..], s, encoding, prepend, 0)
    {
      hide Widening, Holds, StoreSigned, Put, ViewOk, Place;
      var n: nat := length;
      while n > 0
        invariant n <= length
        invariant Widening(contents[..], s, encoding, prepend, n)
      {
        n := n - 1;
        WidenNext(contents[..], s, encoding, prepend, n);
        FitsAt(s, n);
        var v := GetEncoded(n, curEnc, s.values[n]);
        Set(n + prepend, v);
      }
    }

    /** `intsetUpgradeAndAdd`: every element is rewritten in the wider encoding, back to front
        in the same buffer. */
    method UpgradeAndAdd(value: int)
      requires Valid() && IsInt64(value) && ValueEncoding(value) > encoding
      requires Place(length + 1, ValueEncoding(value)) <= UINT32_MAX
      modifies this, contents
      ensures Valid() && fresh(contents) && State() == Added(old(State()), value)
    {
      hide HoldsAll, Widening, Holds, StoreSigned, Put, ViewOk, Added;
      ghost var s := State();
      var curEnc, newEnc := encoding, ValueEncoding(value);
      var prepend: nat := if value < 0 then 1 else 0;
      OutsideAll(s, value);
      ghost var b0 := contents[..];
      encoding := newEnc;
      Resize(length + 1);
      WidenStart(b0, contents[..], s, newEnc, prepend);
      WidenAll(curEnc, prepend, s);
      var pos := if prepend == 1 then 0 else length;
      WidenEnd(contents[..], s, newEnc, prepend, value);
      Set(pos, value);
      length := length + 1;
      values := Added(s, value).values;
    }

    /** `intsetAdd`. At src/intset.c:164 and 166 the encoding is passed; the value is meant. */
    method Add(value: int) returns (success: bool)
      requires Valid() && IsInt64(value) && Place(|Added(State(), value).values|, Added(State(), value).encoding) <= UINT32_MAX
      modifies this, contents
      ensures Valid() && (contents == old(contents) || fresh(contents))
      ensures (State(), success) == Step(old(State()), Op.Add(value))
    {
      hide HoldsAll, ViewOk, StoreSigned, FitsSigned, Added, IsPlace, Moved, Put, Sorted, AllFit;
      ghost var s := State();
      if ValueEncoding(value) > encoding {
        OutsideAll(s, value);
        UpgradeAndAdd(value);
        return true;
      }
      var found, pos := Search(value);
      if found {
        AddedSame(s, value);
        return false;
      }
      AddedFits(s, value, pos);
      ghost var b0 := contents[..];
      Resize(length + 1);
      ghost var b1 := contents[..];
      if pos < length { MoveTail(pos, pos + 1); }
      ghost var b2 := contents[..];
      Set(pos, value);
      AddedHolds(b0, b1, b2, s, value, pos);
      length := length + 1;
      values := Added(s, value).values;
      success := true;
    }

    /** `intsetRemove`. */
    method Remove(value: int) returns (success: bool)
      requires Valid() && IsInt64(value)
      modifies this, contents
      ensures Valid() && (contents == old(contents) || fresh(contents))
      ensures (State(), success) == Step(old(State()), Op.Remove(value))
    {
      hide HoldsAll, ViewOk, StoreSigned, FitsSigned, Removed, IsPlace, Moved, Put, Sorted, AllFit;
      ghost var s := State();
      TooWide(s, value);
      RemovedSame(s, value);
      success := false;
      if ValueEncoding(value) <= encoding {
        var found, pos := Search(value);
        if found {
          var len := length;
          RemovedFits(s, value, pos);
          ghost var b0 := contents[..];
          if pos < len - 1 { MoveTail(pos + 1, pos); }
          ghost var b1 := contents[..];
          Resize(len - 1);
          RemovedHolds(b0, b1, contents[..], s, value, pos);
          length := len - 1;
          values := Removed(s, value).values;
          success := true;
        }
      }
    }

    /** `insertFind`. */
    method Find(value: int) returns (found: bool)
      requires Valid() && IsInt64(value)
      ensures (State(), found) == Step(State(), Op.Find(value))
    {
      hide HoldsAll, ViewOk, FitsSigned;
      TooWide(State(), value);
      found := false;
      if ValueEncoding(value) <= encoding {
        var pos;
        found, pos := Search(value);
      }
    }

    /** `intsetGet`: the element at a place, if there is one. */
    method Get(pos: nat) returns (found: bool, value: int)
      requires Valid()
      ensures found <==> pos < |values|
      ensures found ==> value == values[pos]
    {
      found, value := pos < length, 0;
      if found { value := ValueAt(pos); }
    }
  }
}
