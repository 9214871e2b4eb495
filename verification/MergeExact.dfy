/** Exactly which patches merge idempotently (utils/base_utils.py:57-116): those that are
    unchanged by being merged into themselves. A patch is taken apart into what it brings to
    each place, a sequence of values merged there one after the other. */
module MergeExact {
  import opened Wrappers
  import opened Sequences
  import opened Merge

  // ---------- Values merged at one place ----------

  /** `v` merged where `st` stands, or nothing when that fails. */
  function MergeValue(st: Option<Json>, v: Json): Option<Json> {
    var r := MergeField(if st.Some? then [Field("", st.value)] else [], "", v);
    if r.error.Some? then None else Get(r.fields, "")
  }

  /** What `MergeValue` gives, by the kind of what stands there. */
  lemma ValueIs(st: Option<Json>, v: Json)
    ensures st.None? || st.value.Null? ==> MergeValue(st, v) == Some(v)
    ensures st.Some? && st.value.Obj? ==>
              MergeValue(st, v) ==
                if v.Obj? && MergeFields(st.value.fields, v.fields).error.None?
                then Some(Obj(MergeFields(st.value.fields, v.fields).fields)) else None
    ensures st.Some? && st.value.Arr? ==>
              MergeValue(st, v) ==
                if !v.Arr? then None
                else if st.value.items == [] then Some(v)
                else if v.items == [] then None
                else if !v.items[0].Obj? then Some(v)
                else if MergeItems(st.value.items, v.items).error.None? then Some(Arr(MergeItems(st.value.items, v.items).items))
                else None
    ensures st.Some? && !st.value.Null? && !st.value.Obj? && !st.value.Arr? ==>
              MergeValue(st, v) == if v.Obj? || v.Arr? then None else Some(v)
  {
    hide MergeFields, MergeItems;
    var bs := if st.Some? then [Field("", st.value)] else [];
    forall w ensures Get(Put(bs, "", w), "") == Some(w) { GetPut(bs, "", w, ""); }
  }

  /** A field is merged as its value is merged where its key stands. */
  lemma FieldIsValue(bs: seq<Field>, k: string, v: Json)
    ensures MergeField(bs, k, v).error.None? <==> MergeValue(Get(bs, k), v).Some?
    ensures MergeField(bs, k, v).error.None? ==> MergeField(bs, k, v).fields == Put(bs, k, MergeValue(Get(bs, k), v).value)
  {
    hide MergeFields, MergeItems, MergeValue, Put;
    ValueIs(Get(bs, k), v);
  }

  /** Merging the values one after the other succeeds. */
  predicate Works(st: Option<Json>, vs: seq<Json>)
    decreases |vs|
  {
    vs == [] || (MergeValue(st, vs[0]).Some? && Works(MergeValue(st, vs[0]), vs[1..]))
  }

  function Final(st: Option<Json>, vs: seq<Json>): Option<Json>
    decreases |vs|
  {
    if vs == [] then st else Final(MergeValue(st, vs[0]), vs[1..])
  }

  /** The values merged into `w` succeed and give `w` in the end. */
  predicate Keeps(w: Json, vs: seq<Json>) {
    Works(Some(w), vs) && Final(Some(w), vs) == Some(w)
  }

  lemma {:induction false} FinalIsSome(st: Option<Json>, vs: seq<Json>)
    requires Works(st, vs) && (st.Some? || vs != [])
    ensures Final(st, vs).Some?
    decreases |vs|
  {
    hide MergeValue;
    if vs != [] { FinalIsSome(MergeValue(st, vs[0]), vs[1..]); }
  }

  // ---------- Kinds of values ----------

  datatype Kind = Scalar | Dict | EmptyArr | Objects | Others

  function KindOf(v: Json): Kind {
    match v
    case Obj(_) => Dict
    case Arr(es) => if es == [] then EmptyArr else if es[0].Obj? then Objects else Others
    case _ => Scalar
  }

  /** Merging never leads back to a kind of lower rank. */
  function Rank(k: Kind): nat {
    match k
    case Scalar => 0
    case Dict => 1
    case EmptyArr => 1
    case Objects => 2
    case Others => 3
  }

  lemma {:induction false} HeadStays(xs: seq<Json>, es: seq<Json>)
    requires xs != []
    ensures MergeItems(xs, es).items != [] && (xs[0].Obj? ==> MergeItems(xs, es).items[0].Obj?)
    ensures es != [] && !xs[0].Obj? ==> MergeItems(xs, es).error.Some?
    decreases es
  {
    hide MergeFields;
    if es != [] && MergeItem(xs, es[0]).error.None? { HeadStays(MergeItem(xs, es[0]).items, es[1..]); }
  }

  lemma KindStep(w: Json, v: Json)
    requires MergeValue(Some(w), v).Some?
    ensures var k, r := KindOf(w), KindOf(MergeValue(Some(w), v).value);
            && Rank(k) <= Rank(r)
            && (Rank(k) == Rank(r) ==> KindOf(v) == k == r)
  {
    hide MergeFields, MergeItems, MergeValue;
    ValueIs(Some(w), v);
    if w.Arr? && w.items != [] && v.Arr? { HeadStays(w.items, v.items); }
  }

  /** When the values lead back to the kind they started from, they are all of that kind. */
  lemma {:induction false} KindsAgree(w: Json, vs: seq<Json>)
    requires Works(Some(w), vs)
    ensures Final(Some(w), vs).Some? && Rank(KindOf(w)) <= Rank(KindOf(Final(Some(w), vs).value))
    ensures Rank(KindOf(w)) == Rank(KindOf(Final(Some(w), vs).value)) ==> forall i | 0 <= i < |vs| :: KindOf(vs[i]) == KindOf(w)
    decreases |vs|
  {
    hide MergeValue, KindOf, Rank;
    if vs != [] {
      KindStep(w, vs[0]);
      KindsAgree(MergeValue(Some(w), vs[0]).value, vs[1..]);
    }
  }

  /** Values of a kind that is replaced: the last one stays. */
  lemma {:induction false} LastStays(w: Json, vs: seq<Json>)
    requires KindOf(w) != Dict && KindOf(w) != Objects && forall i | 0 <= i < |vs| :: KindOf(vs[i]) == KindOf(w)
    ensures Works(Some(w), vs) && Final(Some(w), vs) == Some(if vs == [] then w else vs[|vs| - 1])
    decreases |vs|
  {
    hide MergeValue;
    if vs != [] {
      ValueIs(Some(w), vs[0]);
      LastStays(vs[0], vs[1..]);
    }
  }

  // ---------- Dictionaries, key by key ----------

  /** The values that the fields bring to a key. */
  function Group(ps: seq<Field>, k: string): seq<Json> {
    if ps == [] then [] else (if ps[0].key == k then [ps[0].value] else []) + Group(ps[1..], k)
  }

  lemma {:induction false} GroupConcat(a: seq<Field>, b: seq<Field>, k: string)
    ensures Group(a + b, k) == Group(a, k) + Group(b, k)
  {
    if a == [] {
      assert a + b == b;
    } else {
      assert (a + b)[1..] == a[1..] + b;
      GroupConcat(a[1..], b, k);
      GroupRight(if a[0].key == k then [a[0].value] else [], Group(a[1..], k), Group(b, k));
    }
  }

  lemma {:induction false} GroupFirst(a: seq<Field>, b: seq<Field>, k: string)
    requires Get(a, k).Some?
    ensures Group(a + b, k) != [] && Group(a + b, k)[0] == Get(a, k).value
  {
    assert (a + b)[1..] == a[1..] + b;
    if a[0].key != k { GroupFirst(a[1..], b, k); }
  }

  /** A merge of fields merges the group of each key at that key. */
  lemma {:induction false} FieldsApart(os: seq<Field>, ps: seq<Field>, k: string)
    requires MergeFields(os, ps).error.None?
    ensures Works(Get(os, k), Group(ps, k))
    ensures Get(MergeFields(os, ps).fields, k) == Final(Get(os, k), Group(ps, k))
    decreases |ps|
  {
    hide MergeField, MergeValue;
    if ps != [] {
      var r := MergeField(os, ps[0].key, ps[0].value);
      FieldIsValue(os, ps[0].key, ps[0].value);
      GetPut(os, ps[0].key, MergeValue(Get(os, ps[0].key), ps[0].value).value, k);
      FieldsApart(r.fields, ps[1..], k);
      if ps[0].key == k {
        assert Group(ps, k)[0] == ps[0].value && Group(ps, k)[1..] == Group(ps[1..], k);
      } else {
        assert Group(ps, k) == Group(ps[1..], k);
      }
    }
  }

  lemma {:induction false} FieldsTogether(os: seq<Field>, ps: seq<Field>)
    requires forall k :: Works(Get(os, k), Group(ps, k))
    ensures MergeFields(os, ps).error.None?
    decreases |ps|
  {
    hide MergeField, MergeValue;
    if ps != [] {
      var k0, v0 := ps[0].key, ps[0].value;
      var r := MergeField(os, k0, v0);
      assert Group(ps, k0)[0] == v0 && Group(ps, k0)[1..] == Group(ps[1..], k0);
      FieldIsValue(os, k0, v0);
      forall k ensures Works(Get(r.fields, k), Group(ps[1..], k)) {
        GetPut(os, k0, MergeValue(Get(os, k0), v0).value, k);
        if k != k0 { assert Group(ps, k) == Group(ps[1..], k); }
      }
      FieldsTogether(r.fields, ps[1..]);
    }
  }

  predicate IsFirst(fs: seq<Field>, i: nat)
    requires i < |fs|
  {
    forall j | 0 <= j < i :: fs[j].key != fs[i].key
  }

  /** `rs` is `os` with values changed where a key stands first, and with new keys at the end. */
  predicate Extends(os: seq<Field>, rs: seq<Field>) {
    && |os| <= |rs|
    && (forall i | 0 <= i < |os| :: rs[i].key == os[i].key && (rs[i] == os[i] || IsFirst(os, i)))
    && (forall i | |os| <= i < |rs| :: !Mentions(os, rs[i].key))
  }

  lemma {:induction false} GetNone(fs: seq<Field>, k: string)
    ensures Get(fs, k).None? <==> !Mentions(fs, k)
  {
    if fs != [] {
      GetNone(fs[1..], k);
      if Mentions(fs[1..], k) {
        var i :| 0 <= i < |fs[1..]| && fs[1..][i].key == k;
        assert fs[i + 1].key == k;
      }
      if Mentions(fs, k) && fs[0].key != k {
        var i :| 0 <= i < |fs| && fs[i].key == k;
        assert fs[1..][i - 1].key == k;
      }
    }
  }

  lemma {:induction false} GetFirst(fs: seq<Field>, i: nat)
    requires i < |fs| && IsFirst(fs, i)
    ensures Get(fs, fs[i].key) == Some(fs[i].value)
  {
    if i > 0 {
      assert fs[0].key != fs[i].key;
      assert IsFirst(fs[1..], i - 1) by {
        forall j | 0 <= j < i - 1 ensures fs[1..][j].key != fs[1..][i - 1].key { assert fs[j + 1].key != fs[i].key; }
      }
      GetFirst(fs[1..], i - 1);
    }
  }

  lemma {:induction false} PutExtends(fs: seq<Field>, k: string, v: Json)
    ensures Extends(fs, Put(fs, k, v))
  {
    var r := Put(fs, k, v);
    if fs != [] && fs[0].key != k {
      var t := Put(fs[1..], k, v);
      PutExtends(fs[1..], k, v);
      assert r == [fs[0]] + t;
      forall i | 0 <= i < |fs| ensures r[i].key == fs[i].key && (r[i] == fs[i] || IsFirst(fs, i)) {
        if i > 0 {
          assert r[i] == t[i - 1] && fs[i] == fs[1..][i - 1];
          if r[i] != fs[i] { PutChangesKey(fs[1..], k, v, i - 1); }
        }
      }
      forall i | |fs| <= i < |r| ensures !Mentions(fs, r[i].key) {
        assert r[i] == t[i - 1];
        NewKeyIs(fs[1..], k, v, i - 1);
        MentionsTail(fs, r[i].key);
      }
    }
  }

  lemma MentionsTail(fs: seq<Field>, k: string)
    requires fs != [] && fs[0].key != k && !Mentions(fs[1..], k)
    ensures !Mentions(fs, k)
  {
    forall i | 0 <= i < |fs| ensures fs[i].key != k {
      if i > 0 { assert fs[i] == fs[1..][i - 1]; }
    }
  }

  lemma {:induction false} PutChangesKey(fs: seq<Field>, k: string, v: Json, i: nat)
    requires i < |fs| && |Put(fs, k, v)| >= |fs| && Put(fs, k, v)[i] != fs[i]
    ensures fs[i].key == k && IsFirst(fs, i)
  {
    if fs[0].key != k {
      assert Put(fs, k, v) == [fs[0]] + Put(fs[1..], k, v);
      PutChangesKey(fs[1..], k, v, i - 1);
      forall j | 0 <= j < i ensures fs[j].key != fs[i].key {
        if j > 0 { assert fs[j] == fs[1..][j - 1]; }
      }
    } else {
      assert Put(fs, k, v) == [Field(k, v)] + fs[1..];
    }
  }

  lemma {:induction false} NewKeyIs(fs: seq<Field>, k: string, v: Json, i: nat)
    requires |fs| <= i < |Put(fs, k, v)|
    ensures Put(fs, k, v)[i].key == k
  {
    if fs != [] && fs[0].key != k { NewKeyIs(fs[1..], k, v, i - 1); }
  }

  lemma ExtendsMore(a: seq<Field>, b: seq<Field>, c: seq<Field>)
    requires Extends(a, b) && Extends(b, c)
    ensures Extends(a, c)
  {
    forall i | 0 <= i < |a| ensures c[i].key == a[i].key && (c[i] == a[i] || IsFirst(a, i)) {
      assert b[i].key == a[i].key;
      if IsFirst(b, i) {
        forall j | 0 <= j < i ensures a[j].key != a[i].key { assert b[j].key == a[j].key; }
      }
    }
    forall i | |a| <= i < |c| ensures !Mentions(a, c[i].key) {
      if i >= |b| {
        forall j | 0 <= j < |a| ensures a[j].key != c[i].key { assert b[j].key == a[j].key; }
      } else {
        assert c[i].key == b[i].key;
      }
    }
  }

  lemma {:induction false} FieldsExtend(os: seq<Field>, ps: seq<Field>)
    requires MergeFields(os, ps).error.None?
    ensures Extends(os, MergeFields(os, ps).fields)
    decreases |ps|
  {
    hide MergeField, Extends, MergeValue;
    if ps == [] {
      ExtendsSelf(os);
    } else {
      var r := MergeField(os, ps[0].key, ps[0].value);
      FieldIsValue(os, ps[0].key, ps[0].value);
      PutExtends(os, ps[0].key, MergeValue(Get(os, ps[0].key), ps[0].value).value);
      FieldsExtend(r.fields, ps[1..]);
      ExtendsMore(os, r.fields, MergeFields(os, ps).fields);
    }
  }

  lemma ExtendsSelf(os: seq<Field>)
    ensures Extends(os, os)
  {
  }

  lemma GetSomeAt(fs: seq<Field>, i: nat)
    requires i < |fs|
    ensures Get(fs, fs[i].key).Some?
  {
    GetNone(fs, fs[i].key);
    assert Mentions(fs, fs[i].key);
  }

  /** With the same value at every key, nothing was changed at all. */
  lemma ExtendsSame(os: seq<Field>, rs: seq<Field>)
    requires Extends(os, rs) && forall k :: Get(rs, k) == Get(os, k)
    ensures rs == os
  {
    if |rs| > |os| {
      var k := rs[|os|].key;
      GetNone(os, k);
      GetSomeAt(rs, |os|);
      assert false;
    }
    forall i | 0 <= i < |os| ensures rs[i] == os[i] {
      if IsFirst(os, i) {
        assert rs[i].key == os[i].key;
        forall j | 0 <= j < i ensures rs[j].key != rs[i].key { assert rs[j].key == os[j].key; }
        assert IsFirst(rs, i);
        GetFirst(os, i);
        GetFirst(rs, i);
      }
    }
  }

  /** Fields whose groups each keep the value at their key change nothing. */
  lemma FieldsKept(os: seq<Field>, ps: seq<Field>)
    requires forall k :: Works(Get(os, k), Group(ps, k)) && Final(Get(os, k), Group(ps, k)) == Get(os, k)
    ensures MergeFields(os, ps) == Merged(os, None)
  {
    hide MergeFields, Works, Final, Group, Extends;
    FieldsTogether(os, ps);
    FieldsExtend(os, ps);
    forall k ensures Get(MergeFields(os, ps).fields, k) == Get(os, k) { FieldsApart(os, ps, k); }
    ExtendsSame(os, MergeFields(os, ps).fields);
  }

  // ---------- Lists of objects, name by name ----------

  /** An object's keys are distinct and its name, if it has one, keeps. */
  predicate TameItem(e: Json) {
    e.Obj? ==> DistinctKeys(e.fields) && (NameOf(e).Some? ==> NameKeeps(NameOf(e).value))
  }

  predicate TameItems(es: seq<Json>) {
    forall i | 0 <= i < |es| :: TameItem(es[i])
  }

  function GroupNamed(es: seq<Json>, name: Json): seq<Json> {
    if es == [] then [] else (if NameOf(es[0]) == Some(name) then [es[0]] else []) + GroupNamed(es[1..], name)
  }

  lemma {:induction false} GroupNamedConcat(a: seq<Json>, b: seq<Json>, name: Json)
    ensures GroupNamed(a + b, name) == GroupNamed(a, name) + GroupNamed(b, name)
  {
    hide NameOf;
    if a == [] {
      assert a + b == b;
    } else {
      assert (a + b)[1..] == a[1..] + b;
      GroupNamedConcat(a[1..], b, name);
      GroupRight(if NameOf(a[0]) == Some(name) then [a[0]] else [], GroupNamed(a[1..], name), GroupNamed(b, name));
    }
  }

  lemma {:induction false} GroupNamedFirst(a: seq<Json>, b: seq<Json>, name: Json)
    requires FindNamed(a, name).Found?
    ensures GroupNamed(a + b, name) != [] && GroupNamed(a + b, name)[0] == a[FindNamed(a, name).at]
  {
    assert (a + b)[1..] == a[1..] + b;
    if NameOf(a[0]) != Some(name) { GroupNamedFirst(a[1..], b, name); }
  }

  lemma {:induction false} GroupNamedHas(es: seq<Json>, i: nat)
    requires i < |es| && NameOf(es[i]).Some?
    ensures GroupNamed(es, NameOf(es[i]).value) != []
  {
    if i > 0 { GroupNamedHas(es[1..], i - 1); }
  }

  /** One element: it is merged as a value into the object of its name, which keeps the name,
      or appended. */
  lemma ItemIsValue(xs: seq<Json>, e: Json)
    requires TameItem(e)
    ensures MergeItem(xs, e).error.None? ==> NameOf(e).Some? && Truthy(NameOf(e).value)
    ensures e.Obj? && NameOf(e).Some? && Truthy(NameOf(e).value) ==>
              var f, r := FindNamed(xs, NameOf(e).value), MergeItem(xs, e);
              && (f.Failed? ==> r.error.Some?)
              && (f.Missing? ==> r == MergedItems(xs + [e], None))
              && (f.Found? ==> (r.error.None? <==> MergeValue(Some(xs[f.at]), e).Some?))
              && (f.Found? && r.error.None? ==>
                    var w := MergeValue(Some(xs[f.at]), e).value;
                    r.items == xs[f.at := w] && NameOf(w) == NameOf(e))
  {
    hide MergeFields, MergeValue, FindNamed, DistinctKeys;
    if e.Obj? && NameOf(e).Some? {
      match FindNamed(xs, NameOf(e).value)
      case Found(i) =>
        ValueIs(Some(xs[i]), e);
        OnlyName(e.fields);
        if MergeItem(xs, e).error.None? { NameStays(xs[i].fields, e.fields, NameOf(e).value); }
      case _ =>
    }
  }

  lemma {:induction false} FindAppendOther(xs: seq<Json>, x: Json, name: Json)
    requires NameOf(x).Some? && NameOf(x) != Some(name)
    ensures FindNamed(xs + [x], name) == FindNamed(xs, name)
  {
    if xs == [] {
      assert xs + [x] == [x] && [x][1..] == [];
    } else {
      assert (xs + [x])[1..] == xs[1..] + [x];
      FindAppendOther(xs[1..], x, name);
    }
  }

  /** A merge of a list merges the elements of each name into the object of that name; the
      first of them is that object when there was none. */
  lemma {:induction false} ItemsApart(xs: seq<Json>, es: seq<Json>, name: Json)
    requires MergeItems(xs, es).error.None? && TameItems(es)
    ensures var ys, g, f := MergeItems(xs, es).items, GroupNamed(es, name), FindNamed(xs, name);
            && (f.Found? ==>
                  && FindNamed(ys, name) == f && Works(Some(xs[f.at]), g)
                  && Some(ys[f.at]) == Final(Some(xs[f.at]), g))
            && (f.Missing? && g != [] ==>
                  && FindNamed(ys, name).Found? && Works(Some(g[0]), g[1..])
                  && Some(ys[FindNamed(ys, name).at]) == Final(Some(g[0]), g[1..]))
            && (f.Failed? ==> g == [])
    decreases |es|
  {
    hide MergeFields, MergeItem, MergeValue, FindNamed, TameItem, Truthy;
    if es != [] {
      var e, r, g := es[0], MergeItem(xs, es[0]), GroupNamed(es, name);
      assert TameItem(e);
      ItemIsValue(xs, e);
      ItemsApart(r.items, es[1..], name);
      FindAppend(xs, e, name);
      if NameOf(e) == Some(name) {
        assert g[0] == e && g[1..] == GroupNamed(es[1..], name);
      } else {
        assert g == GroupNamed(es[1..], name);
        FindAppendOther(xs, e, name);
      }
      match FindNamed(xs, NameOf(e).value)
      case Found(i) => FindUpdate(xs, i, MergeValue(Some(xs[i]), e).value, name);
      case Missing =>
      case Failed(_) =>
    }
  }

  /** Element `i` is the one a search for its name finds. */
  predicate Leads(xs: seq<Json>, i: nat)
    requires i < |xs|
  {
    NameOf(xs[i]).Some? && FindNamed(xs, NameOf(xs[i]).value) == Found(i)
  }

  predicate AllFound(xs: seq<Json>, es: seq<Json>) {
    forall j | 0 <= j < |es| ::
      NameOf(es[j]).Some? && Truthy(NameOf(es[j]).value) && FindNamed(xs, NameOf(es[j]).value).Found?
  }

  /** Element `i` of `xs` becomes that of `ys` by the elements of its name. */
  predicate Becomes(xs: seq<Json>, ys: seq<Json>, es: seq<Json>, i: nat)
    requires i < |xs| == |ys|
  {
    if Leads(xs, i) then
      var g := GroupNamed(es, NameOf(xs[i]).value);
      Works(Some(xs[i]), g) && Final(Some(xs[i]), g) == Some(ys[i])
    else xs[i] == ys[i]
  }

  lemma {:induction false} ItemsTogether(xs: seq<Json>, ys: seq<Json>, es: seq<Json>)
    requires |xs| == |ys| && TameItems(es) && AllFound(xs, es)
    requires forall i | 0 <= i < |xs| :: Becomes(xs, ys, es, i)
    ensures MergeItems(xs, es) == MergedItems(ys, None)
    decreases |es|
  {
    hide MergeFields, MergeItem, MergeValue, FindNamed, TameItem, Truthy, Becomes;
    if es == [] {
      forall i | 0 <= i < |xs| ensures xs[i] == ys[i] { NothingBecomes(xs, ys, i); }
    } else {
      var e := es[0];
      assert TameItem(e);
      ItemIsValue(xs, e);
      var i := FindNamed(xs, NameOf(e).value).at;
      FirstBecomes(xs, ys, es, i);
      var w := MergeValue(Some(xs[i]), e).value;
      var zs := xs[i := w];
      forall j | 0 <= j < |es[1..]| ensures FindNamed(zs, NameOf(es[1..][j]).value).Found? {
        FindUpdate(xs, i, w, NameOf(es[j + 1]).value);
      }
      forall j | 0 <= j < |zs| ensures Becomes(zs, ys, es[1..], j) { StillBecomes(xs, ys, es, i, w, j); }
      ItemsTogether(zs, ys, es[1..]);
    }
  }

  lemma NothingBecomes(xs: seq<Json>, ys: seq<Json>, i: nat)
    requires i < |xs| == |ys| && Becomes(xs, ys, [], i)
    ensures xs[i] == ys[i]
  {
  }

  lemma FirstBecomes(xs: seq<Json>, ys: seq<Json>, es: seq<Json>, i: nat)
    requires i < |xs| == |ys| && es != [] && NameOf(es[0]).Some? && FindNamed(xs, NameOf(es[0]).value) == Found(i)
    requires Becomes(xs, ys, es, i)
    ensures MergeValue(Some(xs[i]), es[0]).Some?
  {
    hide MergeValue;
    assert GroupNamed(es, NameOf(es[0]).value)[0] == es[0];
  }

  lemma StillBecomes(xs: seq<Json>, ys: seq<Json>, es: seq<Json>, i: nat, w: Json, j: nat)
    requires i < |xs| == |ys| && j < |xs| && es != [] && NameOf(es[0]).Some?
    requires FindNamed(xs, NameOf(es[0]).value) == Found(i)
    requires MergeValue(Some(xs[i]), es[0]) == Some(w) && NameOf(w) == NameOf(es[0])
    requires Becomes(xs, ys, es, j)
    ensures Becomes(xs[i := w], ys, es[1..], j)
  {
    hide MergeValue, FindNamed;
    var zs := xs[i := w];
    assert NameOf(zs[j]) == NameOf(xs[j]);
    if NameOf(xs[j]).Some? {
      var n := NameOf(xs[j]).value;
      FindUpdate(xs, i, w, n);
      var g := GroupNamed(es, n);
      if j == i {
        assert g[0] == es[0] && g[1..] == GroupNamed(es[1..], n);
      } else if Leads(xs, j) {
        assert g == GroupNamed(es[1..], n);
      }
    }
  }

  // ---------- Several patches in a row ----------

  function AllFields(vs: seq<Json>): seq<Field> {
    if vs == [] then [] else (if vs[0].Obj? then vs[0].fields else []) + AllFields(vs[1..])
  }

  function AllItems(vs: seq<Json>): seq<Json> {
    if vs == [] then [] else (if vs[0].Arr? then vs[0].items else []) + AllItems(vs[1..])
  }

  lemma {:induction false} AllFieldsConcat(a: seq<Json>, b: seq<Json>)
    ensures AllFields(a + b) == AllFields(a) + AllFields(b)
  {
    if a == [] {
      assert a + b == b;
    } else {
      assert (a + b)[1..] == a[1..] + b;
      AllFieldsConcat(a[1..], b);
      GroupRight(if a[0].Obj? then a[0].fields else [], AllFields(a[1..]), AllFields(b));
    }
  }

  lemma {:induction false} AllItemsConcat(a: seq<Json>, b: seq<Json>)
    ensures AllItems(a + b) == AllItems(a) + AllItems(b)
  {
    if a == [] {
      assert a + b == b;
    } else {
      assert (a + b)[1..] == a[1..] + b;
      AllItemsConcat(a[1..], b);
      GroupRight(if a[0].Arr? then a[0].items else [], AllItems(a[1..]), AllItems(b));
    }
  }

  lemma {:induction false} FieldsConcat(os: seq<Field>, a: seq<Field>, b: seq<Field>)
    ensures var r := MergeFields(os, a);
            MergeFields(os, a + b) == if r.error.Some? then r else MergeFields(r.fields, b)
    decreases |a|
  {
    hide MergeField;
    if a == [] {
      assert a + b == b;
    } else {
      assert (a + b)[1..] == a[1..] + b;
      FieldsConcat(MergeField(os, a[0].key, a[0].value).fields, a[1..], b);
    }
  }

  lemma {:induction false} ItemsConcat(xs: seq<Json>, a: seq<Json>, b: seq<Json>)
    ensures var r := MergeItems(xs, a);
            MergeItems(xs, a + b) == if r.error.Some? then r else MergeItems(r.items, b)
    decreases |a|
  {
    hide MergeItem;
    if a == [] {
      assert a + b == b;
    } else {
      assert (a + b)[1..] == a[1..] + b;
      ItemsConcat(MergeItem(xs, a[0]).items, a[1..], b);
    }
  }

  predicate AllOfKind(vs: seq<Json>, k: Kind) {
    forall i | 0 <= i < |vs| :: KindOf(vs[i]) == k
  }

  /** Dictionaries merged one after the other are all their fields merged. */
  lemma {:induction false} DictRun(os: seq<Field>, vs: seq<Json>)
    requires AllOfKind(vs, Dict)
    ensures var r := MergeFields(os, AllFields(vs));
            && (Works(Some(Obj(os)), vs) <==> r.error.None?)
            && (r.error.None? ==> Final(Some(Obj(os)), vs) == Some(Obj(r.fields)))
    decreases |vs|
  {
    hide MergeFields, MergeValue;
    if vs == [] {
      NoFields(os);
    } else {
      assert KindOf(vs[0]) == Dict;
      ValueIs(Some(Obj(os)), vs[0]);
      FieldsConcat(os, vs[0].fields, AllFields(vs[1..]));
      DictRun(MergeFields(os, vs[0].fields).fields, vs[1..]);
    }
  }

  lemma NoFields(os: seq<Field>)
    ensures MergeFields(os, []) == Merged(os, None)
  {
  }

  lemma {:induction false} ListRun(xs: seq<Json>, vs: seq<Json>)
    requires xs != [] && AllOfKind(vs, Objects)
    ensures var r := MergeItems(xs, AllItems(vs));
            && (Works(Some(Arr(xs)), vs) <==> r.error.None?)
            && (r.error.None? ==> Final(Some(Arr(xs)), vs) == Some(Arr(r.items)))
    decreases |vs|
  {
    hide MergeItems, MergeValue;
    if vs == [] {
      NoItems(xs);
    } else {
      assert KindOf(vs[0]) == Objects;
      ValueIs(Some(Arr(xs)), vs[0]);
      ItemsConcat(xs, vs[0].items, AllItems(vs[1..]));
      HeadStays(xs, vs[0].items);
      ListRun(MergeItems(xs, vs[0].items).items, vs[1..]);
    }
  }

  lemma NoItems(xs: seq<Json>)
    ensures MergeItems(xs, []) == MergedItems(xs, None)
  {
  }

  // ---------- Tame patches ----------

  /** Dictionaries have distinct keys, as Python's have, no name in a list is itself a list or
      a dictionary, and the nesting is at most `h` deep. */
  predicate Tame(v: Json, h: nat)
    decreases h
  {
    match v
    case Obj(fs) => h > 0 && DistinctKeys(fs) && forall i | 0 <= i < |fs| :: Tame(fs[i].value, h - 1)
    case Arr(es) => h > 0 && TameItems(es) && forall i | 0 <= i < |es| :: Tame(es[i], h - 1)
    case _ => true
  }

  predicate AllTame(vs: seq<Json>, h: nat) {
    forall i | 0 <= i < |vs| :: Tame(vs[i], h)
  }

  lemma {:induction false} GroupTame(ps: seq<Field>, k: string, h: nat)
    requires forall i | 0 <= i < |ps| :: Tame(ps[i].value, h)
    ensures AllTame(Group(ps, k), h)
  {
    hide Tame;
    if ps != [] {
      GroupTame(ps[1..], k, h);
      assert Tame(ps[0].value, h);
    }
  }

  lemma {:induction false} GroupNamedTame(es: seq<Json>, name: Json, h: nat)
    requires AllTame(es, h)
    ensures AllTame(GroupNamed(es, name), h)
  {
    hide Tame;
    if es != [] {
      GroupNamedTame(es[1..], name, h);
      assert Tame(es[0], h);
    }
  }

  lemma {:induction false} AllFieldsTame(vs: seq<Json>, h: nat)
    requires AllTame(vs, h) && AllOfKind(vs, Dict) && vs != []
    ensures h > 0 && forall i | 0 <= i < |AllFields(vs)| :: Tame(AllFields(vs)[i].value, h - 1)
  {
    assert Tame(vs[0], h) && KindOf(vs[0]) == Dict;
    if |vs| > 1 { AllFieldsTame(vs[1..], h); }
  }

  lemma {:induction false} AllItemsTame(vs: seq<Json>, h: nat)
    requires AllTame(vs, h) && AllOfKind(vs, Objects) && vs != []
    ensures h > 0 && AllTame(AllItems(vs), h - 1) && TameItems(AllItems(vs))
  {
    hide TameItem;
    assert Tame(vs[0], h) && KindOf(vs[0]) == Objects;
    if |vs| > 1 { AllItemsTame(vs[1..], h); }
  }

  // ---------- Groups of patches that keep their first one ----------

  /** When all fields together keep the first ones, each key's group keeps its first value. */
  lemma KeyKept(ps: seq<Field>, rest: seq<Field>, k: string)
    requires MergeFields(ps, ps + rest) == Merged(ps, None) && Group(ps + rest, k) != []
    ensures var g := Group(ps + rest, k); Get(ps, k) == Some(g[0]) && Keeps(g[0], g)
  {
    hide MergeFields, Works, Final;
    FieldsApart(ps, ps + rest, k);
    FinalIsSome(Get(ps, k), Group(ps + rest, k));
    GroupFirst(ps, rest, k);
  }

  lemma NameKept(es: seq<Json>, rest: seq<Json>, name: Json)
    requires MergeItems(es, es + rest) == MergedItems(es, None) && TameItems(es + rest)
    requires GroupNamed(es + rest, name) != []
    ensures var g, f := GroupNamed(es + rest, name), FindNamed(es, name);
            f.Found? && es[f.at] == g[0] && Keeps(g[0], g)
  {
    hide MergeItems, Works, Final, FindNamed, GroupNamed;
    ItemsApart(es, es + rest, name);
    GroupNamedFirst(es, rest, name);
  }

  lemma {:induction false} ItemsNamed(xs: seq<Json>, es: seq<Json>, j: nat)
    requires MergeItems(xs, es).error.None? && TameItems(es) && j < |es|
    ensures NameOf(es[j]).Some? && Truthy(NameOf(es[j]).value)
    decreases |es|
  {
    hide MergeItem, Truthy, NameOf, TameItem;
    assert TameItem(es[0]);
    ItemIsValue(xs, es[0]);
    if j > 0 { ItemsNamed(MergeItem(xs, es[0]).items, es[1..], j - 1); }
  }

  /** The patches from any place on keep the first value too. */
  lemma {:induction false} SuffixKept(vs: seq<Json>, j: nat, h: nat)
    requires vs != [] && j <= |vs| && AllTame(vs, h) && Keeps(vs[0], vs)
    ensures Keeps(vs[0], vs[j..])
    decreases h, 1
  {
    hide Tame, Works, Final, KindOf, Rank;
    KindsAgree(vs[0], vs);
    match KindOf(vs[0])
    case Dict => SuffixKeptDict(vs, j, h);
    case Objects => SuffixKeptList(vs, j, h);
    case _ =>
      LastStays(vs[0], vs);
      LastStays(vs[0], vs[j..]);
  }

  lemma {:induction false} SuffixKeptDict(vs: seq<Json>, j: nat, h: nat)
    requires vs != [] && j <= |vs| && AllTame(vs, h) && Keeps(vs[0], vs) && AllOfKind(vs, Dict)
    ensures Keeps(vs[0], vs[j..])
    decreases h, 0
  {
    hide Tame, Works, Final, MergeFields, Group, Get;
    assert KindOf(vs[0]) == Dict;
    var ps, a, b := vs[0].fields, AllFields(vs[..j]), AllFields(vs[j..]);
    assert vs == vs[..j] + vs[j..];
    AllFieldsConcat(vs[..j], vs[j..]);
    AllFieldsTame(vs, h);
    DictRun(ps, vs);
    var rest := AllFields(vs[1..]);
    assert a + b == ps + rest;
    forall k ensures Works(Get(ps, k), Group(b, k)) && Final(Get(ps, k), Group(b, k)) == Get(ps, k) {
      GroupConcat(a, b, k);
      if Group(b, k) == [] {
        NothingMerged(Get(ps, k));
      } else {
        KeyKept(ps, rest, k);
        var g := Group(a + b, k);
        GroupTame(a + b, k, h - 1);
        SuffixKept(g, |Group(a, k)|, h - 1);
        assert g[|Group(a, k)|..] == Group(b, k);
      }
    }
    FieldsKept(ps, b);
    DictRun(ps, vs[j..]);
  }

  lemma NothingMerged(st: Option<Json>)
    ensures Works(st, []) && Final(st, []) == st
  {
  }

  lemma {:induction false} SuffixKeptList(vs: seq<Json>, j: nat, h: nat)
    requires vs != [] && j <= |vs| && AllTame(vs, h) && Keeps(vs[0], vs) && AllOfKind(vs, Objects)
    ensures Keeps(vs[0], vs[j..])
    decreases h, 0
  {
    hide Tame, Works, Final, MergeItems, GroupNamed, FindNamed, NameOf, TameItems, Truthy, Becomes, Leads, AllItems;
    assert KindOf(vs[0]) == Objects;
    var es, a, b := vs[0].items, AllItems(vs[..j]), AllItems(vs[j..]);
    assert vs == vs[..j] + vs[j..];
    AllItemsConcat(vs[..j], vs[j..]);
    AllItemsTame(vs, h);
    ListRun(es, vs);
    var rest := AllItems(vs[1..]);
    AllItemsTail(vs);
    SuffixNamed(es, rest, a, b);
    forall i | 0 <= i < |es| ensures Becomes(es, es, b, i) {
      SuffixKeptName(es, rest, a, b, i, h);
    }
    ItemsTogether(es, es, b);
    ListRun(es, vs[j..]);
  }

  lemma AllItemsTail(vs: seq<Json>)
    requires vs != [] && AllOfKind(vs, Objects)
    ensures AllItems(vs) == vs[0].items + AllItems(vs[1..])
  {
  }

  /** Every object of the tail is named and finds its name. */
  lemma SuffixNamed(es: seq<Json>, rest: seq<Json>, a: seq<Json>, b: seq<Json>)
    requires a + b == es + rest && TameItems(es + rest) && MergeItems(es, es + rest) == MergedItems(es, None)
    ensures TameItems(b) && AllFound(es, b)
  {
    hide Works, Final, MergeItems, GroupNamed, FindNamed, NameOf, TameItem, Truthy;
    assert forall i | 0 <= i < |b| :: b[i] == (a + b)[|a| + i];
    forall i | 0 <= i < |b|
      ensures NameOf(b[i]).Some? && Truthy(NameOf(b[i]).value) && FindNamed(es, NameOf(b[i]).value).Found?
    {
      ItemsNamed(es, a + b, |a| + i);
      GroupNamedHas(a + b, |a| + i);
      NameKept(es, rest, NameOf(b[i]).value);
    }
  }

  lemma {:induction false} SuffixKeptName(es: seq<Json>, rest: seq<Json>, a: seq<Json>, b: seq<Json>, i: nat, h: nat)
    requires h > 0 && a + b == es + rest && AllTame(es + rest, h - 1) && TameItems(es + rest)
    requires MergeItems(es, es + rest) == MergedItems(es, None) && i < |es|
    ensures Becomes(es, es, b, i)
    decreases h - 1, 2
  {
    hide Tame, Works, Final, MergeItems, GroupNamed, FindNamed, TameItem;
    if !Leads(es, i) { return; }
    var n := NameOf(es[i]).value;
    GroupNamedConcat(a, b, n);
    if GroupNamed(b, n) == [] {
      NothingMerged(Some(es[i]));
    } else {
      NameKept(es, rest, n);
      var g := GroupNamed(a + b, n);
      GroupNamedTame(a + b, n, h - 1);
      SuffixKept(g, |GroupNamed(a, n)|, h - 1);
      assert g[|GroupNamed(a, n)|..] == GroupNamed(b, n);
    }
  }

  /** Patches that keep their first one change nothing when they are all merged again, wherever
      they have been merged. */
  lemma {:induction false} RunTwice(vs: seq<Json>, st: Option<Json>, h: nat)
    requires vs != [] && AllTame(vs, h) && Keeps(vs[0], vs) && Works(st, vs)
    ensures Final(st, vs).Some? && Keeps(Final(st, vs).value, vs)
    decreases h, 1
  {
    hide Tame, MergeValue, Rank, MergeFields, MergeItems;
    var u := vs[0];
    if MergeValue(st, u) == Some(u) {
      SuffixKept(vs, 1, h);
    } else {
      ValueIs(st, u);
      KindsAgree(u, vs);
      if u.Obj? { RunTwiceDict(vs, st.value.fields, h); } else { RunTwiceList(vs, st.value.items, h); }
    }
  }

  lemma {:induction false} RunTwiceDict(vs: seq<Json>, os: seq<Field>, h: nat)
    requires vs != [] && AllTame(vs, h) && Keeps(vs[0], vs) && AllOfKind(vs, Dict) && Works(Some(Obj(os)), vs)
    ensures Final(Some(Obj(os)), vs).Some? && Keeps(Final(Some(Obj(os)), vs).value, vs)
    decreases h, 0
  {
    hide Tame, Works, Final, MergeFields, Group, Get;
    assert KindOf(vs[0]) == Dict;
    var ps, rest := vs[0].fields, AllFields(vs[1..]);
    var all := ps + rest;
    AllFieldsTame(vs, h);
    DictRun(ps, vs);
    DictRun(os, vs);
    var rs := MergeFields(os, all).fields;
    forall k ensures Works(Get(rs, k), Group(all, k)) && Final(Get(rs, k), Group(all, k)) == Get(rs, k) {
      if Group(all, k) == [] {
        NothingMerged(Get(rs, k));
      } else {
        KeyKept(ps, rest, k);
        FieldsApart(os, all, k);
        GroupTame(all, k, h - 1);
        RunTwice(Group(all, k), Get(os, k), h - 1);
      }
    }
    FieldsKept(rs, all);
    DictRun(rs, vs);
  }

  lemma {:induction false} RunTwiceList(vs: seq<Json>, xs: seq<Json>, h: nat)
    requires vs != [] && xs != [] && AllTame(vs, h) && Keeps(vs[0], vs) && AllOfKind(vs, Objects) && Works(Some(Arr(xs)), vs)
    ensures Final(Some(Arr(xs)), vs).Some? && Keeps(Final(Some(Arr(xs)), vs).value, vs)
    decreases h, 0
  {
    hide Tame, Works, Final, MergeItems, GroupNamed, FindNamed, NameOf, TameItem, Truthy;
    assert KindOf(vs[0]) == Objects;
    var es, rest := vs[0].items, AllItems(vs[1..]);
    var all := es + rest;
    AllItemsTame(vs, h);
    ListRun(es, vs);
    ListRun(xs, vs);
    var ys := MergeItems(xs, all).items;
    forall i | 0 <= i < |all|
      ensures NameOf(all[i]).Some? && Truthy(NameOf(all[i]).value) && FindNamed(ys, NameOf(all[i]).value).Found?
    {
      ItemsNamed(xs, all, i);
      GroupNamedHas(all, i);
      ItemsApart(xs, all, NameOf(all[i]).value);
    }
    forall i | 0 <= i < |ys| ensures Becomes(ys, ys, all, i) {
      if Leads(ys, i) { RunTwiceName(es, rest, xs, i, h); }
    }
    ItemsTogether(ys, ys, all);
    HeadStays(xs, all);
    ListRun(ys, vs);
  }

  lemma {:induction false} RunTwiceName(es: seq<Json>, rest: seq<Json>, xs: seq<Json>, i: nat, h: nat)
    requires h > 0 && AllTame(es + rest, h - 1) && TameItems(es + rest)
    requires MergeItems(es, es + rest) == MergedItems(es, None) && MergeItems(xs, es + rest).error.None?
    requires var ys := MergeItems(xs, es + rest).items; i < |ys| && Leads(ys, i)
    ensures var ys := MergeItems(xs, es + rest).items; Becomes(ys, ys, es + rest, i)
    decreases h - 1, 2
  {
    hide Tame, Works, Final, MergeItems, GroupNamed, FindNamed, TameItem;
    var ys := MergeItems(xs, es + rest).items;
    var n := NameOf(ys[i]).value;
    var g := GroupNamed(es + rest, n);
    if g == [] {
      NothingMerged(Some(ys[i]));
    } else {
      NameKept(es, rest, n);
      ItemsApart(xs, es + rest, n);
      GroupNamedTame(es + rest, n, h - 1);
      if FindNamed(xs, n).Found? {
        RunTwice(g, Some(xs[i]), h - 1);
      } else {
        SuffixKept(g, 1, h - 1);
      }
    }
  }

  // ---------- The theorem ----------

  function Height(v: Json): nat {
    match v
    case Obj(fs) => 1 + FieldsHeight(fs)
    case Arr(es) => 1 + ItemsHeight(es)
    case _ => 0
  }

  function FieldsHeight(fs: seq<Field>): (h: nat)
    ensures forall i | 0 <= i < |fs| :: Height(fs[i].value) <= h
  {
    if fs == [] then 0
    else
      var a, b := Height(fs[0].value), FieldsHeight(fs[1..]);
      assert forall i | 1 <= i < |fs| :: fs[i] == fs[1..][i - 1];
      if a < b then b else a
  }

  function ItemsHeight(es: seq<Json>): (h: nat)
    ensures forall i | 0 <= i < |es| :: Height(es[i]) <= h
  {
    if es == [] then 0
    else
      var a, b := Height(es[0]), ItemsHeight(es[1..]);
      assert forall i | 1 <= i < |es| :: es[i] == es[1..][i - 1];
      if a < b then b else a
  }

  /** Dictionaries have distinct keys, and no name in a list is itself a list or a dictionary. */
  predicate IsTame(v: Json) {
    match v
    case Obj(fs) => DistinctKeys(fs) && forall i | 0 <= i < |fs| :: IsTame(fs[i].value)
    case Arr(es) => TameItems(es) && forall i | 0 <= i < |es| :: IsTame(es[i])
    case _ => true
  }

  lemma {:induction false} TameAtHeight(v: Json, h: nat)
    requires IsTame(v) && Height(v) <= h
    ensures Tame(v, h)
    decreases h
  {
    hide DistinctKeys, TameItems;
    match v
    case Obj(fs) =>
      forall i | 0 <= i < |fs| ensures Tame(fs[i].value, h - 1) { TameAtHeight(fs[i].value, h - 1); }
    case Arr(es) =>
      forall i | 0 <= i < |es| ensures Tame(es[i], h - 1) { TameAtHeight(es[i], h - 1); }
    case _ =>
  }

  lemma {:induction false} PutLast(fs: seq<Field>, k: string, v: Json)
    requires !Mentions(fs, k)
    ensures Put(fs, k, v) == fs + [Field(k, v)]
  {
    if fs != [] {
      assert fs[0].key != k;
      assert !Mentions(fs[1..], k) by {
        forall i | 0 <= i < |fs[1..]| ensures fs[1..][i].key != k { assert fs[i + 1].key != k; }
      }
      PutLast(fs[1..], k, v);
    }
  }

  /** Merging a dictionary into an empty one gives it. */
  lemma {:induction false} AllAssigned(done: seq<Field>, ps: seq<Field>)
    requires DistinctKeys(done + ps)
    ensures MergeFields(done, ps) == Merged(done + ps, None)
    decreases |ps|
  {
    if ps == [] {
      assert done + ps == done;
    } else {
      var k, v := ps[0].key, ps[0].value;
      forall i | 0 <= i < |done| ensures done[i].key != k {
        assert (done + ps)[i] == done[i] && (done + ps)[|done|] == ps[0];
      }
      GetNone(done, k);
      PutLast(done, k, v);
      assert done + [Field(k, v)] + ps[1..] == done + ps;
      AllAssigned(done + [Field(k, v)], ps[1..]);
    }
  }

  /** Whatever the patch has been merged into, merging it again changes nothing. */
  ghost predicate Idempotent(patch: Json) {
    forall base: Json :: MergeObjects(base, patch).1.None? ==> MergesAway(base, patch)
  }

  ghost predicate MergesAway(base: Json, patch: Json) {
    var r := MergeObjects(base, patch).0;
    MergeObjects(r, patch) == (r, None)
  }

  /** A patch merges idempotently into every base exactly when merging it into itself succeeds
      and leaves it as it is. */
  lemma IdempotentExactly(patch: Json)
    requires IsTame(patch) && patch.Obj?
    ensures Idempotent(patch) <==> MergeObjects(patch, patch) == (patch, None)
  {
    hide IsTame, MergeFields, Keeps, DistinctKeys;
    if Idempotent(patch) {
      TameKeys(patch);
      AllAssigned([], patch.fields);
      assert [] + patch.fields == patch.fields;
      assert MergesAway(Obj([]), patch);
    }
    if MergeObjects(patch, patch) == (patch, None) {
      forall base: Json | MergeObjects(base, patch).1.None? ensures MergesAway(base, patch) {
        MergedTwice(base, patch);
      }
    }
  }

  /** A patch may name an object twice and still be idempotent. */
  lemma SameObjectTwice()
    ensures var patch := Obj([Field("l", Arr([Named("a", 1), Named("a", 1)]))]);
            !WellNamed(patch) && Idempotent(patch)
  {
    hide Idempotent, MergeItems, MergeItem, IsTame;
    var a := Named("a", 1);
    var es := [a, a];
    var patch := Obj([Field("l", Arr(es))]);
    assert NameOf(es[0]) == NameOf(es[1]);
    assert !NamedList(es) && !WellNamed(patch.fields[0].value);
    ItemTwice();
    assert patch.fields[1..] == [];
    assert MergeField(patch.fields, "l", Arr(es)) == Merged(patch.fields, None);
    TameTwice();
    IdempotentExactly(patch);
  }

  lemma ItemTwice()
    ensures var a := Named("a", 1); MergeItems([a, a], [a, a]) == MergedItems([a, a], None)
  {
    var a := Named("a", 1);
    var es := [a, a];
    MergeNamed(1, 1);
    assert es[0 := a] == es;
    assert MergeItem(es, a) == MergedItems(es, None);
    TwoItems(es, a, a);
  }

  lemma TameTwice()
    ensures IsTame(Obj([Field("l", Arr([Named("a", 1), Named("a", 1)]))]))
  {
    var a := Named("a", 1);
    assert NAME != "v";
    assert NameOf(a) == Some(Text("a"));
    PlainKeeps(Text("a"));
    assert TameItem(a) && IsTame(a);
    assert IsTame(Arr([a, a]));
  }

  lemma TameKeys(patch: Json)
    requires IsTame(patch) && patch.Obj?
    ensures DistinctKeys([] + patch.fields)
  {
    assert [] + patch.fields == patch.fields;
  }

  lemma MergedTwice(base: Json, patch: Json)
    requires IsTame(patch) && MergeObjects(patch, patch) == (patch, None) && MergeObjects(base, patch).1.None?
    ensures MergesAway(base, patch)
  {
    hide IsTame, MergeFields;
    TameAtHeight(patch, Height(patch));
    OnePatch(Some(patch), patch);
    OnePatch(Some(base), patch);
    ValueIs(Some(patch), patch);
    ValueIs(Some(base), patch);
    RunTwice([patch], Some(base), Height(patch));
    var r := MergeObjects(base, patch).0;
    OnePatch(Some(r), patch);
    ValueIs(Some(r), patch);
  }

  lemma OnePatch(st: Option<Json>, v: Json)
    ensures Works(st, [v]) <==> MergeValue(st, v).Some?
    ensures Final(st, [v]) == MergeValue(st, v)
  {
    assert [v][1..] == [];
  }
}
