/** The recursive merge of nested objects (utils/base_utils.py:57-116). A dictionary is its
    fields in insertion order; what a failing merge leaves behind is part of the outcome. */
module Merge {
  import opened Wrappers

  datatype Json =
    | Null
    | Bool(flag: bool)
    | Num(number: int)
    | Text(text: string)
    | Arr(items: seq<Json>)
    | Obj(fields: seq<Field>)

  datatype Field = Field(key: string, value: Json)

  /** `ValueError` for a type or a missing name, `IndexError` for the first element of an
      empty list, `AssertionError` for a list element that is not an object, `KeyError` for
      one without a name. */
  datatype Error = BadType | NoName | EmptyList | NotAnObject | Unnamed

  const NAME := "name"

  // ---------- Dictionaries ----------

  /** `d.get(k)`, with a missing key told apart. */
  function Get(fs: seq<Field>, k: string): Option<Json> {
    if fs == [] then None else if fs[0].key == k then Some(fs[0].value) else Get(fs[1..], k)
  }

  /** Assignment to a key of a dictionary: in place for a known key, at the end for a new one. */
  function Put(fs: seq<Field>, k: string, v: Json): seq<Field> {
    if fs == [] then [Field(k, v)]
    else if fs[0].key == k then [Field(k, v)] + fs[1..]
    else [fs[0]] + Put(fs[1..], k, v)
  }

  predicate DistinctKeys(fs: seq<Field>) {
    forall i, j | 0 <= i < j < |fs| :: fs[i].key != fs[j].key
  }

  lemma {:induction false} GetPut(fs: seq<Field>, k: string, v: Json, k': string)
    ensures Get(Put(fs, k, v), k') == if k' == k then Some(v) else Get(fs, k')
  {
    if fs != [] && fs[0].key != k {
      GetPut(fs[1..], k, v, k');
      assert Put(fs, k, v)[1..] == Put(fs[1..], k, v);
    } else if fs != [] {
      assert Put(fs, k, v)[1..] == fs[1..];
    }
  }

  lemma {:induction false} PutSame(fs: seq<Field>, k: string, v: Json)
    requires Get(fs, k) == Some(v)
    ensures Put(fs, k, v) == fs
  {
    if fs[0].key == k {
      assert fs == [Field(k, v)] + fs[1..];
    } else {
      PutSame(fs[1..], k, v);
    }
  }

  lemma {:induction false} GetAt(fs: seq<Field>, i: nat)
    requires DistinctKeys(fs) && i < |fs|
    ensures Get(fs, fs[i].key) == Some(fs[i].value)
  {
    if i > 0 { GetAt(fs[1..], i - 1); }
  }

  // ---------- The merge ----------

  /** Python's truth value. */
  predicate Truthy(j: Json) {
    match j
    case Null => false
    case Bool(b) => b
    case Num(n) => n != 0
    case Text(s) => s != ""
    case Arr(items) => items != []
    case Obj(fields) => fields != []
  }

  datatype Search = Found(at: nat) | Missing | Failed(error: Error)

  /** `get_named_object`: the place of the first object with this name. */
  function FindNamed(xs: seq<Json>, name: Json): (r: Search)
    ensures r.Found? ==> r.at < |xs| && xs[r.at].Obj? && Get(xs[r.at].fields, NAME) == Some(name)
  {
    if xs == [] then Missing
    else if !xs[0].Obj? then Failed(NotAnObject)
    else if Get(xs[0].fields, NAME).None? then Failed(Unnamed)
    else if Get(xs[0].fields, NAME).value == name then Found(0)
    else
      match FindNamed(xs[1..], name)
      case Found(i) => Found(i + 1)
      case r => r
  }

  /** The merged fields, or what they were when the merge failed. */
  datatype Merged = Merged(fields: seq<Field>, error: Option<Error>)

  datatype MergedItems = MergedItems(items: seq<Json>, error: Option<Error>)

  /** The loop over the patch's fields. */
  function MergeFields(bs: seq<Field>, ps: seq<Field>): Merged
    decreases ps
  {
    if ps == [] then Merged(bs, None)
    else
      var r := MergeField(bs, ps[0].key, ps[0].value);
      if r.error.Some? then r else MergeFields(r.fields, ps[1..])
  }

  function MergeField(bs: seq<Field>, k: string, v: Json): Merged
    decreases v
  {
    match Get(bs, k)
    case None => Merged(Put(bs, k, v), None)
    case Some(Null) => Merged(Put(bs, k, v), None)
    case Some(Obj(os)) =>
      if !v.Obj? then Merged(bs, Some(BadType))
      else
        var r := MergeFields(os, v.fields);
        Merged(Put(bs, k, Obj(r.fields)), r.error)
    case Some(Arr(xs)) =>
      if !v.Arr? then Merged(bs, Some(BadType))
      else if xs == [] then Merged(Put(bs, k, v), None)
      else if v.items == [] then Merged(bs, Some(EmptyList))
      else if !v.items[0].Obj? then Merged(Put(bs, k, v), None)
      else
        var r := MergeItems(xs, v.items);
        Merged(Put(bs, k, Arr(r.items)), r.error)
    case Some(_) =>
      if v.Obj? || v.Arr? then Merged(bs, Some(BadType)) else Merged(Put(bs, k, v), None)
  }

  /** The loop over the patch's list of named objects. */
  function MergeItems(xs: seq<Json>, es: seq<Json>): MergedItems
    decreases es
  {
    if es == [] then MergedItems(xs, None)
    else
      var r := MergeItem(xs, es[0]);
      if r.error.Some? then r else MergeItems(r.items, es[1..])
  }

  function MergeItem(xs: seq<Json>, e: Json): MergedItems
    decreases e, 1
  {
    if !e.Obj? then MergedItems(xs, Some(BadType))
    else
      var name := Get(e.fields, NAME);
      if name.None? || !Truthy(name.value) then MergedItems(xs, Some(NoName))
      else
        match FindNamed(xs, name.value)
        case Failed(error) => MergedItems(xs, Some(error))
        case Missing => MergedItems(xs + [e], None)
        case Found(i) =>
          var r := MergeFields(xs[i].fields, e.fields);
          MergedItems(xs[i := Obj(r.fields)], r.error)
  }

  // ---------- What a merge does not mention ----------

  predicate Mentions(ps: seq<Field>, k: string) {
    exists i | 0 <= i < |ps| :: ps[i].key == k
  }

  /** Merging a field changes no other key. */
  lemma FieldKeeps(bs: seq<Field>, k: string, v: Json, k': string)
    requires k' != k
    ensures Get(MergeField(bs, k, v).fields, k') == Get(bs, k')
  {
    hide MergeFields, MergeItems, Put;
    forall w { GetPut(bs, k, w, k'); }
  }

  lemma {:induction false} FieldsKeep(bs: seq<Field>, ps: seq<Field>, k: string)
    requires !Mentions(ps, k)
    ensures Get(MergeFields(bs, ps).fields, k) == Get(bs, k)
    decreases ps
  {
    hide MergeField;
    if ps != [] {
      FieldKeeps(bs, ps[0].key, ps[0].value, k);
      FieldsKeep(MergeField(bs, ps[0].key, ps[0].value).fields, ps[1..], k);
    }
  }

  // ---------- Well-named patches ----------

  function NameOf(e: Json): Option<Json> {
    if e.Obj? then Get(e.fields, NAME) else None
  }

  predicate HasName(e: Json) {
    e.Obj? && NameOf(e).Some? && NameOf(e).value.Text? && NameOf(e).value.text != ""
  }

  /** Objects with distinct non-empty names. */
  predicate NamedList(es: seq<Json>) {
    && (forall i | 0 <= i < |es| :: HasName(es[i]))
    && (forall i, j | 0 <= i < j < |es| :: NameOf(es[i]) != NameOf(es[j]))
  }

  /** Every list of objects, at every depth, is a named list. */
  predicate WellNamed(j: Json) {
    match j
    case Obj(fs) => DistinctKeys(fs) && forall i | 0 <= i < |fs| :: WellNamed(fs[i].value)
    case Arr(es) => es != [] && es[0].Obj? ==> NamedList(es) && forall i | 0 <= i < |es| :: WellNamed(es[i])
    case _ => true
  }

  // ---------- Searching by name ----------

  lemma {:induction false} FindAppend(xs: seq<Json>, x: Json, name: Json)
    ensures FindNamed(xs, name).Found? ==> FindNamed(xs + [x], name) == FindNamed(xs, name)
    ensures FindNamed(xs, name).Missing? && NameOf(x) == Some(name) ==> FindNamed(xs + [x], name) == Found(|xs|)
  {
    hide Get;
    if xs == [] {
      assert xs + [x] == [x] && [x][1..] == [];
    } else {
      assert (xs + [x])[1..] == xs[1..] + [x];
      FindAppend(xs[1..], x, name);
    }
  }

  /** The search looks at names only. */
  lemma {:induction false} FindUpdate(xs: seq<Json>, j: nat, o: Json, name: Json)
    requires j < |xs| && NameOf(o).Some? && NameOf(o) == NameOf(xs[j])
    ensures FindNamed(xs[j := o], name) == FindNamed(xs, name)
  {
    if j == 0 {
      assert xs[0 := o][1..] == xs[1..];
    } else {
      assert xs[j := o][1..] == xs[1..][j - 1 := o];
      FindUpdate(xs[1..], j - 1, o, name);
    }
  }

  lemma {:induction false} FindIn(es: seq<Json>, i: nat)
    requires NamedList(es) && i < |es|
    ensures FindNamed(es, NameOf(es[i]).value) == Found(i)
  {
    if i > 0 {
      assert NameOf(es[0]) != NameOf(es[i]);
      FindIn(es[1..], i - 1);
    }
  }

  // ---------- Values that absorb a patch ----------

  /** Merging `v` into `w` succeeds and gives `w`. */
  predicate Absorbs(w: Json, v: Json) {
    match w
    case Obj(os) => v.Obj? && MergeFields(os, v.fields) == Merged(os, None)
    case Arr(xs) =>
      && v.Arr?
      && if xs == [] || (v.items != [] && !v.items[0].Obj?) then v == w
         else v.items != [] && MergeItems(xs, v.items) == MergedItems(xs, None)
    case _ => v == w
  }

  lemma FieldAbsorbed(fs: seq<Field>, k: string, v: Json)
    requires Get(fs, k).Some? && Absorbs(Get(fs, k).value, v)
    ensures MergeField(fs, k, v) == Merged(fs, None)
  {
    hide MergeFields, MergeItems;
    PutSame(fs, k, Get(fs, k).value);
  }

  lemma {:induction false} AllAbsorbed(fs: seq<Field>, ps: seq<Field>)
    requires forall i | 0 <= i < |ps| :: Get(fs, ps[i].key).Some? && Absorbs(Get(fs, ps[i].key).value, ps[i].value)
    ensures MergeFields(fs, ps) == Merged(fs, None)
  {
    hide Absorbs, MergeField;
    if ps != [] {
      FieldAbsorbed(fs, ps[0].key, ps[0].value);
      AllAbsorbed(fs, ps[1..]);
    }
  }

  lemma {:induction false} AllItemsAbsorbed(xs: seq<Json>, es: seq<Json>)
    requires forall i | 0 <= i < |es| :: MergeItem(xs, es[i]) == MergedItems(xs, None)
    ensures MergeItems(xs, es) == MergedItems(xs, None)
  {
    hide MergeItem;
    if es != [] { AllItemsAbsorbed(xs, es[1..]); }
  }

  /** An element that is there under its name, and absorbed there. */
  predicate Settled(xs: seq<Json>, e: Json)
    requires HasName(e)
  {
    var r := FindNamed(xs, NameOf(e).value);
    r.Found? && MergeFields(xs[r.at].fields, e.fields) == Merged(xs[r.at].fields, None)
  }

  lemma SettledAbsorbs(xs: seq<Json>, e: Json)
    requires HasName(e) && Settled(xs, e)
    ensures MergeItem(xs, e) == MergedItems(xs, None)
  {
    hide MergeFields, FindNamed;
    var i := FindNamed(xs, NameOf(e).value).at;
    assert xs[i := Obj(xs[i].fields)] == xs;
  }

  /** A well-named value absorbs itself. */
  lemma {:induction false} SelfAbsorbs(v: Json)
    requires WellNamed(v)
    ensures Absorbs(v, v)
    decreases v
  {
    hide MergeFields, MergeItems, FindNamed;
    match v
    case Obj(fs) =>
      forall i | 0 <= i < |fs| ensures Get(fs, fs[i].key).Some? && Absorbs(Get(fs, fs[i].key).value, fs[i].value) {
        GetAt(fs, i);
        SelfAbsorbs(fs[i].value);
      }
      AllAbsorbed(fs, fs);
    case Arr(es) =>
      if es != [] && es[0].Obj? {
        forall i | 0 <= i < |es| ensures MergeItem(es, es[i]) == MergedItems(es, None) {
          FindIn(es, i);
          SelfAbsorbs(es[i]);
          SettledAbsorbs(es, es[i]);
        }
        AllItemsAbsorbed(es, es);
      }
    case _ =>
  }

  // ---------- Idempotence ----------

  /** What a successful merge of a field leaves at its key absorbs the field. */
  lemma {:induction false} FieldSettles(bs: seq<Field>, k: string, v: Json)
    requires WellNamed(v) && MergeField(bs, k, v).error.None?
    ensures var w := Get(MergeField(bs, k, v).fields, k);
            w.Some? && Absorbs(w.value, v)
    decreases v, 0
  {
    hide MergeFields, MergeItems;
    forall w { GetPut(bs, k, w, k); }
    SelfAbsorbs(v);
    match Get(bs, k)
    case Some(Obj(os)) => FieldsIdempotent(os, v.fields);
    case Some(Arr(xs)) =>
      if xs != [] && v.items[0].Obj? {
        ItemsGrow(xs, v.items);
        ItemsIdempotent(xs, v.items);
      }
    case _ =>
  }

  /** The same inside a loop over fields with distinct keys. */
  lemma {:induction false} FieldSettlesIn(bs: seq<Field>, ps: seq<Field>, i: nat)
    requires WellNamed(Obj(ps)) && i < |ps| && MergeFields(bs, ps).error.None?
    ensures var w := Get(MergeFields(bs, ps).fields, ps[i].key);
            w.Some? && Absorbs(w.value, ps[i].value)
    decreases ps, 0
  {
    hide MergeField, Absorbs;
    var r := MergeField(bs, ps[0].key, ps[0].value);
    if i == 0 {
      FieldSettles(bs, ps[0].key, ps[0].value);
      FieldsKeep(r.fields, ps[1..], ps[0].key);
    } else {
      FieldSettlesIn(r.fields, ps[1..], i - 1);
    }
  }

  lemma {:induction false} FieldsIdempotent(bs: seq<Field>, ps: seq<Field>)
    requires WellNamed(Obj(ps)) && MergeFields(bs, ps).error.None?
    ensures var r := MergeFields(bs, ps).fields;
            MergeFields(r, ps) == Merged(r, None)
    decreases ps, 1
  {
    hide MergeFields, Absorbs;
    var r := MergeFields(bs, ps).fields;
    forall i | 0 <= i < |ps| ensures Get(r, ps[i].key).Some? && Absorbs(Get(r, ps[i].key).value, ps[i].value) {
      FieldSettlesIn(bs, ps, i);
    }
    AllAbsorbed(r, ps);
  }

  lemma {:induction false} ItemsGrow(xs: seq<Json>, es: seq<Json>)
    ensures |MergeItems(xs, es).items| >= |xs|
    decreases es
  {
    hide MergeFields, FindNamed;
    if es != [] && MergeItem(xs, es[0]).error.None? { ItemsGrow(MergeItem(xs, es[0]).items, es[1..]); }
  }

  /** Merging an object into one of the same name keeps the name. */
  lemma {:induction false} NameKept(os: seq<Field>, e: Json)
    requires HasName(e) && WellNamed(e) && Get(os, NAME) == NameOf(e) && MergeFields(os, e.fields).error.None?
    ensures Get(MergeFields(os, e.fields).fields, NAME) == NameOf(e)
    decreases e, 0
  {
    hide MergeFields;
    var i := NameAt(e.fields);
    FieldSettlesIn(os, e.fields, i);
  }

  lemma {:induction false} NameAt(fs: seq<Field>) returns (i: nat)
    requires Get(fs, NAME).Some?
    ensures i < |fs| && fs[i].key == NAME && Get(fs, NAME) == Some(fs[i].value)
  {
    if fs[0].key == NAME {
      i := 0;
    } else {
      i := NameAt(fs[1..]);
      i := i + 1;
    }
  }

  /** Merging an element settles it. */
  lemma {:induction false} ItemSettles(xs: seq<Json>, e: Json)
    requires HasName(e) && WellNamed(e) && MergeItem(xs, e).error.None?
    ensures Settled(MergeItem(xs, e).items, e)
    decreases e, 1
  {
    hide MergeFields, FindNamed;
    var name := NameOf(e).value;
    FindAppend(xs, e, name);
    match FindNamed(xs, name)
    case Missing =>
      SelfAbsorbs(e);
    case Found(i) =>
      var r := MergeFields(xs[i].fields, e.fields);
      NameKept(xs[i].fields, e);
      FieldsIdempotent(xs[i].fields, e.fields);
      FindUpdate(xs, i, Obj(r.fields), name);
    case Failed(_) =>
  }

  /** Merging an element of another name keeps an element settled. */
  lemma {:induction false} ItemKeepsSettled(xs: seq<Json>, e: Json, d: Json)
    requires HasName(e) && HasName(d) && WellNamed(d) && NameOf(e) != NameOf(d)
    requires Settled(xs, e) && MergeItem(xs, d).error.None?
    ensures Settled(MergeItem(xs, d).items, e)
    decreases d, 1
  {
    hide MergeFields, FindNamed;
    FindAppend(xs, d, NameOf(e).value);
    match FindNamed(xs, NameOf(d).value)
    case Missing =>
    case Found(j) =>
      var r := MergeFields(xs[j].fields, d.fields);
      NameKept(xs[j].fields, d);
      FindUpdate(xs, j, Obj(r.fields), NameOf(e).value);
    case Failed(_) =>
  }

  lemma {:induction false} ItemsKeepSettled(xs: seq<Json>, e: Json, es: seq<Json>)
    requires HasName(e) && Settled(xs, e) && MergeItems(xs, es).error.None?
    requires forall i | 0 <= i < |es| :: HasName(es[i]) && WellNamed(es[i]) && NameOf(es[i]) != NameOf(e)
    ensures Settled(MergeItems(xs, es).items, e)
    decreases es, 0
  {
    hide Settled, MergeItem, HasName, NameOf, WellNamed;
    if es != [] {
      ItemKeepsSettled(xs, e, es[0]);
      ItemsKeepSettled(MergeItem(xs, es[0]).items, e, es[1..]);
    }
  }

  lemma {:induction false} ItemSettlesIn(xs: seq<Json>, es: seq<Json>, i: nat)
    requires NamedList(es) && (forall j | 0 <= j < |es| :: WellNamed(es[j]))
    requires i < |es| && MergeItems(xs, es).error.None?
    ensures Settled(MergeItems(xs, es).items, es[i])
    decreases es, 1
  {
    hide Settled, MergeItem, HasName, NameOf, WellNamed;
    var r := MergeItem(xs, es[0]);
    if i == 0 {
      ItemSettles(xs, es[0]);
      ItemsKeepSettled(r.items, es[0], es[1..]);
    } else {
      ItemSettlesIn(r.items, es[1..], i - 1);
    }
  }

  lemma {:induction false} ItemsIdempotent(xs: seq<Json>, es: seq<Json>)
    requires NamedList(es) && (forall j | 0 <= j < |es| :: WellNamed(es[j]))
    requires MergeItems(xs, es).error.None?
    ensures var r := MergeItems(xs, es).items;
            MergeItems(r, es) == MergedItems(r, None)
    decreases es, 2
  {
    hide Settled, MergeItem, MergeItems, HasName, NameOf, WellNamed;
    var r := MergeItems(xs, es).items;
    forall i | 0 <= i < |es| ensures MergeItem(r, es[i]) == MergedItems(r, None) {
      ItemSettlesIn(xs, es, i);
      SettledAbsorbs(r, es[i]);
    }
    AllItemsAbsorbed(r, es);
  }

  /** `merge_patch_object`: both arguments must be dictionaries. */
  function MergeObjects(base: Json, patch: Json): (Json, Option<Error>) {
    if base.Obj? && patch.Obj? then
      var r := MergeFields(base.fields, patch.fields);
      (Obj(r.fields), r.error)
    else (base, Some(BadType))
  }

  /** After a successful merge of a well-named patch, merging it again succeeds and changes
      nothing. */
  lemma MergeIdempotent(base: Json, patch: Json)
    requires WellNamed(patch) && MergeObjects(base, patch).1.None?
    ensures var r := MergeObjects(base, patch).0;
            MergeObjects(r, patch) == (r, None)
  {
    hide MergeFields;
    FieldsIdempotent(base.fields, patch.fields);
  }

  function Named(name: string, v: int): Json {
    Obj([Field(NAME, Text(name)), Field("v", Num(v))])
  }

  /** With a name given twice the property fails: the first merge assigns the list, the second
      merges both objects into the first of them. */
  lemma RepeatedNameChangesAgain()
    ensures var patch := Obj([Field("l", Arr([Named("a", 1), Named("a", 2)]))]);
            var first := MergeObjects(Obj([]), patch);
            && !WellNamed(patch)
            && first == (patch, None)
            && MergeObjects(patch, patch) == (Obj([Field("l", Arr([Named("a", 2), Named("a", 2)]))]), None)
  {
    var a1, a2 := Named("a", 1), Named("a", 2);
    var es := [a1, a2];
    var patch := Obj([Field("l", Arr(es))]);
    assert NameOf(es[0]) == NameOf(es[1]);
    assert !NamedList(es);
    assert !WellNamed(patch.fields[0].value);
    assert patch.fields[1..] == [];
    MergeNamed(1, 1);
    MergeNamed(1, 2);
    assert es[0 := a1] == es && es[0 := a2] == [a2, a2];
    assert MergeItem(es, a1) == MergedItems(es, None);
    assert MergeItem(es, a2) == MergedItems([a2, a2], None);
    TwoItems(es, a1, a2);
    assert MergeField(patch.fields, "l", Arr(es)) == Merged([Field("l", Arr([a2, a2]))], None);
  }

  lemma TwoItems(xs: seq<Json>, d: Json, e: Json)
    ensures MergeItem(xs, d).error.None? ==> MergeItems(xs, [d, e]) == MergeItem(MergeItem(xs, d).items, e)
  {
    hide MergeItem;
    assert [d, e][1..] == [e] && [e][1..] == [];
    OneItem(MergeItem(xs, d).items, e);
  }

  lemma OneItem(xs: seq<Json>, e: Json)
    ensures MergeItems(xs, [e]) == MergeItem(xs, e)
  {
    hide MergeItem;
    assert [e][1..] == [];
  }

  lemma TwoFields(fs: seq<Field>, f: Field, g: Field)
    ensures MergeField(fs, f.key, f.value).error.None? ==>
              MergeFields(fs, [f, g]) == MergeField(MergeField(fs, f.key, f.value).fields, g.key, g.value)
  {
    hide MergeField;
    assert [f, g][1..] == [g] && [g][1..] == [];
    OneField(MergeField(fs, f.key, f.value).fields, g);
  }

  lemma OneField(fs: seq<Field>, f: Field)
    ensures MergeFields(fs, [f]) == MergeField(fs, f.key, f.value)
  {
    hide MergeField;
    assert [f][1..] == [];
  }

  lemma MergeNamed(v: int, w: int)
    ensures MergeFields(Named("a", v).fields, Named("a", w).fields) == Merged(Named("a", w).fields, None)
  {
    var fs := Named("a", v).fields;
    TwoFields(fs, Field(NAME, Text("a")), Field("v", Num(w)));
    assert fs[1..] == [Field("v", Num(v))] && fs[1..][1..] == [];
    assert NAME != "v";
    PutSame(fs, NAME, Text("a"));
    assert Put(fs[1..], "v", Num(w)) == [Field("v", Num(w))];
    assert Put(fs, "v", Num(w)) == Named("a", w).fields;
    assert Get(fs[1..], "v") == Some(Num(v)) && Get(fs, "v") == Some(Num(v));
  }

  // ---------- Which failure ----------

  /** The search passes over this element: an object with another name. */
  predicate PassedOver(x: Json, name: Json) {
    NameOf(x).Some? && NameOf(x).value != name
  }

  /** The search, exactly: it stops at the first element that is no object of another name,
      finds it if it has the name, and otherwise fails by what is wrong with it. */
  lemma {:induction false} FindNamedExactly(xs: seq<Json>, name: Json) returns (i: nat)
    ensures i <= |xs| && forall j | 0 <= j < i :: PassedOver(xs[j], name)
    ensures i == |xs| ==> FindNamed(xs, name) == Missing
    ensures i < |xs| ==>
              && !PassedOver(xs[i], name)
              && FindNamed(xs, name)
              == (if !xs[i].Obj? then Failed(NotAnObject) else if NameOf(xs[i]).None? then Failed(Unnamed) else Found(i))
  {
    i := 0;
    if xs != [] && PassedOver(xs[0], name) {
      i := FindNamedExactly(xs[1..], name);
      i := i + 1;
    }
  }

  /** Which failure the merge of one list element is, and what it leaves behind. */
  lemma ItemFailure(xs: seq<Json>, e: Json)
    ensures var r := MergeItem(xs, e);
            && (!e.Obj? ==> r == MergedItems(xs, Some(BadType)))
            && (e.Obj? && (NameOf(e).None? || !Truthy(NameOf(e).value)) ==> r == MergedItems(xs, Some(NoName)))
            && (e.Obj? && NameOf(e).Some? && Truthy(NameOf(e).value) ==>
                  var f := FindNamed(xs, NameOf(e).value);
                  && (f.Failed? ==> r == MergedItems(xs, Some(f.error)))
                  && (f.Missing? ==> r == MergedItems(xs + [e], None))
                  && (f.Found? ==>
                        var m := MergeFields(xs[f.at].fields, e.fields);
                        r == MergedItems(xs[f.at := Obj(m.fields)], m.error)))
  {
    hide MergeFields, FindNamed;
  }

  /** Which failure the merge of one field is: the kinds of value differ, or the patch has an
      empty list where there is one that is not, and neither changes anything; or it is that of a
      merge inside, which leaves behind what that merge has done. */
  lemma FieldFailure(bs: seq<Field>, k: string, v: Json)
    ensures var w, r := Get(bs, k), MergeField(bs, k, v);
            && (w.None? || w.value.Null? ==> r.error.None?)
            && (w.Some? && !w.value.Null? && (w.value.Obj? != v.Obj? || w.value.Arr? != v.Arr?) ==>
                  r == Merged(bs, Some(BadType)))
            && (w.Some? && w.value.Arr? && w.value.items != [] && v == Arr([]) ==> r == Merged(bs, Some(EmptyList)))
            && (w.Some? && w.value.Obj? && v.Obj? ==>
                  var m := MergeFields(w.value.fields, v.fields);
                  r.error == m.error && Get(r.fields, k) == Some(Obj(m.fields)))
            && (w.Some? && w.value.Arr? && w.value.items != [] && v.Arr? && v.items != [] && v.items[0].Obj? ==>
                  var m := MergeItems(w.value.items, v.items);
                  r.error == m.error && Get(r.fields, k) == Some(Arr(m.items)))
  {
    hide MergeFields, MergeItems, Put;
    forall u { GetPut(bs, k, u, k); }
  }

  // ---------- What keeps its value ----------

  datatype Step = Key(key: string) | Index(index: nat)

  /** The value at a path. */
  function Lookup(j: Json, path: seq<Step>): Option<Json>
    decreases path
  {
    if path == [] then Some(j)
    else
      match path[0]
      case Key(k) => if j.Obj? && Get(j.fields, k).Some? then Lookup(Get(j.fields, k).value, path[1..]) else None
      case Index(i) => if j.Arr? && i < |j.items| then Lookup(j.items[i], path[1..]) else None
  }

  /** A name that stays itself when an object of that name is merged into another one: any
      string, number or truth value does, and a list or dictionary does unless merging it into
      itself succeeds and changes it. */
  predicate NameKeeps(name: Json) {
    var r := MergeField([Field(NAME, name)], NAME, name);
    r.error.Some? || r.fields == [Field(NAME, name)]
  }

  /** No object of the list that has the name of the list element `x` mentions what is at
      `path` in it. */
  predicate ItemUntouched(x: Json, es: seq<Json>, path: seq<Step>)
    decreases path, 1
  {
    forall l | 0 <= l < |es| && NameOf(x).Some? && NameOf(es[l]) == NameOf(x) ::
      NameKeeps(NameOf(x).value) && Untouched(x, es[l], path)
  }

  /** The patch `v` does not mention the place at `path` in `b`: following the path, the patch
      comes to a dictionary without the key, or to a list of objects of which none has the
      element's name. Several objects may have it if each of them leaves the place alone. */
  predicate Untouched(b: Json, v: Json, path: seq<Step>)
    decreases path, 0
  {
    path != []
    && match path[0]
       case Key(k) =>
         && b.Obj? && v.Obj? && DistinctKeys(v.fields)
         && (Get(v.fields, k).None?
             || (Get(b.fields, k).Some? && Untouched(Get(b.fields, k).value, Get(v.fields, k).value, path[1..])))
       case Index(i) =>
         && b.Arr? && v.Arr? && i < |b.items| && v.items != [] && v.items[0].Obj?
         && ItemUntouched(b.items[i], v.items, path[1..])
  }

  lemma {:induction false} NotMentioned(ps: seq<Field>, k: string)
    requires Get(ps, k).None?
    ensures !Mentions(ps, k)
  {
    if ps != [] {
      NotMentioned(ps[1..], k);
      forall i | 0 <= i < |ps| ensures ps[i].key != k {
        if i > 0 { assert ps[i] == ps[1..][i - 1]; }
      }
    }
  }

  /** Merging a field does to its key what merging it alone does. */
  lemma FieldAlone(os: seq<Field>, k: string, v: Json, w: Json)
    requires Get(os, k) == Some(w)
    ensures var r, a := MergeField(os, k, v), MergeField([Field(k, w)], k, v);
            r.error == a.error && (r.error.None? ==> Get(r.fields, k) == Get(a.fields, k))
  {
    hide MergeFields, MergeItems;
    forall u { GetPut(os, k, u, k); }
    forall u { GetPut([Field(k, w)], k, u, k); }
    assert Get([Field(k, w)], k) == Some(w);
  }

  lemma PlainKeeps(name: Json)
    requires !name.Obj? && !name.Arr?
    ensures NameKeeps(name)
  {
    assert Get([Field(NAME, name)], NAME) == Some(name) && Put([Field(NAME, name)], NAME, name) == [Field(NAME, name)];
  }

  /** A name that keeps, merged into itself, stays. */
  lemma {:induction false} NameStays(os: seq<Field>, ps: seq<Field>, name: Json)
    requires NameKeeps(name) && Get(os, NAME) == Some(name) && MergeFields(os, ps).error.None?
    requires forall i | 0 <= i < |ps| && ps[i].key == NAME :: ps[i].value == name
    ensures Get(MergeFields(os, ps).fields, NAME) == Some(name)
    decreases ps
  {
    hide MergeField;
    if ps != [] {
      var r := MergeField(os, ps[0].key, ps[0].value);
      if ps[0].key == NAME {
        FieldAlone(os, NAME, name, name);
        assert Get([Field(NAME, name)], NAME) == Some(name);
      } else {
        FieldKeeps(os, ps[0].key, ps[0].value, NAME);
      }
      NameStays(r.fields, ps[1..], name);
    }
  }

  lemma OnlyName(fs: seq<Field>)
    requires DistinctKeys(fs) && Get(fs, NAME).Some?
    ensures forall i | 0 <= i < |fs| && fs[i].key == NAME :: Some(fs[i].value) == Get(fs, NAME)
  {
    forall i | 0 <= i < |fs| && fs[i].key == NAME ensures Some(fs[i].value) == Get(fs, NAME) {
      GetAt(fs, i);
    }
  }

  /** A merge that gave `b'` for `b` has left the place at `path` alone: its value is the same,
      and unless the merge has failed, what does not mention the place in `b` does not mention
      it in `b'` either. */
  ghost predicate Kept(b: Json, b': Json, path: seq<Step>, error: Option<Error>) {
    && Lookup(b', path) == Lookup(b, path)
    && (error.None? ==> forall v | Untouched(b, v, path) :: Untouched(b', v, path))
  }

  lemma KeptTwice(a: Json, b: Json, c: Json, path: seq<Step>, error: Option<Error>)
    requires Kept(a, b, path, None) && Kept(b, c, path, error)
    ensures Kept(a, c, path, error)
  {
    hide Untouched, Lookup;
  }

  /** Only the value of its key matters for a place in a dictionary. */
  lemma KeptField(bs: seq<Field>, bs': seq<Field>, path: seq<Step>, error: Option<Error>)
    requires path != [] && path[0].Key?
    requires var (w, w') := (Get(bs, path[0].key), Get(bs', path[0].key));
             w' == w || (w.Some? && w'.Some? && Kept(w.value, w'.value, path[1..], error))
    ensures Kept(Obj(bs), Obj(bs'), path, error)
  {
    hide Get, DistinctKeys, ItemUntouched;
    var k := path[0].key;
    if error.None? {
      forall v | Untouched(Obj(bs), v, path) ensures Untouched(Obj(bs'), v, path) {
        if Get(v.fields, k).Some? && Get(bs', k) != Get(bs, k) {
          assert Untouched(Get(bs, k).value, Get(v.fields, k).value, path[1..]);
        }
      }
    }
  }

  /** Only the element at its index matters for a place in a list. */
  lemma KeptItem(xs: seq<Json>, xs': seq<Json>, path: seq<Step>, error: Option<Error>)
    requires path != [] && path[0].Index? && path[0].index < |xs| && path[0].index < |xs'|
    requires var (x, x') := (xs[path[0].index], xs'[path[0].index]);
             Kept(x, x', path[1..], error) && (error.None? ==> NameOf(x') == NameOf(x))
    ensures Kept(Arr(xs), Arr(xs'), path, error)
  {
    hide NameOf, NameKeeps, DistinctKeys, ItemUntouched;
    var i := path[0].index;
    if error.None? {
      forall v | Untouched(Arr(xs), v, path) ensures Untouched(Arr(xs'), v, path) {
        StillUntouched(xs[i], xs'[i], v.items, path[1..]);
      }
    }
  }

  /** A merge, even one that fails halfway, leaves everything it does not mention at its place
      with its value, at every depth. */
  lemma {:induction false} FieldsFrame(bs: seq<Field>, ps: seq<Field>, path: seq<Step>)
    requires Untouched(Obj(bs), Obj(ps), path)
    ensures var r := MergeFields(bs, ps); Kept(Obj(bs), Obj(r.fields), path, r.error)
    decreases ps, 0
  {
    hide MergeField, Kept, ItemUntouched;
    var k := path[0].key;
    if Get(ps, k).None? {
      NotMentioned(ps, k);
      FieldsKeep(bs, ps, k);
      KeptField(bs, MergeFields(bs, ps).fields, path, MergeFields(bs, ps).error);
    } else {
      var r, last := MergeField(bs, ps[0].key, ps[0].value), MergeFields(bs, ps);
      if ps[0].key == k {
        FieldFrame(bs, k, ps[0].value, path);
        FieldsKeep(r.fields, ps[1..], k);
        KeptField(r.fields, MergeFields(r.fields, ps[1..]).fields, path, MergeFields(r.fields, ps[1..]).error);
      } else {
        FieldKeeps(bs, ps[0].key, ps[0].value, k);
        KeptField(bs, r.fields, path, r.error);
        if r.error.None? { FieldsFrame(r.fields, ps[1..], path); }
      }
      if r.error.None? { KeptTwice(Obj(bs), Obj(r.fields), Obj(last.fields), path, last.error); }
    }
  }

  lemma {:induction false} FieldFrame(bs: seq<Field>, k: string, v: Json, path: seq<Step>)
    requires path != [] && path[0] == Key(k) && Get(bs, k).Some? && Untouched(Get(bs, k).value, v, path[1..])
    ensures var r := MergeField(bs, k, v); Kept(Obj(bs), Obj(r.fields), path, r.error)
    decreases v, 0
  {
    hide MergeFields, MergeItems, DistinctKeys, Kept, ItemUntouched;
    forall w { GetPut(bs, k, w, k); }
    var w, rest := Get(bs, k).value, path[1..];
    if w.Obj? {
      FieldsFrame(w.fields, v.fields, rest);
    } else {
      ItemsFrame(w.items, v.items, rest);
    }
    KeptField(bs, MergeField(bs, k, v).fields, path, MergeField(bs, k, v).error);
  }

  lemma {:induction false} ItemsFrame(xs: seq<Json>, es: seq<Json>, path: seq<Step>)
    requires path != [] && path[0].Index? && path[0].index < |xs| && ItemUntouched(xs[path[0].index], es, path[1..])
    ensures var r := MergeItems(xs, es); Kept(Arr(xs), Arr(r.items), path, r.error)
    decreases es, 0
  {
    hide MergeItem, Untouched, NameOf, NameKeeps, Kept;
    if es == [] {
      KeptSelf(Arr(xs), path, None);
    } else {
      var r, last := MergeItem(xs, es[0]), MergeItems(xs, es);
      ItemFrame(xs, es[0], path);
      KeptItem(xs, r.items, path, r.error);
      if r.error.None? {
        StillUntouched(xs[path[0].index], r.items[path[0].index], es[1..], path[1..]);
        ItemsFrame(r.items, es[1..], path);
        KeptTwice(Arr(xs), Arr(r.items), Arr(last.items), path, last.error);
      }
    }
  }

  lemma KeptSelf(b: Json, path: seq<Step>, error: Option<Error>)
    ensures Kept(b, b, path, error)
  {
  }

  lemma StillUntouched(x: Json, x': Json, es: seq<Json>, path: seq<Step>)
    requires Kept(x, x', path, None) && NameOf(x') == NameOf(x) && ItemUntouched(x, es, path)
    ensures ItemUntouched(x', es, path)
  {
    hide Untouched, NameOf, NameKeeps;
  }

  lemma {:induction false} ItemFrame(xs: seq<Json>, e: Json, path: seq<Step>)
    requires path != [] && path[0].Index? && path[0].index < |xs| && ItemUntouched(xs[path[0].index], [e], path[1..])
    ensures var i, r := path[0].index, MergeItem(xs, e);
            && i < |r.items| && Kept(xs[i], r.items[i], path[1..], r.error)
            && (r.error.None? ==> NameOf(r.items[i]) == NameOf(xs[i]))
    decreases e, 0
  {
    hide MergeFields, FindNamed, Kept, NameKeeps, Get;
    var i := path[0].index;
    KeptSelf(xs[i], path[1..], MergeItem(xs, e).error);
    assert [e][0] == e;
    if e.Obj? && NameOf(e).Some? {
      match FindNamed(xs, NameOf(e).value)
      case Found(j) =>
        if j == i {
          assert NameOf(xs[i]) == NameOf(e);
          OnlyName(e.fields);
          if MergeFields(xs[i].fields, e.fields).error.None? {
            NameStays(xs[i].fields, e.fields, NameOf(e).value);
          }
          FieldsFrame(xs[i].fields, e.fields, path[1..]);
        }
      case _ =>
    }
  }

  /** Whatever the patch does not mention keeps its value, whether or not the merge succeeds. */
  lemma MergeFrame(base: Json, patch: Json, path: seq<Step>)
    requires Untouched(base, patch, path)
    ensures Lookup(MergeObjects(base, patch).0, path) == Lookup(base, path)
  {
    hide MergeFields;
    if base.Obj? && patch.Obj? { FieldsFrame(base.fields, patch.fields, path); }
  }

  // ---------- Names that do not keep ----------

  lemma {:induction false} PutGrows(fs: seq<Field>, k: string, v: Json)
    ensures |fs| <= |Put(fs, k, v)|
  {
    if fs != [] { PutGrows(fs[1..], k, v); }
  }

  lemma {:induction false} FieldsGrow(bs: seq<Field>, ps: seq<Field>)
    ensures |bs| <= |MergeFields(bs, ps).fields|
    decreases ps
  {
    hide MergeItems, Put;
    if ps != [] {
      forall w { PutGrows(bs, ps[0].key, w); }
      FieldsGrow(MergeField(bs, ps[0].key, ps[0].value).fields, ps[1..]);
    }
  }

  /** What a name becomes when an object of that name is merged. */
  function Renamed(name: Json): Json {
    var fs := MergeField([Field(NAME, name)], NAME, name).fields;
    if fs != [] then fs[0].value else Null
  }

  lemma RenamedIs(name: Json)
    requires !NameKeeps(name) && Truthy(name)
    ensures MergeField([Field(NAME, name)], NAME, name) == Merged([Field(NAME, Renamed(name))], None)
    ensures Renamed(name) != name && Truthy(Renamed(name))
  {
    hide MergeFields, MergeItems;
    if !name.Obj? && !name.Arr? { PlainKeeps(name); }
    assert Get([Field(NAME, name)], NAME) == Some(name);
    forall w ensures Put([Field(NAME, name)], NAME, w) == [Field(NAME, w)] { }
    if name.Obj? { FieldsGrow(name.fields, name.fields); } else { ItemsGrow(name.items, name.items); }
  }

  /** The condition on names is needed: an element whose name does not keep gets another name
      when an object of its name is merged into it, and is then reached by an object of that
      other name, which `path` in the element did not seem to be mentioned by. */
  lemma RenamedItemIsReached(name: Json)
    requires Truthy(name) && !NameKeeps(name)
    ensures var x := Obj([Field(NAME, name), Field("v", Num(1))]);
            var es := [Obj([Field(NAME, name)]), Obj([Field("v", Num(2)), Field(NAME, Renamed(name))])];
            var path := [Key("v")];
            && (forall l | 0 <= l < |es| && NameOf(es[l]) == NameOf(x) :: Untouched(x, es[l], path))
            && Lookup(Arr([x]), [Index(0)] + path) == Some(Num(1))
            && Lookup(Arr(MergeItems([x], es).items), [Index(0)] + path) == Some(Num(2))
  {
    hide MergeFields, MergeField, MergeItems, NameKeeps;
    var fs := [Field(NAME, name), Field("v", Num(1))];
    var d, e := Obj([Field(NAME, name)]), Obj([Field("v", Num(2)), Field(NAME, Renamed(name))]);
    assert NAME != "v";
    RenamedIs(name);
    NamesAre(name, Renamed(name));
    FieldAlone(fs, NAME, name, name);
    FieldKeeps(fs, NAME, name, "v");
    OneField(fs, Field(NAME, name));
    assert FindNamed([Obj(fs)], name) == Found(0);
    var os := MergeField(fs, NAME, name).fields;
    assert MergeItem([Obj(fs)], d) == MergedItems([Obj(os)], None);
    assert FindNamed([Obj(os)], Renamed(name)) == Found(0);
    SetsV(os, Renamed(name));
    var ps := [Field("v", Num(2)), Field(NAME, Renamed(name))];
    assert MergeItem([Obj(os)], e).items == [Obj(MergeFields(os, ps).fields)];
    TwoItems([Obj(fs)], d, e);
  }

  /** Such a name: a dictionary with a list that names an object twice. */
  lemma NameThatChanges()
    ensures var name := Obj([Field("l", Arr([Named("a", 1), Named("a", 2)]))]);
            Truthy(name) && !NameKeeps(name)
  {
    hide MergeFields;
    RepeatedNameChangesAgain();
    var name := Obj([Field("l", Arr([Named("a", 1), Named("a", 2)]))]);
    var other := Obj([Field("l", Arr([Named("a", 2), Named("a", 2)]))]);
    assert Get([Field(NAME, name)], NAME) == Some(name);
    GetPut([Field(NAME, name)], NAME, other, NAME);
    TwoLists();
  }

  lemma TwoLists()
    ensures Obj([Field("l", Arr([Named("a", 2), Named("a", 2)]))]) != Obj([Field("l", Arr([Named("a", 1), Named("a", 2)]))])
  {
    var xs, ys := [Named("a", 2), Named("a", 2)], [Named("a", 1), Named("a", 2)];
    assert xs[0].fields[1] != ys[0].fields[1];
    assert [Field("l", Arr(xs))][0] != [Field("l", Arr(ys))][0];
  }

  lemma NamesAre(name: Json, name': Json)
    ensures var fs, ps := [Field(NAME, name), Field("v", Num(1))], [Field("v", Num(2)), Field(NAME, name')];
            && Get(fs, NAME) == Some(name) && Get(fs, "v") == Some(Num(1))
            && Get(ps, NAME) == Some(name') && Get(ps, "v") == Some(Num(2))
            && Get([Field(NAME, name)], NAME) == Some(name) && Get([Field(NAME, name)], "v") == None
  {
    assert NAME != "v";
    var fs, ps := [Field(NAME, name), Field("v", Num(1))], [Field("v", Num(2)), Field(NAME, name')];
    assert fs[1..] == [Field("v", Num(1))] && ps[1..] == [Field(NAME, name')];
    assert [Field(NAME, name)][1..] == [];
  }

  lemma SetsV(os: seq<Field>, name: Json)
    requires Get(os, "v") == Some(Num(1))
    ensures var ps := [Field("v", Num(2)), Field(NAME, name)];
            Get(MergeFields(os, ps).fields, "v") == Some(Num(2))
  {
    hide MergeFields, MergeItems;
    assert NAME != "v";
    GetPut(os, "v", Num(2), "v");
    TwoFields(os, Field("v", Num(2)), Field(NAME, name));
    FieldKeeps(MergeField(os, "v", Num(2)).fields, NAME, name, "v");
  }

  // ---------- The loops ----------

  function Later(i: nat, r: Search): Search {
    match r
    case Found(k) => Found(i + k)
    case _ => r
  }

  method GetNamedObject(l: seq<Json>, name: Json) returns (r: Search)
    ensures r == FindNamed(l, name)
  {
    assert l[0..] == l;
    for i := 0 to |l|
      invariant FindNamed(l, name) == Later(i, FindNamed(l[i..], name))
    {
      var o := l[i];
      if !o.Obj? { return Failed(NotAnObject); }
      var n := Get(o.fields, NAME);
      if n.None? { return Failed(Unnamed); }
      if n.value == name { return Found(i); }
      assert l[i..][1..] == l[i + 1..];
    }
    return Missing;
  }

  predicate SameType(a: Json, b: Json) {
    match a
    case Null => b.Null?
    case Bool(_) => b.Bool?
    case Num(_) => b.Num?
    case Text(_) => b.Text?
    case Arr(_) => b.Arr?
    case Obj(_) => b.Obj?
  }

  /** `merge_patch_object`. The dictionary `base` is changed field by field; the outcome holds
      its last state. */
  method MergePatchObject(base: Json, patch: Json) returns (r: Json, error: Option<Error>)
    ensures (r, error) == MergeObjects(base, patch)
    decreases patch, 0
  {
    hide MergeField;
    if !SameType(base, patch) { return base, Some(BadType); }
    if !base.Obj? { return base, Some(BadType); }
    var fields, ps := base.fields, patch.fields;
    assert ps[0..] == ps;
    for i := 0 to |ps|
      invariant MergeFields(base.fields, ps) == MergeFields(fields, ps[i..])
    {
      assert ps[i..][0] == ps[i] && ps[i..][1..] == ps[i + 1..];
      fields, error := MergeOneField(fields, ps[i].key, ps[i].value);
      if error.Some? { return Obj(fields), error; }
    }
    return Obj(fields), None;
  }

  /** The body of the loop over the patch's fields. */
  method MergeOneField(bs: seq<Field>, k: string, v: Json) returns (fields: seq<Field>, error: Option<Error>)
    ensures Merged(fields, error) == MergeField(bs, k, v)
    decreases v, 1
  {
    hide MergeFields, MergeItems;
    var ov := Get(bs, k);
    fields, error := bs, None;
    if ov.Some? && ov.value != Null {
      if ov.value.Obj? {
        if !v.Obj? { return bs, Some(BadType); }
        var o;
        o, error := MergePatchObject(ov.value, v);
        fields := Put(bs, k, o);
      } else if ov.value.Arr? {
        if !v.Arr? { return bs, Some(BadType); }
        if ov.value.items == [] { return Put(bs, k, v), None; }
        if v.items == [] { return bs, Some(EmptyList); }
        if !v.items[0].Obj? { return Put(bs, k, v), None; }
        var l;
        l, error := MergeList(ov.value.items, v.items);
        fields := Put(bs, k, Arr(l));
      } else if v.Obj? || v.Arr? {
        error := Some(BadType);
      } else {
        fields := Put(bs, k, v);
      }
    } else {
      fields := Put(bs, k, v);
    }
  }

  /** The loop over the elements of a patch's list of objects. */
  method MergeList(xs: seq<Json>, es: seq<Json>) returns (l: seq<Json>, error: Option<Error>)
    ensures MergedItems(l, error) == MergeItems(xs, es)
    decreases es, 0
  {
    hide MergeFields;
    l := xs;
    assert es[0..] == es;
    for i := 0 to |es|
      invariant MergeItems(xs, es) == MergeItems(l, es[i..])
    {
      var elem := es[i];
      assert es[i..][0] == elem && es[i..][1..] == es[i + 1..];
      if !elem.Obj? { return l, Some(BadType); }
      var name := Get(elem.fields, NAME);
      if name.None? || !Truthy(name.value) { return l, Some(NoName); }
      var o := GetNamedObject(l, name.value);
      match o
      case Failed(e) => return l, Some(e);
      case Missing => l := l + [elem];
      case Found(at) =>
        var merged, err := MergePatchObject(l[at], elem);
        l := l[at := merged];
        if err.Some? { return l, err; }
    }
    error := None;
  }
}
