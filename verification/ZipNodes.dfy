/** A ziplist's entries as a sequence, and what insertion, deletion and the cascade of
    back-length fixes (src/ziplist.c:315-471) do to it. */
module ZipNodes {
  import opened Bytes
  import opened ZipEntry

  /** The entries as they follow each other in the buffer. */
  function Flat(ns: seq<Node>): (s: seq<byte>)
    requires AllOk(ns)
    ensures |s| == Size(ns)
  {
    if ns == [] then [] else EncodeNode(ns[0]) + Flat(ns[1..])
  }

  function Size(ns: seq<Node>): nat {
    if ns == [] then 0 else RawLen(ns[0]) + Size(ns[1..])
  }

  /** The size of the entry before entry `i`, or 0. */
  function PrevOf(ns: seq<Node>, i: nat): nat
    requires i <= |ns|
  {
    if i == 0 then 0 else RawLen(ns[i - 1])
  }

  predicate AllOk(ns: seq<Node>) {
    forall i | 0 <= i < |ns| :: NodeOk(ns[i])
  }

  /** Every back-length except possibly that of entry `skip` is the size of the entry before. */
  predicate ChainedBut(ns: seq<Node>, skip: int) {
    forall i | 0 <= i < |ns| && i != skip :: ns[i].prev == PrevOf(ns, i)
  }

  predicate ValidNodes(ns: seq<Node>) {
    AllOk(ns) && ChainedBut(ns, -1)
  }

  function Texts(ns: seq<Node>): (s: seq<seq<byte>>)
    requires AllOk(ns)
    ensures |s| == |ns|
  {
    if ns == [] then [] else [Text(DecodeBody(ns[0].body))] + Texts(ns[1..])
  }

  /** A sequence with `x` put at place `i`. */
  function Inserted<T>(s: seq<T>, i: nat, x: T): seq<T>
    requires i <= |s|
  {
    s[..i] + [x] + s[i..]
  }

  /** A sequence without the places from `i` up to `j`. */
  function Cut<T>(s: seq<T>, i: nat, j: nat): seq<T>
    requires i <= j <= |s|
  {
    s[..i] + s[j..]
  }

  // ---------- The operations ----------

  /** `__zipListCascadeUpdate` from entry `i`: widen the next back-length while the size no
      longer fits its one byte; a wide one is kept wide. */
  function Cascade(ns: seq<Node>, i: nat): (r: seq<Node>)
    requires i < |ns|
    ensures |r| == |ns|
    decreases |ns| - i
  {
    if i + 1 == |ns| then ns
    else
      var raw, next := RawLen(ns[i]), ns[i + 1];
      if next.prev == raw then ns
      else if !next.wide && raw >= BIG_LEN then Cascade(ns[i + 1 := Node(true, raw, next.body)], i + 1)
      else ns[i + 1 := next.(prev := raw)]
  }

  /** A back-length written at its least size. */
  function WithPrev(n: Node, prev: nat): Node {
    Node(prev >= BIG_LEN, prev, n.body)
  }

  /** `zipPrevLenByteDiff`. */
  function ByteDiff(n: Node, len: nat): int {
    PrevSizeFor(len) - (if n.wide then 5 else 1)
  }

  /** The back-length of an entry put at place `i`. */
  function PrevAt(ns: seq<Node>, i: nat): nat
    requires i <= |ns|
  {
    if i < |ns| then ns[i].prev else PrevOf(ns, i)
  }

  function NewNode(ns: seq<Node>, i: nat, body: seq<byte>): Node
    requires i <= |ns|
  {
    WithPrev(Node(false, 0, body), PrevAt(ns, i))
  }

  /** The list between an insertion and its cascade. */
  function InsertDraft(ns: seq<Node>, i: nat, body: seq<byte>): seq<Node>
    requires i < |ns|
  {
    var new_ := NewNode(ns, i, body);
    ns[..i] + [new_, WithPrev(ns[i], RawLen(new_))] + ns[i + 1..]
  }

  /** `__zipListInsert`. */
  function Insert(ns: seq<Node>, i: nat, body: seq<byte>): (r: seq<Node>)
    requires i <= |ns|
    ensures |r| == |ns| + 1
  {
    var new_ := NewNode(ns, i, body);
    if i == |ns| then ns + [new_]
    else if ByteDiff(ns[i], RawLen(new_)) != 0 then Cascade(InsertDraft(ns, i, body), i + 1)
    else InsertDraft(ns, i, body)
  }

  /** The entry after the last of `num` deleted ones from `i` on. */
  function DeleteEnd(ns: seq<Node>, i: nat, num: nat): (j: nat)
    requires i < |ns|
    ensures i <= j <= |ns|
  {
    if i + num < |ns| then i + num else |ns|
  }

  /** The list between a deletion of entries `i` to `j` and its cascade. */
  function DeleteDraft(ns: seq<Node>, i: nat, j: nat): seq<Node>
    requires i < j < |ns|
  {
    ns[..i] + [WithPrev(ns[j], ns[i].prev)] + ns[j + 1..]
  }

  /** `__zipListDelete`. */
  function Delete(ns: seq<Node>, i: nat, num: nat): seq<Node>
    requires i < |ns|
  {
    var j := DeleteEnd(ns, i, num);
    if j == i then ns
    else if j == |ns| then ns[..i]
    else if ByteDiff(ns[j], ns[i].prev) != 0 then Cascade(DeleteDraft(ns, i, j), i)
    else DeleteDraft(ns, i, j)
  }

  // ---------- Sequences of entries ----------

  lemma {:induction false} SizeConcat(a: seq<Node>, b: seq<Node>)
    ensures Size(a + b) == Size(a) + Size(b)
  {
    if a == [] {
      assert a + b == b;
    } else {
      assert (a + b)[1..] == a[1..] + b;
      SizeConcat(a[1..], b);
    }
  }

  lemma {:induction false} FlatConcat(a: seq<Node>, b: seq<Node>)
    requires AllOk(a) && AllOk(b)
    ensures AllOk(a + b) && Flat(a + b) == Flat(a) + Flat(b)
  {
    assert AllOk(a + b);
    if a == [] {
      assert a + b == b;
    } else {
      assert (a + b)[1..] == a[1..] + b;
      FlatConcat(a[1..], b);
    }
  }

  lemma {:induction false} TextsConcat(a: seq<Node>, b: seq<Node>)
    requires AllOk(a) && AllOk(b)
    ensures AllOk(a + b) && Texts(a + b) == Texts(a) + Texts(b)
  {
    hide BodyOk, DecodeBody, Text;
    assert AllOk(a + b);
    if a == [] {
      assert a + b == b;
    } else {
      assert (a + b)[1..] == a[1..] + b;
      TextsConcat(a[1..], b);
    }
  }

  lemma {:induction false} TextsAt(ns: seq<Node>, i: nat)
    requires AllOk(ns) && i < |ns|
    ensures Texts(ns)[i] == Text(DecodeBody(ns[i].body))
  {
    hide BodyOk, DecodeBody, Text;
    if i > 0 { TextsAt(ns[1..], i - 1); }
  }

  /** The texts before and from entry `i` on. */
  lemma TextsSplit(ns: seq<Node>, i: nat)
    requires AllOk(ns) && i <= |ns|
    ensures AllOk(ns[..i]) && AllOk(ns[i..])
    ensures Texts(ns[..i]) == Texts(ns)[..i] && Texts(ns[i..]) == Texts(ns)[i..]
  {
    hide Texts, BodyOk;
    assert ns == ns[..i] + ns[i..];
    TextsConcat(ns[..i], ns[i..]);
  }

  lemma TextsOne(n: Node)
    requires NodeOk(n)
    ensures AllOk([n]) && Texts([n]) == [Text(DecodeBody(n.body))]
  {
    hide BodyOk, DecodeBody, Text;
    assert [n][1..] == [];
  }

  /** Where entry `i` starts. */
  function Offset(ns: seq<Node>, i: nat): nat
    requires i <= |ns|
  {
    Size(ns[..i])
  }

  lemma OffsetNext(ns: seq<Node>, i: nat)
    requires i < |ns|
    ensures Offset(ns, i + 1) == Offset(ns, i) + RawLen(ns[i])
    ensures Offset(ns, i + 1) + Size(ns[i + 1..]) == Size(ns)
    ensures Offset(ns, i) + Size(ns[i..]) == Size(ns)
  {
    assert ns[..i + 1] == ns[..i] + [ns[i]] && Size([ns[i]]) == RawLen(ns[i]) + Size([]);
    SizeConcat(ns[..i], [ns[i]]);
    assert ns == ns[..i + 1] + ns[i + 1..] && ns == ns[..i] + ns[i..];
    SizeConcat(ns[..i + 1], ns[i + 1..]);
    SizeConcat(ns[..i], ns[i..]);
  }

  lemma RawLenBound(ns: seq<Node>, i: nat)
    requires i < |ns|
    ensures RawLen(ns[i]) <= Size(ns)
  {
    OffsetNext(ns, i);
  }

  /** Two lists of entries with the same bytes before the end marker are the same list: a
      buffer parses one way only. */
  lemma {:induction false} ParseUnique(ns: seq<Node>, ms: seq<Node>)
    requires AllOk(ns) && AllOk(ms) && Flat(ns) + [ZIP_END] == Flat(ms) + [ZIP_END]
    ensures ns == ms
  {
    hide EncodeNode, NodeOk, Size;
    if ns != [] {
      var end := [ZIP_END];
      assert Flat(ns) + end == EncodeNode(ns[0]) + (Flat(ns[1..]) + end);
      EntryRead(ns[0], Flat(ns[1..]) + end);
      assert ms != [];
      assert Flat(ms) + end == EncodeNode(ms[0]) + (Flat(ms[1..]) + end);
      SameBytesSameNode(ns[0], ms[0], Flat(ns[1..]) + end, Flat(ms[1..]) + end);
      ParseUnique(ns[1..], ms[1..]);
      assert ns == [ns[0]] + ns[1..] && ms == [ms[0]] + ms[1..];
    }
  }

  // ---------- The cascade ----------

  lemma {:induction false} SizeUpdate(ns: seq<Node>, i: nat, n: Node)
    requires i < |ns|
    ensures Size(ns[i := n]) == Size(ns) - RawLen(ns[i]) + RawLen(n)
  {
    if i == 0 {
      assert ns[0 := n][1..] == ns[1..];
    } else {
      assert ns[i := n][1..] == ns[1..][i - 1 := n];
      SizeUpdate(ns[1..], i - 1, n);
    }
  }

  predicate SameBodies(ns: seq<Node>, ms: seq<Node>) {
    |ns| == |ms| && forall i | 0 <= i < |ns| :: ns[i].body == ms[i].body
  }

  lemma {:induction false} CascadeGrows(ns: seq<Node>, i: nat)
    requires i < |ns|
    ensures Size(Cascade(ns, i)) >= Size(ns)
    decreases |ns| - i
  {
    if i + 1 < |ns| {
      var raw, next := RawLen(ns[i]), ns[i + 1];
      SizeUpdate(ns, i + 1, Node(true, raw, next.body));
      SizeUpdate(ns, i + 1, next.(prev := raw));
      if next.prev != raw && !next.wide && raw >= BIG_LEN {
        CascadeGrows(ns[i + 1 := Node(true, raw, next.body)], i + 1);
      }
    }
  }

  /** Writing the right back-length of the next entry leaves at most the one after it wrong,
      and not even that when the entry's size is the same. */
  lemma FixNext(ns: seq<Node>, i: nat, wide: bool)
    requires i + 1 < |ns| && AllOk(ns) && ChainedBut(ns, i + 1)
    requires RawLen(ns[i]) <= UINT32_MAX && (!wide ==> RawLen(ns[i]) < BIG_LEN)
    ensures var ms := ns[i + 1 := Node(wide, RawLen(ns[i]), ns[i + 1].body)];
            && AllOk(ms) && SameBodies(ns, ms) && ms[..i + 1] == ns[..i + 1]
            && ChainedBut(ms, i + 2) && (wide == ns[i + 1].wide ==> ChainedBut(ms, -1))
  {
    hide BodyOk, Texts, DecodeBody, Text;
  }

  /** Cascade correctness: from a list valid except for the back-length after entry `i`, the
      cascade gives a list with every back-length right, the same payloads, and the entries
      up to `i` as they were. */
  lemma {:induction false} CascadeOk(ns: seq<Node>, i: nat)
    requires i < |ns| && AllOk(ns) && ChainedBut(ns, i + 1)
    requires Size(Cascade(ns, i)) <= UINT32_MAX
    ensures var r := Cascade(ns, i);
            ValidNodes(r) && SameBodies(ns, r) && r[..i + 1] == ns[..i + 1]
    decreases |ns| - i
  {
    hide AllOk, ChainedBut, RawLen, Size;
    CascadeGrows(ns, i);
    RawLenBound(ns, i);
    if i + 1 == |ns| || ns[i + 1].prev == RawLen(ns[i]) {
      AllRight(ns, i + 1);
    } else {
      var next := ns[i + 1];
      if !next.wide && RawLen(ns[i]) >= BIG_LEN {
        FixNext(ns, i, true);
        var ms := ns[i + 1 := Node(true, RawLen(ns[i]), next.body)];
        CascadeOk(ms, i + 1);
        assert Cascade(ns, i)[..i + 1] == Cascade(ms, i + 1)[..i + 2][..i + 1];
        assert ms[..i + 2][..i + 1] == ns[..i + 1];
      } else {
        FixNext(ns, i, next.wide);
      }
    }
  }

  lemma AllRight(ns: seq<Node>, i: nat)
    requires ChainedBut(ns, i) && (i < |ns| ==> ns[i].prev == PrevOf(ns, i))
    ensures ChainedBut(ns, -1)
  {
    hide RawLen;
  }

  /** No back-length is made narrow, and one is widened only when the size before it needs
      five bytes. */
  lemma {:induction false} CascadeWidths(ns: seq<Node>, i: nat, k: nat)
    requires i < |ns| && k < |ns|
    ensures var r := Cascade(ns, i);
            && (r[k].wide <==> ns[k].wide || (r[k] != ns[k] && r[k].prev >= BIG_LEN))
            && (k <= i ==> r[k] == ns[k])
    decreases |ns| - i
  {
    if i + 1 < |ns| {
      var raw, next := RawLen(ns[i]), ns[i + 1];
      if next.prev != raw && !next.wide && raw >= BIG_LEN {
        CascadeWidths(ns[i + 1 := Node(true, raw, next.body)], i + 1, k);
      }
    }
  }

  // ---------- Insertion and deletion on the sequence of payloads ----------

  lemma {:induction false} SameBodiesSameTexts(ns: seq<Node>, ms: seq<Node>)
    requires AllOk(ns) && AllOk(ms) && SameBodies(ns, ms)
    ensures Texts(ns) == Texts(ms)
  {
    hide BodyOk, DecodeBody, Text;
    if ns != [] { SameBodiesSameTexts(ns[1..], ms[1..]); }
  }

  /** Before the cascade an insertion is wrong at most in the back-length after the entry it
      pushed along, and right there too when that entry's size did not change. */
  lemma InsertDraftOk(ns: seq<Node>, i: nat, body: seq<byte>)
    requires ValidNodes(ns) && i < |ns| && BodyOk(body) && RawLen(NewNode(ns, i, body)) <= UINT32_MAX
    ensures var r := InsertDraft(ns, i, body);
            && AllOk(r) && ChainedBut(r, i + 2)
            && (ByteDiff(ns[i], RawLen(NewNode(ns, i, body))) == 0 ==> ChainedBut(r, -1))
  {
    hide BodyOk, ChainedBut, RawLen;
    var n, r := NewNode(ns, i, body), InsertDraft(ns, i, body);
    assert r == ns[..i] + [n, WithPrev(ns[i], RawLen(n))] + ns[i + 1..];
    ValidAt(ns, i);
    if i + 1 < |ns| { ValidAt(ns, i + 1); }
    AroundOk(ns, i, i + 1, [n, WithPrev(ns[i], RawLen(n))]);
    if ByteDiff(ns[i], RawLen(n)) == 0 {
      SameWidthSameSize(ns[i], WithPrev(ns[i], RawLen(n)));
      AllRight(r, i + 2);
    }
  }

  lemma ValidAt(ns: seq<Node>, i: nat)
    requires ValidNodes(ns) && i < |ns|
    ensures NodeOk(ns[i]) && ns[i].prev == PrevOf(ns, i)
  {
    hide NodeOk;
  }

  lemma SameWidthSameSize(n: Node, m: Node)
    requires n.wide == m.wide && n.body == m.body
    ensures RawLen(n) == RawLen(m)
  {
  }

  /** Entries `mid` in place of those from `i` up to `j`: when they follow on the entry before
      and on each other, only the back-length after them can be wrong. */
  lemma AroundOk(ns: seq<Node>, i: nat, j: nat, mid: seq<Node>)
    requires ValidNodes(ns) && i <= j <= |ns| && AllOk(mid) && mid != []
    requires mid[0].prev == PrevOf(ns, i) && forall k | 0 < k < |mid| :: mid[k].prev == PrevOf(mid, k)
    ensures var r := ns[..i] + mid + ns[j..];
            AllOk(r) && ChainedBut(r, i + |mid|)
  {
    hide NodeOk, RawLen;
    var r := ns[..i] + mid + ns[j..];
    var move := j - i - |mid|;
    forall k | 0 <= k < |r| && k != i + |mid| ensures r[k].prev == PrevOf(r, k) {
      if k > i + |mid| {
        assert r[k] == ns[k + move] && r[k - 1] == ns[k - 1 + move];
      } else if k > i {
        assert r[k] == mid[k - i] && r[k - 1] == mid[k - i - 1];
      }
    }
  }

  lemma InsertedParts<T>(s: seq<T>, i: nat, x: T, a: seq<T>, y: T, b: seq<T>)
    requires i < |s| && s[..i] == a && s[i..] == [y] + b
    ensures Inserted(s, i, x) == a + [x] + [y] + b
  {
  }

  lemma InsertedLast<T>(s: seq<T>, x: T)
    ensures Inserted(s, |s|, x) == s + [x]
  {
  }

  lemma CutParts<T>(s: seq<T>, i: nat, j: nat, a: seq<T>, y: T, b: seq<T>)
    requires i <= j < |s| && s[..i] == a && s[j..] == [y] + b
    ensures Cut(s, i, j) == a + [y] + b
  {
  }

  lemma CutEnds<T>(s: seq<T>, i: nat)
    requires i <= |s|
    ensures Cut(s, i, i) == s && Cut(s, i, |s|) == s[..i]
  {
  }

  /** The texts from entry `i` on, taken apart. */
  lemma TextsFrom(ns: seq<Node>, i: nat)
    requires AllOk(ns) && i < |ns|
    ensures Texts(ns)[i..] == [Text(DecodeBody(ns[i].body))] + Texts(ns[i + 1..])
  {
    hide BodyOk, DecodeBody, Text;
    TextsSplit(ns, i);
    assert ns[i..][0] == ns[i] && ns[i..][1..] == ns[i + 1..];
  }

  lemma NodeBody(n: Node)
    requires NodeOk(n)
    ensures BodyOk(n.body)
  {
  }

  /** The texts after putting `n` in and writing entry `i` anew as `m`. */
  lemma InsertTexts(ns: seq<Node>, i: nat, n: Node, m: Node)
    requires AllOk(ns) && i < |ns| && NodeOk(n) && NodeOk(m) && NodeOk(ns[i]) && m.body == ns[i].body
    requires AllOk(ns[..i] + [n] + [m] + ns[i + 1..])
    ensures Texts(ns[..i] + [n] + [m] + ns[i + 1..]) == Inserted(Texts(ns), i, Text(DecodeBody(n.body)))
  {
    hide *;
    NodeBody(n);
    NodeBody(m);
    TextsSplit(ns, i);
    TextsSplit(ns, i + 1);
    TextsFrom(ns, i);
    DraftTexts(ns[..i], n, m, ns[i + 1..]);
    InsertedParts(Texts(ns), i, Text(DecodeBody(n.body)), Texts(ns[..i]), Text(DecodeBody(m.body)), Texts(ns[i + 1..]));
  }

  lemma DraftTexts(a: seq<Node>, n: Node, m: Node, b: seq<Node>)
    requires AllOk(a) && NodeOk(n) && NodeOk(m) && AllOk(b)
    ensures AllOk(a + [n] + [m] + b)
    ensures Texts(a + [n] + [m] + b) == Texts(a) + [Text(DecodeBody(n.body))] + [Text(DecodeBody(m.body))] + Texts(b)
  {
    hide BodyOk, Texts, DecodeBody, Text, NodeOk;
    TextsOne(n);
    TextsOne(m);
    TextsConcat(a, [n]);
    TextsConcat(a + [n], [m]);
    TextsConcat(a + [n] + [m], b);
  }

  lemma AppendTexts(ns: seq<Node>, n: Node)
    requires AllOk(ns) && NodeOk(n) && AllOk(ns + [n])
    ensures Texts(ns + [n]) == Inserted(Texts(ns), |ns|, Text(DecodeBody(n.body)))
  {
    hide *;
    NodeBody(n);
    TextsOne(n);
    TextsConcat(ns, [n]);
    InsertedLast(Texts(ns), Text(DecodeBody(n.body)));
  }

  /** The list between an insertion and its cascade, in parts. */
  lemma InsertDraftIs(ns: seq<Node>, i: nat, body: seq<byte>)
    requires i < |ns|
    ensures var n := NewNode(ns, i, body);
            var m := WithPrev(ns[i], RawLen(n));
            && InsertDraft(ns, i, body) == ns[..i] + [n] + [m] + ns[i + 1..]
            && n.body == body && m.body == ns[i].body
            && InsertDraft(ns, i, body)[i] == n && InsertDraft(ns, i, body)[i + 1] == m
  {
  }

  /** Insertion refines insertion into a sequence. */
  lemma InsertOk(ns: seq<Node>, i: nat, body: seq<byte>)
    requires ValidNodes(ns) && i <= |ns| && BodyOk(body)
    requires Size(Insert(ns, i, body)) <= UINT32_MAX
    ensures var r := Insert(ns, i, body);
            ValidNodes(r) && Texts(r) == Inserted(Texts(ns), i, Text(DecodeBody(body)))
  {
    hide *;
    InsertIs(ns, i, body);
    if i == |ns| {
      AppendNode(ns, body);
      AppendBody(ns, body);
    } else {
      InsertSizes(ns, i, body);
      InsertDraftOk(ns, i, body);
      InsertedDraft(ns, i, body);
      if ByteDiff(ns[i], RawLen(NewNode(ns, i, body))) != 0 {
        CascadeOk(InsertDraft(ns, i, body), i + 1);
        ValidIsOk(Cascade(InsertDraft(ns, i, body), i + 1));
        SameBodiesSameTexts(InsertDraft(ns, i, body), Cascade(InsertDraft(ns, i, body), i + 1));
      }
    }
  }

  lemma InsertIs(ns: seq<Node>, i: nat, body: seq<byte>)
    requires ValidNodes(ns) && i <= |ns|
    ensures AllOk(ns)
    ensures Insert(ns, i, body) ==
              if i == |ns| then ns + [NewNode(ns, i, body)]
              else if ByteDiff(ns[i], RawLen(NewNode(ns, i, body))) != 0 then Cascade(InsertDraft(ns, i, body), i + 1)
              else InsertDraft(ns, i, body)
    ensures i < |ns| && AllOk(InsertDraft(ns, i, body)) && ChainedBut(InsertDraft(ns, i, body), -1) ==>
              ValidNodes(InsertDraft(ns, i, body))
  {
    hide ByteDiff, RawLen, NewNode, Cascade;
  }

  lemma ValidIsOk(ns: seq<Node>)
    requires ValidNodes(ns)
    ensures AllOk(ns)
  {
  }

  lemma InsertedDraft(ns: seq<Node>, i: nat, body: seq<byte>)
    requires AllOk(ns) && i < |ns| && BodyOk(body) && AllOk(InsertDraft(ns, i, body))
    ensures Texts(InsertDraft(ns, i, body)) == Inserted(Texts(ns), i, Text(DecodeBody(body)))
  {
    hide Texts, DecodeBody, Text, Inserted, NodeOk, NewNode, RawLen, WithPrev, InsertDraft;
    InsertDraftIs(ns, i, body);
    InsertTexts(ns, i, NewNode(ns, i, body), WithPrev(ns[i], RawLen(NewNode(ns, i, body))));
  }

  lemma AppendBody(ns: seq<Node>, body: seq<byte>)
    requires ValidNodes(ns) && BodyOk(body) && ValidNodes(ns + [NewNode(ns, |ns|, body)])
    ensures Texts(ns + [NewNode(ns, |ns|, body)]) == Inserted(Texts(ns), |ns|, Text(DecodeBody(body)))
  {
    hide Texts, DecodeBody, Text, Inserted, NodeOk, RawLen;
    var n := NewNode(ns, |ns|, body);
    assert (ns + [n])[|ns|] == n;
    AppendTexts(ns, n);
  }

  lemma AppendNode(ns: seq<Node>, body: seq<byte>)
    requires ValidNodes(ns) && BodyOk(body) && Size(ns + [NewNode(ns, |ns|, body)]) <= UINT32_MAX
    ensures ValidNodes(ns + [NewNode(ns, |ns|, body)])
  {
    hide BodyOk, Size, RawLen;
    var n := NewNode(ns, |ns|, body);
    RawLenBound(ns + [n], |ns|);
    if ns != [] {
      RawLenBound(ns + [n], |ns| - 1);
      assert (ns + [n])[|ns| - 1] == ns[|ns| - 1];
    }
    assert NodeOk(n) && n.prev == PrevOf(ns, |ns|);
    AppendValid(ns, n);
  }

  lemma AppendValid(ns: seq<Node>, n: Node)
    requires ValidNodes(ns) && NodeOk(n) && n.prev == PrevOf(ns, |ns|)
    ensures ValidNodes(ns + [n])
  {
    hide NodeOk, RawLen;
    var r := ns + [n];
    forall k | 0 <= k < |r| ensures NodeOk(r[k]) && r[k].prev == PrevOf(r, k) {
      if k < |ns| { assert r[k] == ns[k] && (k > 0 ==> r[k - 1] == ns[k - 1]); }
    }
  }

  /** The size of the list between its insertion and the cascade. */
  lemma InsertSizes(ns: seq<Node>, i: nat, body: seq<byte>)
    requires i < |ns|
    ensures var new_, r := NewNode(ns, i, body), InsertDraft(ns, i, body);
            && Size(r) == Size(ns) + RawLen(new_) + ByteDiff(ns[i], RawLen(new_))
            && Size(r) <= Size(Insert(ns, i, body))
            && RawLen(new_) <= Size(r)
  {
    hide Cascade, NewNode, Size;
    var new_, r := NewNode(ns, i, body), InsertDraft(ns, i, body);
    var two := [new_, WithPrev(ns[i], RawLen(new_))];
    SizeOfTwo(new_, WithPrev(ns[i], RawLen(new_)));
    SizeConcat(ns[..i] + two, ns[i + 1..]);
    SizeConcat(ns[..i], two);
    OffsetNext(ns, i);
    CascadeGrows(r, i + 1);
    RawLenBound(r, i);
  }

  lemma SizeOfTwo(a: Node, b: Node)
    ensures Size([a, b]) == RawLen(a) + RawLen(b)
  {
    assert [a, b][1..] == [b] && [b][1..] == [];
    assert Size([b]) == RawLen(b) + Size([]);
  }

  lemma DeleteDraftOk(ns: seq<Node>, i: nat, j: nat)
    requires ValidNodes(ns) && i < j < |ns|
    ensures var r := DeleteDraft(ns, i, j);
            && AllOk(r) && ChainedBut(r, i + 1)
            && (ByteDiff(ns[j], ns[i].prev) == 0 ==> ChainedBut(r, -1))
  {
    hide BodyOk, ChainedBut, RawLen;
    var n, r := WithPrev(ns[j], ns[i].prev), DeleteDraft(ns, i, j);
    assert r == ns[..i] + [n] + ns[j + 1..];
    ValidAt(ns, i);
    ValidAt(ns, j);
    if j + 1 < |ns| { ValidAt(ns, j + 1); }
    AroundOk(ns, i, j + 1, [n]);
    if ByteDiff(ns[j], ns[i].prev) == 0 {
      SameWidthSameSize(ns[j], n);
      AllRight(r, i + 1);
    }
  }

  lemma CutTexts(ns: seq<Node>, i: nat, j: nat, m: Node)
    requires AllOk(ns) && i < j < |ns| && NodeOk(m) && NodeOk(ns[j]) && m.body == ns[j].body
    requires AllOk(ns[..i] + [m] + ns[j + 1..])
    ensures Texts(ns[..i] + [m] + ns[j + 1..]) == Cut(Texts(ns), i, j)
  {
    hide *;
    NodeBody(m);
    TextsSplit(ns, i);
    TextsSplit(ns, j + 1);
    TextsFrom(ns, j);
    TextsOne(m);
    TextsConcat(ns[..i], [m]);
    TextsConcat(ns[..i] + [m], ns[j + 1..]);
    CutParts(Texts(ns), i, j, Texts(ns[..i]), Text(DecodeBody(m.body)), Texts(ns[j + 1..]));
  }

  lemma DeleteIs(ns: seq<Node>, i: nat, num: nat)
    requires ValidNodes(ns) && i < |ns|
    ensures AllOk(ns) && ValidNodes(ns[..i]) && DeleteEnd(ns, i, num) == if i + num < |ns| then i + num else |ns|
    ensures var j := DeleteEnd(ns, i, num);
            Delete(ns, i, num) ==
              if j == i then ns
              else if j == |ns| then ns[..i]
              else if ByteDiff(ns[j], ns[i].prev) != 0 then Cascade(DeleteDraft(ns, i, j), i)
              else DeleteDraft(ns, i, j)
    ensures var j := DeleteEnd(ns, i, num);
            i < j < |ns| ==>
              && DeleteDraft(ns, i, j)[i] == WithPrev(ns[j], ns[i].prev)
              && (AllOk(DeleteDraft(ns, i, j)) && ChainedBut(DeleteDraft(ns, i, j), -1) ==> ValidNodes(DeleteDraft(ns, i, j)))
  {
    hide ByteDiff, RawLen, Cascade, BodyOk;
  }

  /** Deletion refines removal of a range. */
  lemma DeleteOk(ns: seq<Node>, i: nat, num: nat)
    requires ValidNodes(ns) && i < |ns| && Size(Delete(ns, i, num)) <= UINT32_MAX
    ensures var r := Delete(ns, i, num);
            ValidNodes(r) && Texts(r) == Cut(Texts(ns), i, if i + num < |ns| then i + num else |ns|)
  {
    DeleteIs(ns, i, num);
    hide *;
    var j := if i + num < |ns| then i + num else |ns|;
    CutEnds(Texts(ns), i);
    if j == |ns| {
      TextsSplit(ns, i);
    } else if j > i {
      DeleteDraftOk(ns, i, j);
      DeletedDraft(ns, i, j);
      if ByteDiff(ns[j], ns[i].prev) != 0 {
        CascadeOk(DeleteDraft(ns, i, j), i);
        ValidIsOk(Cascade(DeleteDraft(ns, i, j), i));
        SameBodiesSameTexts(DeleteDraft(ns, i, j), Cascade(DeleteDraft(ns, i, j), i));
      }
    }
  }

  lemma DeletedDraft(ns: seq<Node>, i: nat, j: nat)
    requires AllOk(ns) && i < j < |ns| && AllOk(DeleteDraft(ns, i, j))
    ensures Texts(DeleteDraft(ns, i, j)) == Cut(Texts(ns), i, j)
  {
    hide Texts, DecodeBody, Text, NodeOk, Cut;
    assert DeleteDraft(ns, i, j)[i] == WithPrev(ns[j], ns[i].prev);
    CutTexts(ns, i, j, WithPrev(ns[j], ns[i].prev));
  }

  /** When deletion makes the next back-length wider, the deleted entries are longer than the
      four bytes it steps back over: it never steps before the first of them. */
  lemma StepBackStaysInside(ns: seq<Node>, i: nat, j: nat)
    requires ValidNodes(ns) && i < j < |ns|
    ensures Offset(ns, j) - ByteDiff(ns[j], ns[i].prev) >= Offset(ns, i)
    ensures Offset(ns, j) - Offset(ns, i) >= RawLen(ns[i])
  {
    hide Size;
    OffsetNext(ns, i);
    assert ns[..j] == ns[..i + 1] + ns[i + 1..j];
    SizeConcat(ns[..i + 1], ns[i + 1..j]);
    assert NodeOk(ns[i]) && NodeOk(ns[j]);
  }

  // ---------- The payloads as they are kept ----------

  function Bodies(ns: seq<Node>): (s: seq<seq<byte>>)
    ensures |s| == |ns|
  {
    seq(|ns|, i requires 0 <= i < |ns| => ns[i].body)
  }

  /** What the entries hold, strings and integers told apart. */
  function Values(ns: seq<Node>): (s: seq<Value>)
    requires AllOk(ns)
    ensures |s| == |ns|
  {
    seq(|ns|, i requires 0 <= i < |ns| => DecodeBody(ns[i].body))
  }

  lemma {:induction false} CascadeBodies(ns: seq<Node>, i: nat)
    requires i < |ns|
    ensures Bodies(Cascade(ns, i)) == Bodies(ns)
    decreases |ns| - i
  {
    hide RawLen;
    if i + 1 < |ns| {
      var raw, next := RawLen(ns[i]), ns[i + 1];
      assert Bodies(ns[i + 1 := Node(true, raw, next.body)]) == Bodies(ns);
      assert Bodies(ns[i + 1 := next.(prev := raw)]) == Bodies(ns);
      if next.prev != raw && !next.wide && raw >= BIG_LEN {
        CascadeBodies(ns[i + 1 := Node(true, raw, next.body)], i + 1);
      }
    }
  }

  /** Insertion puts the payload at its place as it is, and leaves the others as they are. */
  lemma InsertBodies(ns: seq<Node>, i: nat, body: seq<byte>)
    requires i <= |ns|
    ensures Bodies(Insert(ns, i, body)) == Inserted(Bodies(ns), i, body)
  {
    hide Cascade, RawLen;
    if i < |ns| {
      assert Bodies(InsertDraft(ns, i, body)) == Inserted(Bodies(ns), i, body);
      CascadeBodies(InsertDraft(ns, i, body), i + 1);
    }
  }

  /** Deletion takes out `num` payloads from place `i` on, or all there are, and leaves the
      others as they are. */
  lemma DeleteBodies(ns: seq<Node>, i: nat, num: nat)
    requires i < |ns|
    ensures Bodies(Delete(ns, i, num)) == Cut(Bodies(ns), i, if i + num < |ns| then i + num else |ns|)
  {
    hide Cascade, RawLen;
    var j := DeleteEnd(ns, i, num);
    if i < j < |ns| {
      assert Bodies(DeleteDraft(ns, i, j)) == Cut(Bodies(ns), i, j);
      CascadeBodies(DeleteDraft(ns, i, j), i);
    }
  }

  lemma SameBodiesSameValues(ns: seq<Node>, bs: seq<seq<byte>>)
    requires AllOk(ns) && Bodies(ns) == bs
    ensures forall i | 0 <= i < |ns| :: BodyOk(bs[i]) && Values(ns)[i] == DecodeBody(bs[i])
  {
    hide BodyOk, DecodeBody;
    forall i | 0 <= i < |ns| ensures BodyOk(bs[i]) && Values(ns)[i] == DecodeBody(bs[i]) {
      assert NodeOk(ns[i]) && bs[i] == ns[i].body;
    }
  }

  lemma InsertValues(ns: seq<Node>, i: nat, body: seq<byte>)
    requires AllOk(ns) && i <= |ns| && BodyOk(body) && AllOk(Insert(ns, i, body))
    ensures Values(Insert(ns, i, body)) == Inserted(Values(ns), i, DecodeBody(body))
  {
    hide BodyOk, DecodeBody, Insert, AllOk, Values;
    InsertBodies(ns, i, body);
    SameBodiesSameValues(ns, Bodies(ns));
    SameBodiesSameValues(Insert(ns, i, body), Inserted(Bodies(ns), i, body));
  }

  lemma DeleteValues(ns: seq<Node>, i: nat, num: nat)
    requires AllOk(ns) && i < |ns| && AllOk(Delete(ns, i, num))
    ensures Values(Delete(ns, i, num)) == Cut(Values(ns), i, if i + num < |ns| then i + num else |ns|)
  {
    hide BodyOk, DecodeBody, Delete, AllOk, Values;
    DeleteBodies(ns, i, num);
    SameBodiesSameValues(ns, Bodies(ns));
    SameBodiesSameValues(Delete(ns, i, num), Bodies(Delete(ns, i, num)));
  }

  // ---------- The widths of the back-lengths ----------

  /** An entry's back-length takes five bytes just when it needs them. */
  predicate Tight(n: Node) {
    n.wide <==> n.prev >= BIG_LEN
  }

  /** `m` is the entry `n`, its back-length written anew and widened only when it has to be. */
  predicate Adjusted(n: Node, m: Node) {
    m.body == n.body && (m.wide <==> n.wide || (m != n && m.prev >= BIG_LEN))
  }

  /** After an insertion the back-lengths of the new entry and of the one behind it have their
      least sizes, and every other one has the size it had unless the cascade has widened it. */
  lemma InsertWidths(ns: seq<Node>, i: nat, body: seq<byte>, k: nat)
    requires i <= |ns| && k <= |ns|
    ensures var r := Insert(ns, i, body);
            && (k < i ==> r[k] == ns[k])
            && (k == i || k == i + 1 ==> Tight(r[k]))
            && (k > i + 1 ==> Adjusted(ns[k - 1], r[k]))
  {
    hide Cascade, RawLen, Size;
    if i < |ns| {
      var r := InsertDraft(ns, i, body);
      assert |r| == |ns| + 1;
      CascadeWidths(r, i + 1, k);
      CascadeBodies(r, i + 1);
      assert Bodies(Cascade(r, i + 1))[k] == Bodies(r)[k];
    }
  }

  /** After a deletion the same holds of the entry behind the deleted ones. */
  lemma DeleteWidths(ns: seq<Node>, i: nat, num: nat, k: nat)
    requires i < |ns| && num > 0 && k < |Delete(ns, i, num)|
    ensures var r := Delete(ns, i, num);
            && (k < i ==> r[k] == ns[k])
            && (k == i ==> Tight(r[k]))
            && (k > i ==> k + num < |ns| && Adjusted(ns[k + num], r[k]))
  {
    hide Cascade, RawLen, Size;
    var j := DeleteEnd(ns, i, num);
    if j < |ns| {
      var r := DeleteDraft(ns, i, j);
      CascadeWidths(r, i, k);
      CascadeBodies(r, i);
      assert Bodies(Cascade(r, i))[k] == Bodies(r)[k];
    }
  }
}
