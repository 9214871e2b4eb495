/** A ziplist's data: its entries in a row behind the header, cut into the pieces that
    insertion, deletion and the cascade (src/ziplist.c:315-471) move or write. */
module ZipData {
  import opened Bytes
  import opened Sequences
  import opened Memory
  import opened ZipEntry
  import opened ZipNodes
  import opened ZipBuffer

  const UINT16_MAX: nat := 0xffff

  /** The offset of the last entry among the entries, or 0 if there is none. */
  function TailOff(ns: seq<Node>): nat {
    if ns == [] then 0 else Offset(ns, |ns| - 1)
  }

  /** The part of a buffer behind its header: something before, entries, the end marker. */
  function Data(pre: seq<byte>, ns: seq<Node>): seq<byte>
    requires AllOk(ns)
  {
    pre + Flat(ns) + [ZIP_END]
  }

  // ---------- Finding an entry in the data ----------

  lemma AllOkParts(ns: seq<Node>, i: nat)
    requires AllOk(ns) && i <= |ns|
    ensures AllOk(ns[..i]) && AllOk(ns[i..])
  {
  }

  /** The data from entry `i` on. */
  lemma DataAt(pre: seq<byte>, ns: seq<Node>, i: nat)
    requires AllOk(ns) && i <= |ns|
    ensures AllOk(ns[i..])
    ensures |Data(pre, ns)| == |pre| + Size(ns) + 1 && |pre| + Offset(ns, i) < |Data(pre, ns)|
    ensures Data(pre, ns)[|pre| + Offset(ns, i)..] == Flat(ns[i..]) + [ZIP_END]
  {
    hide *;
    DataSplit(pre, ns, i);
    DropFront(pre, Flat(ns[..i]), Flat(ns[i..]) + [ZIP_END]);
  }

  /** The data cut at entry `i`. */
  lemma DataSplit(pre: seq<byte>, ns: seq<Node>, i: nat)
    requires AllOk(ns) && i <= |ns|
    ensures AllOk(ns[..i]) && AllOk(ns[i..])
    ensures Flat(ns) == Flat(ns[..i]) + Flat(ns[i..]) && |Flat(ns[..i])| == Offset(ns, i)
    ensures Data(pre, ns) == pre + Flat(ns[..i]) + (Flat(ns[i..]) + [ZIP_END])
    ensures |Data(pre, ns)| == |pre| + Size(ns) + 1 && Offset(ns, i) <= Size(ns)
  {
    hide Flat, Size, NodeOk;
    AllOkParts(ns, i);
    assert ns == ns[..i] + ns[i..];
    FlatConcat(ns[..i], ns[i..]);
    SizeConcat(ns[..i], ns[i..]);
    GroupPairs(pre, Flat(ns[..i]), Flat(ns[i..]), [ZIP_END]);
  }

  lemma DropFront<T>(a: seq<T>, b: seq<T>, c: seq<T>)
    ensures (a + b + c)[|a| + |b|..] == c
  {
  }

  /** The first byte of the data from entry `i` on is the end marker just when no entry is
      left; otherwise the entry's fields can be read there. */
  lemma ReadAt(pre: seq<byte>, ns: seq<Node>, i: nat)
    requires AllOk(ns) && i <= |ns|
    ensures |pre| + Offset(ns, i) < |Data(pre, ns)|
    ensures var s := Data(pre, ns)[|pre| + Offset(ns, i)..];
            && (s[0] == ZIP_END <==> i == |ns|)
            && (i < |ns| ==>
                  && PrevLenSize(s) == (if ns[i].wide then 5 else 1)
                  && |s| > PrevLenSize(s) && |s| - PrevLenSize(s) >= LenSize(s[PrevLenSize(s)])
                  && PrevLen(s) == ns[i].prev && RawEntryLength(s) == RawLen(ns[i])
                  && s == EncodeNode(ns[i]) + (Flat(ns[i + 1..]) + [ZIP_END]))
  {
    DataAt(pre, ns, i);
    if i < |ns| {
      AllOkParts(ns, i + 1);
      assert ns[i..] == [ns[i]] + ns[i + 1..] && ns[i..][1..] == ns[i + 1..];
      assert Flat(ns[i..]) + [ZIP_END] == EncodeNode(ns[i]) + (Flat(ns[i + 1..]) + [ZIP_END]);
      hide Flat, PrevLenSize, PrevLen, RawEntryLength, Data;
      EntryRead(ns[i], Flat(ns[i + 1..]) + [ZIP_END]);
    } else {
      assert ns[i..] == [];
    }
  }

  /** The same with the place of the entry after it. */
  lemma EntryBytes(pre: seq<byte>, ns: seq<Node>, i: nat)
    requires AllOk(ns) && i < |ns|
    ensures |pre| + Offset(ns, i) < |Data(pre, ns)|
    ensures var at, d := |pre| + Offset(ns, i), Data(pre, ns);
            var s := d[at..];
            && |s| > PrevLenSize(s) && |s| - PrevLenSize(s) >= LenSize(s[PrevLenSize(s)])
            && PrevLenSize(s) == (if ns[i].wide then 5 else 1) && PrevLen(s) == ns[i].prev
            && RawEntryLength(s) == RawLen(ns[i])
            && at + RawLen(ns[i]) == |pre| + Offset(ns, i + 1) < |d|
            && (d[at + RawLen(ns[i])] == ZIP_END <==> i + 1 == |ns|)
  {
    hide Data, AllOk, PrevLenSize, PrevLen, RawEntryLength, LenSize, RawLen, Size, Flat, EncodeNode, Offset;
    ReadAt(pre, ns, i);
    ReadAt(pre, ns, i + 1);
    OffsetNext(ns, i);
    assert Data(pre, ns)[|pre| + Offset(ns, i + 1)..][0] == Data(pre, ns)[|pre| + Offset(ns, i + 1)];
  }

  // ---------- The buffer in pieces around an entry ----------

  /** A whole buffer cut around the back-length of entry `k`. */
  lemma DataPieces(h: seq<byte>, pre: seq<byte>, ns: seq<Node>, k: nat)
    requires AllOk(ns) && k < |ns|
    ensures AllOk(ns[..k]) && AllOk(ns[k + 1..])
    ensures h + Data(pre, ns)
         == Pieces(h + pre + Flat(ns[..k]), PrevField(ns[k]), ns[k].body + Flat(ns[k + 1..]))
    ensures |h + pre + Flat(ns[..k])| == |h| + |pre| + Offset(ns, k)
  {
    hide *;
    DataSplit(pre, ns, k);
    AllOkParts(ns, k + 1);
    FlatFrom(ns, k);
    PiecesIs(h + pre + Flat(ns[..k]), PrevField(ns[k]), ns[k].body + Flat(ns[k + 1..]));
    JoinPieces(h, pre, Flat(ns[..k]), PrevField(ns[k]), ns[k].body, Flat(ns[k + 1..]), [ZIP_END]);
  }

  lemma FlatFrom(ns: seq<Node>, k: nat)
    requires AllOk(ns) && k < |ns|
    ensures AllOk(ns[k..]) && AllOk(ns[k + 1..])
    ensures Flat(ns[k..]) == PrevField(ns[k]) + ns[k].body + Flat(ns[k + 1..])
  {
    hide PrevField, NodeOk, RawLen;
    AllOkParts(ns, k);
    AllOkParts(ns, k + 1);
    assert ns[k..][0] == ns[k] && ns[k..][1..] == ns[k + 1..];
  }

  lemma JoinPieces<T>(h: seq<T>, pre: seq<T>, a: seq<T>, f: seq<T>, b: seq<T>, c: seq<T>, e: seq<T>)
    ensures h + (pre + a + (f + b + c + e)) == h + pre + a + (f + (b + c)) + e
  {
  }

  /** The same cut with entry `k` changed to `m`. */
  lemma PiecesChanged(h: seq<byte>, pre: seq<byte>, ns: seq<Node>, k: nat, m: Node)
    requires AllOk(ns) && k < |ns| && NodeOk(m)
    ensures AllOk(ns[k := m]) && AllOk(ns[..k]) && AllOk(ns[k + 1..])
    ensures Pieces(h + pre + Flat(ns[..k]), PrevField(m), m.body + Flat(ns[k + 1..])) == h + Data(pre, ns[k := m])
  {
    hide NodeOk, Data, Pieces, Flat, PrevField;
    var r := ns[k := m];
    assert r[..k] == ns[..k] && r[k + 1..] == ns[k + 1..];
    DataPieces(h, pre, r, k);
  }

  lemma NewTotalOfHeader(total: nat, tail: nat, len: nat, x: seq<byte>, n: nat)
    ensures NewTotal(Header(total, tail, len) + x, n) == Header(n, tail, len) + x
  {
    hide LE;
    CutHeader(LE(total, 4), LE(tail, 4), LE(len, 2), x);
  }

  lemma CutHeader(t: seq<byte>, a: seq<byte>, l: seq<byte>, x: seq<byte>)
    requires |t| == 4
    ensures (t + a + l + x)[4..] == a + l + x
  {
  }

  lemma OffsetZero(ns: seq<Node>)
    ensures Offset(ns, 0) == 0
  {
  }

  /** The list with the back-length after entry `k` set, in as many bytes as it had or needs. */
  function NextFixed(ns: seq<Node>, k: nat): (r: seq<Node>)
    requires k + 1 < |ns|
  {
    ns[k + 1 := Node(ns[k + 1].wide || RawLen(ns[k]) >= BIG_LEN, RawLen(ns[k]), ns[k + 1].body)]
  }

  /** One round of the cascade on the list: it stops at the last entry or at a back-length
      that is right, and goes on only past one that it widened. */
  lemma CascadeRound(ns: seq<Node>, k: nat)
    requires k < |ns|
    ensures k + 1 == |ns| || ns[k + 1].prev == RawLen(ns[k]) ==> Cascade(ns, k) == ns
    ensures k + 1 < |ns| && ns[k + 1].prev != RawLen(ns[k]) ==>
              var r := NextFixed(ns, k);
              && |r| == |ns| && Offset(r, k + 1) == Offset(ns, k + 1)
              && Cascade(ns, k) == if !ns[k + 1].wide && RawLen(ns[k]) >= BIG_LEN then Cascade(r, k + 1) else r
  {
    hide Size;
    if k + 1 < |ns| { assert NextFixed(ns, k)[..k + 1] == ns[..k + 1]; }
  }

  /** What the round writes, and that the result still has a 32-bit size. */
  lemma NextFixedFacts(ns: seq<Node>, k: nat, p: nat)
    requires k + 1 < |ns| && AllOk(ns) && ns[k + 1].prev != RawLen(ns[k])
    requires p + Size(Cascade(ns, k)) + 1 <= UINT32_MAX
    ensures var raw, next, r := RawLen(ns[k]), ns[k + 1], NextFixed(ns, k);
            var m := r[k + 1];
            && p + Size(ns) + 1 <= UINT32_MAX && raw <= UINT32_MAX
            && AllOk(r) && r == ns[k + 1 := m] && NodeOk(m) && m.body == next.body
            && m == Node(next.wide || raw >= BIG_LEN, raw, next.body)
            && (next.wide ==> PrevField(m) == EncodePrevLarge(raw))
            && (!next.wide && raw < BIG_LEN ==> PrevField(m) == EncodePrev(raw))
            && (next.wide && raw >= BIG_LEN ==> EncodePrev(raw) == EncodePrevLarge(raw))
            && (!next.wide && raw >= BIG_LEN ==> p + Size(ns) + 5 <= UINT32_MAX)
            && TailOff(ns) <= Size(ns) && (TailOff(ns) == Offset(ns, k + 1) <==> k + 2 == |ns|)
            && TailOff(r) == TailOff(ns) + if k + 2 == |ns| || next.wide || raw < BIG_LEN then 0 else 4
  {
    hide BodyOk, Offset, Size, TailOff;
    CascadeGrows(ns, k);
    RawLenBound(ns, k);
    var raw, next, r := RawLen(ns[k]), ns[k + 1], NextFixed(ns, k);
    var m := r[k + 1];
    assert NodeOk(next);
    TailCases(ns, k + 1, m);
    if !next.wide && raw >= BIG_LEN {
      SizeUpdate(ns, k + 1, m);
      CascadeGrows(r, k + 1);
    }
  }

  lemma OffsetLess(ns: seq<Node>, i: nat, j: nat)
    requires i <= j <= |ns|
    ensures Offset(ns, i) <= Offset(ns, j) && (i < j ==> Offset(ns, i) < Offset(ns, j))
  {
    assert ns[..j] == ns[..i] + ns[i..j];
    SizeConcat(ns[..i], ns[i..j]);
    if i < j { assert Size(ns[i..j]) >= RawLen(ns[i..j][0]); }
  }

  /** The tail offset after entry `j` became `m`, and when entry `j` is the tail. */
  lemma TailCases(ns: seq<Node>, j: nat, m: Node)
    requires j < |ns|
    ensures TailOff(ns) <= Size(ns) && (TailOff(ns) == Offset(ns, j) <==> j == |ns| - 1)
    ensures TailOff(ns[j := m]) == TailOff(ns) + (if j == |ns| - 1 then 0 else RawLen(m) - RawLen(ns[j]))
  {
    hide Size;
    var last := |ns| - 1;
    OffsetNext(ns, last);
    OffsetLess(ns, j, last);
    TailChanged(ns, j, m);
  }

  lemma TailChanged(ns: seq<Node>, j: nat, m: Node)
    requires j < |ns|
    ensures Offset(ns[j := m], j) == Offset(ns, j)
    ensures TailOff(ns[j := m]) == TailOff(ns) + (if j == |ns| - 1 then 0 else RawLen(m) - RawLen(ns[j]))
  {
    hide Size;
    var r, last := ns[j := m], |ns| - 1;
    assert r[..j] == ns[..j];
    if j < last {
      assert r[..last] == ns[..last][j := m];
      SizeUpdate(ns[..last], j, m);
    }
  }

  /** There is room behind a one-byte back-length for what the cascade moves. */
  lemma WidenRoom(pre: seq<byte>, ns: seq<Node>, k: nat)
    requires AllOk(ns) && k < |ns| && !ns[k].wide
    ensures |Data(pre, ns)| == |pre| + Offset(ns, k) + 1 + (|ns[k].body| + Size(ns[k + 1..])) + 1
  {
    OffsetNext(ns, k);
    DataSplit(pre, ns, k);
  }

  lemma WidenBuffer(total: nat, tail: nat, len: nat, pre: seq<byte>, ns: seq<Node>, k: nat, raw: nat, junk: seq<byte>)
    requires AllOk(ns) && k < |ns| && !ns[k].wide && BIG_LEN <= raw <= UINT32_MAX && |junk| == 4
    requires total == HEADER_SIZE + |Data(pre, ns)|
    ensures var np := HEADER_SIZE + |pre| + Offset(ns, k);
            var b0 := Header(total, tail, len) + Data(pre, ns);
            && np + 2 <= total
            && AllOk(ns[k := Node(true, raw, ns[k].body)])
            && Put(Moved(Resized(b0, total + 4, junk), np + 5, np + 1, total - np - 2), np, EncodePrev(raw))
               == Header(total + 4, tail, len) + Data(pre, ns[k := Node(true, raw, ns[k].body)])
  {
    hide *;
    WidenRoom(pre, ns, k);
    var m := Node(true, raw, ns[k].body);
    WidenedField(ns, k, raw);
    var h, h' := Header(total, tail, len), Header(total + 4, tail, len);
    DataPieces(h, pre, ns, k);
    PiecesChanged(h', pre, ns, k, m);
    FrontTotal(total, tail, len, pre, Flat(ns[..k]), total + 4);
    Widened(h + pre + Flat(ns[..k]), PrevField(ns[k]), ns[k].body + Flat(ns[k + 1..]), PrevField(m), junk);
  }

  lemma WidenedField(ns: seq<Node>, k: nat, raw: nat)
    requires AllOk(ns) && k < |ns| && !ns[k].wide && BIG_LEN <= raw <= UINT32_MAX
    ensures var m := Node(true, raw, ns[k].body);
            NodeOk(ns[k]) && NodeOk(m) && EncodePrev(raw) == PrevField(m) && |PrevField(m)| == 5 && |PrevField(ns[k])| == 1
  {
  }

  lemma FrontTotal(total: nat, tail: nat, len: nat, pre: seq<byte>, a: seq<byte>, n: nat)
    ensures NewTotal(Header(total, tail, len) + pre + a, n) == Header(n, tail, len) + pre + a
  {
    hide Header, NewTotal;
    NewTotalOfHeader(total, tail, len, pre + a, n);
    assert Header(total, tail, len) + pre + a == Header(total, tail, len) + (pre + a);
    assert Header(n, tail, len) + pre + a == Header(n, tail, len) + (pre + a);
  }

  lemma RewriteBuffer(total: nat, tail: nat, len: nat, pre: seq<byte>, ns: seq<Node>, k: nat, m: Node)
    requires AllOk(ns) && k < |ns| && NodeOk(m) && m.body == ns[k].body && m.wide == ns[k].wide
    ensures var b0 := Header(total, tail, len) + Data(pre, ns);
            var at := HEADER_SIZE + |pre| + Offset(ns, k);
            && at + |PrevField(m)| <= |b0| && AllOk(ns[k := m])
            && Put(b0, at, PrevField(m)) == Header(total, tail, len) + Data(pre, ns[k := m])
  {
    hide Data, Put, Header, Flat, Size, NodeOk;
    var h := Header(total, tail, len);
    DataPieces(h, pre, ns, k);
    PiecesChanged(h, pre, ns, k, m);
    var front, rest := h + pre + Flat(ns[..k]), ns[k].body + Flat(ns[k + 1..]);
    PutSlices(front, PrevField(ns[k]), rest + [ZIP_END], PrevField(m));
    PiecesEnd(front, PrevField(ns[k]), rest);
    PiecesEnd(front, PrevField(m), rest);
  }

  // ---------- Insertion ----------

  /** The entries from `i` on when the entry before them has `req` bytes. */
  function Following(ns: seq<Node>, i: nat, req: nat): (r: seq<Node>)
    requires i < |ns|
    ensures r != []
  {
    [WithPrev(ns[i], req)] + ns[i + 1..]
  }

  lemma FollowingOk(ns: seq<Node>, i: nat, req: nat)
    requires AllOk(ns) && i < |ns| && req <= UINT32_MAX
    ensures AllOk(ns[..i]) && AllOk(ns[i + 1..]) && AllOk(Following(ns, i, req))
    ensures NodeOk(ns[i]) && NodeOk(Following(ns, i, req)[0])
    ensures var m := Following(ns, i, req)[0];
            && m.body == ns[i].body && PrevField(m) == EncodePrev(req)
            && |EncodePrev(req)| - |PrevField(ns[i])| == ByteDiff(ns[i], req)
    ensures Following(ns, i, req)[..0] == [] && Following(ns, i, req)[1..] == ns[i + 1..]
  {
    hide BodyOk;
  }

  lemma WidthInside(ns: seq<Node>, i: nat)
    requires AllOk(ns) && i < |ns|
    ensures NodeOk(ns[i]) && Offset(ns, i) + (if ns[i].wide then 5 else 1) <= Size(ns)
  {
    hide Size, BodyOk;
    OffsetNext(ns, i);
    RawLenBound(ns[i..], 0);
  }

  lemma OpenBuffer(total: nat, tail: nat, len: nat, ns: seq<Node>, i: nat, req: nat, junk: seq<byte>)
      returns (gap: seq<byte>)
    requires AllOk(ns) && i < |ns| && req <= UINT32_MAX && total == HEADER_SIZE + |Data([], ns)|
    requires MoveSafe(ns, i, req) && |junk| == GrowBy(ns, i, req)
    ensures |gap| == req && AllOk(ns[..i]) && AllOk(Following(ns, i, req))
    ensures var p, diff, b0 := HEADER_SIZE + Offset(ns, i), ByteDiff(ns[i], req), Header(total, tail, len) + Data([], ns);
            && 0 <= p - diff && 0 <= total - p - 1 + diff && p - diff + (total - p - 1 + diff) <= total + req + diff
            && p + req + |EncodePrev(req)| <= total + req + diff && total + req + diff > HEADER_SIZE
            && Put(Moved(Resized(b0, total + req + diff, junk), p + req, p - diff, total - p - 1 + diff), p + req, EncodePrev(req))
               == Header(total + req + diff, tail, len) + Data(Flat(ns[..i]) + gap, Following(ns, i, req))
  {
    hide *;
    FollowingOk(ns, i, req);
    SafeIsKept(ns, i, req);
    var n := total + req + ByteDiff(ns[i], req);
    var h, a, f, b := Header(total, tail, len), Flat(ns[..i]), PrevField(ns[i]), ns[i].body + Flat(ns[i + 1..]);
    EncodePrevLengths(ns[i], req);
    DataPieces(h, [], ns, i);
    FrontTotal(total, tail, len, [], a, n);
    gap := OpenedAt(h + [] + a, f, b, EncodePrev(req), req, junk, h + Data([], ns));
    OpenResult(Header(n, tail, len), ns, i, req, gap);
  }

  lemma OpenedAt(front: seq<byte>, f: seq<byte>, b: seq<byte>, g: seq<byte>, req: nat, junk: seq<byte>, b0: seq<byte>)
      returns (gap: seq<byte>)
    requires |front| >= HEADER_SIZE && (|f| == 1 || |f| == 5) && (|g| == 1 || |g| == 5)
    requires Kept(req + |g| - |f|, b) && |junk| == (if req + |g| - |f| > 0 then req + |g| - |f| else 0)
    requires b0 == Pieces(front, f, b)
    ensures |gap| == req
    ensures var p, diff, total := |front|, |g| - |f|, |b0|;
            && 0 <= p - diff && 0 <= total - p - 1 + diff && p - diff + (total - p - 1 + diff) <= total + req + diff
            && p + req + |g| <= total + req + diff && total + req + diff > HEADER_SIZE
            && Put(Moved(Resized(b0, total + req + diff, junk), p + req, p - diff, total - p - 1 + diff), p + req, g)
               == Pieces(NewTotal(front, total + req + diff) + gap, g, b)
  {
    hide Put, Moved, Resized, Pieces, NewTotal;
    gap := Opened(front, f, b, g, req, junk);
  }

  lemma OpenResult(h: seq<byte>, ns: seq<Node>, i: nat, req: nat, gap: seq<byte>)
    requires AllOk(ns) && i < |ns| && req <= UINT32_MAX
    ensures AllOk(ns[..i]) && AllOk(ns[i + 1..]) && AllOk(Following(ns, i, req))
    ensures Pieces(h + [] + Flat(ns[..i]) + gap, EncodePrev(req), ns[i].body + Flat(ns[i + 1..]))
         == h + Data(Flat(ns[..i]) + gap, Following(ns, i, req))
  {
    hide *;
    FollowingOk(ns, i, req);
    FollowingData(h, Flat(ns[..i]) + gap, ns, i, req);
    JoinFront(h, Flat(ns[..i]), gap);
  }

  lemma FollowingData(h: seq<byte>, pre: seq<byte>, ns: seq<Node>, i: nat, req: nat)
    requires AllOk(ns) && i < |ns| && req <= UINT32_MAX
    ensures AllOk(ns[i + 1..]) && AllOk(Following(ns, i, req))
    ensures Pieces(h + pre, EncodePrev(req), ns[i].body + Flat(ns[i + 1..])) == h + Data(pre, Following(ns, i, req))
  {
    hide *;
    FollowingOk(ns, i, req);
    FlatNone();
    DataPieces(h, pre, Following(ns, i, req), 0);
    assert h + pre + [] == h + pre;
  }

  lemma EncodePrevLengths(n: Node, req: nat)
    requires NodeOk(n)
    ensures |EncodePrev(req)| == 1 || |EncodePrev(req)| == 5
    ensures |PrevField(n)| == 1 || |PrevField(n)| == 5
  {
  }

  lemma FlatNone()
    ensures AllOk([]) && Flat([]) == []
  {
  }

  lemma JoinFront<T>(h: seq<T>, a: seq<T>, gap: seq<T>)
    ensures h + [] + a + gap == h + (a + gap)
  {
  }

  lemma OpenEndBuffer(total: nat, tail: nat, len: nat, ns: seq<Node>, req: nat, junk: seq<byte>)
      returns (gap: seq<byte>)
    requires AllOk(ns) && |junk| == req > 0 && total == HEADER_SIZE + |Data([], ns)|
    ensures |gap| == req
    ensures Resized(Header(total, tail, len) + Data([], ns), total + req, junk)
         == Header(total + req, tail, len) + Data(Flat(ns) + gap, [])
  {
    hide Header, Resized, Flat, AllOk, NewTotal, Pieces;
    FlatNone();
    gap := [ZIP_END] + junk[..req - 1];
    var h, h', a := Header(total, tail, len), Header(total + req, tail, len), Flat(ns);
    EndPieces(h, a, ZIP_END);
    PiecesIs(h + a, [], []);
    Grown(h + a, [], [], junk);
    NewTotalOfHeader(total, tail, len, a, total + req);
    EndGap(h', a, gap, ZIP_END);
  }

  lemma EndPieces<T>(h: seq<T>, a: seq<T>, z: T)
    ensures h + ([] + a + [z]) == h + a + ([] + []) + [z]
  {
  }

  lemma EndGap<T>(h: seq<T>, a: seq<T>, gap: seq<T>, z: T)
    ensures h + a + [] + [] + gap + [z] == h + (a + gap + [] + [z])
  {
  }

  lemma FillBuffer(total: nat, tail: nat, len: nat, pre: seq<byte>, gap: seq<byte>, ms: seq<Node>, field: seq<byte>, body: seq<byte>)
    requires AllOk(ms) && |field| + |body| == |gap|
    ensures var b, at := Header(total, tail, len) + Data(pre + gap, ms), HEADER_SIZE + |pre|;
            && at + |gap| <= |b|
            && Put(Put(b, at, field), at + |field|, body) == Header(total, tail, len) + Data(pre + (field + body), ms)
  {
    hide Header, Flat, Put, AllOk;
    var h, e := Header(total, tail, len), Flat(ms) + [ZIP_END];
    var g0, g1 := gap[..|field|], gap[|field|..];
    assert h + Data(pre + gap, ms) == (h + pre) + g0 + (g1 + e);
    PutSlices(h + pre, g0, g1 + e, field);
    assert (h + pre) + field + (g1 + e) == (h + pre + field) + g1 + e;
    PutSlices(h + pre + field, g1, e, body);
    assert (h + pre + field) + body + e == h + Data(pre + (field + body), ms);
  }

  /** The last byte of the entries has the value of the end marker. */
  predicate EndsLikeMarker(ns: seq<Node>) {
    ns != [] && var b := ns[|ns| - 1].body; b != [] && b[|b| - 1] == ZIP_END
  }

  /** The move that opens `req` bytes in front of entry `i` still finds its bytes after the
      resize: the buffer does not shrink, or it loses one byte and the last one kept is an end
      marker either way. */
  predicate MoveSafe(ns: seq<Node>, i: nat, req: nat)
    requires i < |ns|
  {
    var grow := req + ByteDiff(ns[i], req);
    grow >= 0 || (grow == -1 && EndsLikeMarker(ns))
  }

  function GrowBy(ns: seq<Node>, i: nat, req: nat): nat
    requires i < |ns|
  {
    var grow := req + ByteDiff(ns[i], req);
    if grow > 0 then grow else 0
  }

  /** The corner in which the source shrinks the buffer before it has moved the bytes: an entry
      of two bytes put in front of a five-byte back-length that it makes a one-byte one, or of
      three bytes unless the list's last byte is 255. */
  predicate InsertCorner(ns: seq<Node>, i: nat, body: seq<byte>)
    requires i <= |ns|
  {
    var req := RawLen(NewNode(ns, i, body));
    i < |ns| && ByteDiff(ns[i], req) == -4 && (req < 3 || (req == 3 && !EndsLikeMarker(ns)))
  }

  /** The bytes behind the back-length of entry `i` end with the list's last byte. */
  lemma SafeIsKept(ns: seq<Node>, i: nat, req: nat)
    requires AllOk(ns) && i < |ns| && MoveSafe(ns, i, req)
    ensures AllOk(ns[i + 1..]) && Kept(req + ByteDiff(ns[i], req), ns[i].body + Flat(ns[i + 1..]))
    ensures var grow := req + ByteDiff(ns[i], req); GrowBy(ns, i, req) == if grow > 0 then grow else 0
  {
    hide BodyOk;
    AllOkParts(ns, i + 1);
    if req + ByteDiff(ns[i], req) < 0 {
      var rest := ns[i + 1..];
      if rest != [] {
        FlatLast(rest);
        assert rest[|rest| - 1] == ns[|ns| - 1];
      } else {
        assert ns[i].body + Flat(rest) == ns[i].body;
      }
    }
  }

  lemma FlatLast(ns: seq<Node>)
    requires AllOk(ns) && ns != []
    ensures var b, s := ns[|ns| - 1].body, Flat(ns); b != [] && s != [] && s[|s| - 1] == b[|b| - 1]
  {
    hide Flat, Size;
    var k := |ns| - 1;
    AllOkParts(ns, k);
    assert ns == ns[..k] + [ns[k]];
    FlatConcat(ns[..k], [ns[k]]);
    FlatOfOne(ns[k]);
    assert NodeOk(ns[k]);
  }

  lemma NewNodeFacts(ns: seq<Node>, i: nat, body: seq<byte>)
    requires i <= |ns| && BodyOk(body) && AllOk(ns) && Size(ZipNodes.Insert(ns, i, body)) < UINT32_MAX
    ensures var n := NewNode(ns, i, body);
            && NodeOk(n) && n.body == body && n.prev == PrevAt(ns, i)
            && EncodeNode(n) == EncodePrev(PrevAt(ns, i)) + body
            && RawLen(n) == |EncodePrev(PrevAt(ns, i))| + |body| > 0
  {
    hide BodyOk, Size, Cascade;
    if i < |ns| {
      assert NodeOk(ns[i]);
    } else if i > 0 {
      SizeConcat(ns, [NewNode(ns, i, body)]);
      RawLenBound(ns, i - 1);
    }
  }

  /** Insertion in parts, and what the source computes on the way. */
  lemma InsertFacts(ns: seq<Node>, i: nat, body: seq<byte>, n: Node)
    requires AllOk(ns) && i < |ns| && BodyOk(body) && n == NewNode(ns, i, body) && NodeOk(n)
    requires HEADER_SIZE + Size(ZipNodes.Insert(ns, i, body)) + 1 <= UINT32_MAX
    ensures var req, r, diff := RawLen(n), ZipNodes.Insert(ns, i, body), ByteDiff(ns[i], RawLen(n));
            var ms := Following(ns, i, req);
            && AllOk(ms) && req <= UINT32_MAX
            && r == ns[..i] + [n] + (if diff != 0 then Cascade(ms, 0) else ms)
            && (diff != 0 ==> Offset(ns, i) + req + Size(Cascade(ms, 0)) == Size(r))
            && Size(ns) + req + diff <= Size(r)
            && Offset(ns, i) + req + TailOff(ms) == TailOff(ns) + req + (if |ms| == 1 then 0 else diff)
            && Offset(ns, i) + req + TailOff(ms) <= Size(r)
            && (MoveSafe(ns, i, req) || InsertCorner(ns, i, body))
  {
    hide Cascade, Size, Offset, TailOff, NewNode, BodyOk, NodeOk, RawLen, AllOk, InsertCorner, MoveSafe;
    CornerIs(ns, i, body);
    DraftParts(ns, i, body);
    var req, r := RawLen(n), ZipNodes.Insert(ns, i, body);
    var ms, diff := Following(ns, i, req), ByteDiff(ns[i], req);
    InsertSizes(ns, i, body);
    FollowingOk(ns, i, req);
    FollowingTail(ns, i, req);
    CascadeShift(ns[..i] + [n], ms, 0);
    PartSizes(ns[..i], n, Cascade(ms, 0));
    PartSizes(ns[..i], n, ms);
    TailCases(ms, 0, ms[0]);
    OffsetIs(ns, i);
  }

  lemma CornerIs(ns: seq<Node>, i: nat, body: seq<byte>)
    requires i < |ns|
    ensures var req := RawLen(NewNode(ns, i, body));
            InsertCorner(ns, i, body) <==> !MoveSafe(ns, i, req)
  {
  }

  lemma DraftParts(ns: seq<Node>, i: nat, body: seq<byte>)
    requires i < |ns|
    ensures var n := NewNode(ns, i, body);
            InsertDraft(ns, i, body) == ns[..i] + [n] + Following(ns, i, RawLen(n))
  {
    hide NewNode, RawLen;
  }

  lemma OffsetIs(ns: seq<Node>, i: nat)
    requires i <= |ns|
    ensures Offset(ns, i) == Size(ns[..i])
  {
  }

  lemma PartSizes(a: seq<Node>, n: Node, ms: seq<Node>)
    ensures Size(a + [n] + ms) == Size(a) + RawLen(n) + Size(ms)
  {
    hide RawLen;
    SizeConcat(a + [n], ms);
    SizeConcat(a, [n]);
    assert [n][1..] == [] && Size([n]) == RawLen(n) + Size([n][1..]);
  }

  lemma FollowingTail(ns: seq<Node>, i: nat, req: nat)
    requires i < |ns|
    ensures var ms := Following(ns, i, req);
            Offset(ns, i) + TailOff(ms) == TailOff(ns) + (if |ms| == 1 then 0 else ByteDiff(ns[i], req))
  {
    hide Size;
    var m := WithPrev(ns[i], req);
    assert Following(ns, i, req) == ns[i..][0 := m];
    TailChanged(ns[i..], 0, m);
    assert ns == ns[..i] + ns[i..];
    TailShift(ns[..i], ns[i..]);
  }

  lemma TailShift(a: seq<Node>, ms: seq<Node>)
    requires ms != []
    ensures TailOff(a + ms) == Size(a) + TailOff(ms)
  {
    hide Size;
    assert (a + ms)[..|a + ms| - 1] == a + ms[..|ms| - 1];
    SizeConcat(a, ms[..|ms| - 1]);
  }

  /** The cascade does not touch what comes before it. */
  lemma {:induction false} CascadeShift(a: seq<Node>, ms: seq<Node>, k: nat)
    requires k < |ms|
    ensures Cascade(a + ms, |a| + k) == a + Cascade(ms, k)
    decreases |ms| - k
  {
    hide RawLen;
    if k + 1 < |ms| && ms[k + 1].prev != RawLen(ms[k]) {
      var raw, next := RawLen(ms[k]), ms[k + 1];
      var m := if !next.wide && raw >= BIG_LEN then Node(true, raw, next.body) else next.(prev := raw);
      assert (a + ms)[|a| + k + 1 := m] == a + ms[k + 1 := m];
      CascadeShift(a, ms[k + 1 := m], k + 1);
    }
  }

  lemma AppendFacts(ns: seq<Node>, n: Node)
    ensures Size(ns + [n]) == Size(ns) + RawLen(n) && TailOff(ns + [n]) == Size(ns)
    ensures Offset(ns, |ns|) == Size(ns) && ns[..|ns|] == ns
  {
    hide RawLen, Size;
    SizeOfOne(n);
    SizeConcat(ns, [n]);
    assert ns[..|ns|] == ns;
    assert (ns + [n])[..|ns + [n]| - 1] == ns;
  }

  lemma SizeOfOne(n: Node)
    ensures Size([n]) == RawLen(n)
  {
    assert [n][1..] == [];
  }

  lemma DataJoin(a: seq<Node>, ms: seq<Node>)
    requires AllOk(a) && AllOk(ms)
    ensures AllOk(a + ms) && Data(Flat(a), ms) == Data([], a + ms)
  {
    hide AllOk, Flat, Size;
    FlatConcat(a, ms);
    NothingBefore(Flat(a) + Flat(ms), ZIP_END);
  }

  lemma NothingBefore<T>(s: seq<T>, z: T)
    ensures [] + s + [z] == s + [z]
  {
  }

  lemma InsertJoin(a: seq<Node>, n: Node, ms: seq<Node>)
    requires AllOk(a) && NodeOk(n) && AllOk(ms)
    ensures AllOk(a + [n] + ms) && Data(Flat(a) + EncodeNode(n), ms) == Data([], a + [n] + ms)
    ensures if ms == [] then a + [n] + ms == a + [n] else TailOff(a + [n] + ms) == Size(a) + RawLen(n) + TailOff(ms)
  {
    hide NodeOk, EncodeNode, Data, Size, TailOff, RawLen;
    FlatOfOne(n);
    FlatConcat(a, [n]);
    DataJoin(a + [n], ms);
    AppendFacts(a, n);
    if ms != [] { TailShift(a + [n], ms); }
  }

  lemma FlatOfOne(n: Node)
    requires NodeOk(n)
    ensures AllOk([n]) && Flat([n]) == EncodeNode(n)
  {
    hide EncodeNode, NodeOk;
    assert [n][1..] == [];
  }

  lemma OffsetAll(ns: seq<Node>)
    ensures Offset(ns, |ns|) == Size(ns)
  {
    assert ns[..|ns|] == ns;
  }

  // ---------- Deletion ----------

  lemma DataLength(pre: seq<byte>, ms: seq<Node>)
    requires AllOk(ms)
    ensures |Data(pre, ms)| == |pre| + Size(ms) + 1
  {
  }

  lemma PullBuffer(total: nat, tail: nat, len: nat, ns: seq<Node>, i: nat, j: nat, prev: nat) returns (pre: seq<byte>)
    requires ValidNodes(ns) && i < j < |ns| && prev == ns[i].prev
    ensures AllOk(ns[..i]) && AllOk(Following(ns, j, prev))
    ensures var b, at := Header(total, tail, len) + Data([], ns), HEADER_SIZE + Offset(ns, j) - ByteDiff(ns[j], prev);
            && at == HEADER_SIZE + |pre| && 0 <= at && at + |EncodePrev(prev)| <= |b|
            && Put(b, at, EncodePrev(prev)) == Header(total, tail, len) + Data(pre, Following(ns, j, prev))
    ensures Offset(ns, i) <= |pre| && pre[..Offset(ns, i)] == Flat(ns[..i])
  {
    hide *;
    StepBackStaysInside(ns, i, j);
    PrevIsSmall(ns, i);
    ValidIsOk(ns);
    FollowingOk(ns, j, prev);
    var h := Header(total, tail, len);
    DataPieces(h, [], ns, j);
    FlatPrefix(ns, i, j);
    pre := PullSlices(h, Flat(ns[..j]), PrevField(ns[j]), ns[j].body + Flat(ns[j + 1..]), EncodePrev(prev), Flat(ns[..i]));
    FollowingData(h, pre, ns, j, prev);
  }

  lemma PrevIsSmall(ns: seq<Node>, i: nat)
    requires ValidNodes(ns) && i < |ns|
    ensures ns[i].prev <= UINT32_MAX
  {
    assert NodeOk(ns[i]);
  }

  lemma FlatPrefix(ns: seq<Node>, i: nat, j: nat)
    requires AllOk(ns) && i <= j <= |ns|
    ensures AllOk(ns[..i]) && AllOk(ns[..j])
    ensures |Flat(ns[..i])| == Offset(ns, i) && |Flat(ns[..j])| == Offset(ns, j)
    ensures Flat(ns[..i]) <= Flat(ns[..j])
  {
    hide Flat, Size, NodeOk;
    assert ns[..j] == ns[..i] + ns[i..j];
    FlatConcat(ns[..i], ns[i..j]);
  }

  lemma PullSlices(h: seq<byte>, a: seq<byte>, f: seq<byte>, b: seq<byte>, g: seq<byte>, a': seq<byte>) returns (pre: seq<byte>)
    requires a' <= a && |a'| <= |a| + |f| - |g| && |h| >= HEADER_SIZE
    ensures |pre| == |a| + |f| - |g| && a' <= pre
    ensures Put(Pieces(h + [] + a, f, b), |h| + |pre|, g) == Pieces(h + pre, g, b)
  {
    hide Put;
    pre := (a + f)[..|a| + |f| - |g|];
    var rest := (a + f)[|a| + |f| - |g|..];
    assert a + f == pre + rest;
    assert Pieces(h + [] + a, f, b) == (h + pre) + rest + (b + [ZIP_END]);
    PutSlices(h + pre, rest, b + [ZIP_END], g);
    PiecesEnd(h + pre, g, b);
  }

  lemma CloseBuffer(total: nat, tail: nat, len: nat, pre: seq<byte>, pre': seq<byte>, ms: seq<Node>)
    requires AllOk(ms) && pre' <= pre && total == HEADER_SIZE + |Data(pre, ms)|
    ensures var p, at, b := HEADER_SIZE + |pre'|, HEADER_SIZE + |pre|, Header(total, tail, len) + Data(pre, ms);
            && at < total && p + (total - at - 1) <= |b| && at + (total - at - 1) <= |b| && total - (at - p) > HEADER_SIZE
            && Moved(b, p, at, total - at - 1)[..HEADER_SIZE] == Header(total, tail, len)
            && Resized(Moved(b, p, at, total - at - 1), total - (at - p), [])
               == Header(total - (at - p), tail, len) + Data(pre', ms)
  {
    hide Header, Moved, Resized, Flat, AllOk, NewTotal;
    var h, n := Header(total, tail, len), total - (|pre| - |pre'|);
    EndOfData(h, pre, ms);
    EndOfData(Header(n, tail, len), pre', ms);
    ClosedMove(h + pre', h + pre, Flat(ms));
    var b := Moved(h + pre + Flat(ms) + [ZIP_END], HEADER_SIZE + |pre'|, HEADER_SIZE + |pre|, |Flat(ms)|);
    PrefixOfPrefix(h, pre' + Flat(ms), b);
    ClosedResize(h + pre', Flat(ms), b);
    NewTotalOfHeader(total, tail, len, pre', n);
  }

  lemma EndOfData(h: seq<byte>, pre: seq<byte>, ms: seq<Node>)
    requires AllOk(ms)
    ensures h + Data(pre, ms) == h + pre + Flat(ms) + [ZIP_END]
  {
    hide Flat, Size, AllOk;
    InFront(h, pre, Flat(ms), [ZIP_END]);
  }

  lemma InFront<T>(h: seq<T>, a: seq<T>, b: seq<T>, c: seq<T>)
    ensures h + (a + b + c) == h + a + b + c
  {
  }

  lemma PrefixBySlice<T>(a: seq<T>, b: seq<T>, n: nat)
    requires n == |a| <= |b| && b[..n] == a
    ensures a <= b
  {
  }

  /** Deletion in parts, and what the source computes on the way. */
  lemma DeleteFacts(ns: seq<Node>, i: nat, j: nat)
    requires ValidNodes(ns) && i < j < |ns|
    requires HEADER_SIZE + Size(ZipNodes.Delete(ns, i, j - i)) + 1 <= UINT32_MAX
    ensures var prev, r, diff := ns[i].prev, ZipNodes.Delete(ns, i, j - i), ByteDiff(ns[j], ns[i].prev);
            var ms := Following(ns, j, prev);
            && AllOk(ms) && AllOk(ns[..i])
            && r == ns[..i] + (if diff != 0 then Cascade(ms, 0) else ms)
            && (diff != 0 ==> Offset(ns, i) + Size(Cascade(ms, 0)) == Size(r))
            && Offset(ns, i) < Offset(ns, j)
            && Offset(ns, i) + TailOff(ms) == TailOff(ns) - (Offset(ns, j) - Offset(ns, i)) + (if |ms| == 1 then 0 else diff)
            && HEADER_SIZE + Offset(ns, i) + TailOff(ms) <= UINT32_MAX
  {
    hide *;
    var prev := ns[i].prev;
    var ms := Following(ns, j, prev);
    ValidIsOk(ns);
    PrevIsSmall(ns, i);
    FollowingOk(ns, j, prev);
    AllOkParts(ns, i);
    FollowingTail(ns, j, prev);
    DeleteParts(ns, i, j);
    CascadeShift(ns[..i], ms, 0);
    CascadeGrows(ms, 0);
    SizeConcat(ns[..i], Cascade(ms, 0));
    SizeConcat(ns[..i], ms);
    TailCases(ms, 0, ms[0]);
    OffsetIs(ns, i);
    OffsetLess(ns, i, j);
  }

  lemma DeleteParts(ns: seq<Node>, i: nat, j: nat)
    requires i < j < |ns|
    ensures var ms := Following(ns, j, ns[i].prev);
            ZipNodes.Delete(ns, i, j - i) ==
              if ByteDiff(ns[j], ns[i].prev) != 0 then Cascade(ns[..i] + ms, |ns[..i]|) else ns[..i] + ms
  {
    hide Cascade, ByteDiff;
    assert DeleteDraft(ns, i, j) == ns[..i] + Following(ns, j, ns[i].prev);
  }

  lemma DeleteJoin(a: seq<Node>, ms: seq<Node>)
    requires AllOk(a) && AllOk(ms) && ms != []
    ensures AllOk(a + ms) && Data(Flat(a), ms) == Data([], a + ms) && TailOff(a + ms) == |Flat(a)| + TailOff(ms)
  {
    hide *;
    DataJoin(a, ms);
    TailShift(a, ms);
  }

  /** Stepping back by an entry's back-length reaches the entry before, and the back-length
      is zero just for the first entry. */
  lemma PrevStep(ns: seq<Node>, i: nat)
    requires ValidNodes(ns) && i < |ns|
    ensures ns[i].prev == 0 <==> i == 0
    ensures Offset(ns, i) - ns[i].prev == if i == 0 then 0 else Offset(ns, i - 1)
    ensures TailOff(ns[..i]) == Offset(ns, i) - ns[i].prev
  {
    hide Size, BodyOk, RawLen;
    OffsetZero(ns);
    if i > 0 {
      OffsetNext(ns, i - 1);
      RawLenPositive(ns[i - 1]);
      assert ns[..i][..i - 1] == ns[..i - 1];
    }
  }

  lemma RawLenPositive(n: Node)
    ensures RawLen(n) > 0
  {
  }

  lemma CutBuffer(total: nat, tail: nat, len: nat, ns: seq<Node>, i: nat)
    requires AllOk(ns) && i < |ns| && total == HEADER_SIZE + |Data([], ns)|
    ensures var n := HEADER_SIZE + Offset(ns, i) + 1;
            && AllOk(ns[..i]) && HEADER_SIZE < n < total
            && Resized(Header(total, tail, len) + Data([], ns), n, []) == Header(n, tail, len) + Data([], ns[..i])
  {
    hide Header, Resized, Flat, NodeOk, NewTotal, Size;
    var h, n := Header(total, tail, len), HEADER_SIZE + Offset(ns, i) + 1;
    DataSplit([], ns, i);
    OffsetLess(ns, i, |ns|);
    OffsetAll(ns);
    EndOfData(h, [], ns);
    var a, b := Flat(ns[..i]), Flat(ns[i..]);
    assert h + [] + Flat(ns) + [ZIP_END] == (h + a) + b + [ZIP_END];
    CutOff(h + a, b);
    NewTotalOfHeader(total, tail, len, a, n);
    EndOfData(Header(n, tail, len), [], ns[..i]);
    assert Header(n, tail, len) + [] + a == Header(n, tail, len) + a;
  }

  /** How many entries a deletion removes, and what is left when none follows. */
  lemma DeleteCases(ns: seq<Node>, i: nat, num: nat)
    requires i < |ns|
    ensures var j := DeleteEnd(ns, i, num);
            && (j == i ==> ZipNodes.Delete(ns, i, num) == ns)
            && (i < j < |ns| ==> j == i + num)
            && (i < j == |ns| ==> ZipNodes.Delete(ns, i, num) == ns[..i])
            && |ZipNodes.Delete(ns, i, num)| == |ns| - (j - i)
  {
    hide Cascade;
  }

  lemma PiecesEnd(p: seq<byte>, f: seq<byte>, b: seq<byte>)
    ensures Pieces(p, f, b) == p + f + (b + [ZIP_END])
  {
  }

  lemma FirstSix<T>(b: seq<T>, junk: seq<T>, n: nat)
    requires |b| > 10 && n > 10 && |b| + |junk| >= n
    ensures (b + junk)[4..n - 1][..6] == b[..10][4..]
  {
    assert (b + junk)[4..n - 1][..6] == (b + junk)[4..10];
  }

  lemma ResizedHeader(b: seq<byte>, r: seq<byte>, total: nat, tail: nat, len: nat, n: nat, junk: seq<byte>)
    requires |b| > HEADER_SIZE && n > HEADER_SIZE && |b| + |junk| >= n
    requires b[..HEADER_SIZE] == Header(total, tail, len) && r == Resized(b, n, junk)
    ensures r[..HEADER_SIZE] == Header(n, tail, len)
  {
    hide LE;
    var h := Header(total, tail, len);
    FirstSix(b, junk, n);
    CutHeader(LE(total, 4), LE(tail, 4), LE(len, 2), []);
    assert h == LE(total, 4) + LE(tail, 4) + LE(len, 2) + [];
  }

  lemma TailWritten(total: nat, tail: nat, len: nat, d: seq<byte>, t: nat)
    ensures Put(Header(total, tail, len) + d, 4, LE(t, 4)) == Header(total, t, len) + d
  {
    hide LE;
    FourSlices(LE(total, 4), LE(tail, 4), LE(len, 2), d);
    PutSlices(LE(total, 4), LE(tail, 4), LE(len, 2) + d, LE(t, 4));
    assert Header(total, tail, len) + d == LE(total, 4) + LE(tail, 4) + (LE(len, 2) + d);
  }

  lemma LengthWritten(total: nat, tail: nat, len: nat, d: seq<byte>, l: nat)
    ensures Put(Header(total, tail, len) + d, 8, LE(l, 2)) == Header(total, tail, l) + d
  {
    hide LE;
    PutSlices(LE(total, 4) + LE(tail, 4), LE(len, 2), d, LE(l, 2));
  }

  lemma PutSlices(a: seq<byte>, f: seq<byte>, b: seq<byte>, g: seq<byte>)
    requires |f| == |g|
    ensures Put(a + f + b, |a|, g) == a + g + b
  {
  }

  /** A buffer that is a header and data has just those parts. */
  lemma BufferIs(b: seq<byte>, total: nat, tail: nat, len: nat, d: seq<byte>)
    requires b == Header(total, tail, len) + d
    ensures b[..HEADER_SIZE] == Header(total, tail, len) && b[HEADER_SIZE..] == d
  {
  }

  // ---------- The first entry ----------

  /** The first entry's back-length, zero, is in one byte. */
  predicate HeadNarrow(ns: seq<Node>) {
    ns != [] ==> !ns[0].wide
  }

  lemma InsertHead(ns: seq<Node>, i: nat, body: seq<byte>)
    requires ValidNodes(ns) && HeadNarrow(ns) && i <= |ns|
    ensures HeadNarrow(ZipNodes.Insert(ns, i, body))
  {
    hide Cascade, Size, RawLen, BodyOk;
    if i < |ns| { CascadeWidths(InsertDraft(ns, i, body), i + 1, 0); }
  }

  lemma DeleteHead(ns: seq<Node>, i: nat, num: nat)
    requires ValidNodes(ns) && HeadNarrow(ns) && i < |ns|
    ensures HeadNarrow(ZipNodes.Delete(ns, i, num))
  {
    hide Cascade, Size, RawLen, BodyOk;
    var j := DeleteEnd(ns, i, num);
    if i < j < |ns| { CascadeWidths(DeleteDraft(ns, i, j), i, 0); }
  }

  /** A push never meets the corner. */
  lemma NoCornerAtEnds(ns: seq<Node>, body: seq<byte>)
    requires HeadNarrow(ns)
    ensures !InsertCorner(ns, 0, body) && !InsertCorner(ns, |ns|, body)
  {
  }

  // ---------- Reading ----------

  predicate OnStride(a: nat, m: nat)
    requires m > 0
  {
    a % m == 0
  }

  /** `c` steps before the next multiple of `m`. */
  lemma Stride(a: nat, c: nat, m: nat)
    requires c < m && OnStride(a + c, m)
    ensures c > 0 ==> !OnStride(a, m)
    ensures c == 0 ==> OnStride(a, m) && OnStride(a + 1 + (m - 1), m)
  {
    var q := a / m;
    if c > 0 && a % m == 0 { ModUnique(q, c, m); }
    if c == 0 {
      Multiply(m, q, 1);
      ModUnique(q + 1, 0, m);
    }
  }

  /** None of the strings from place `i` up to `k`, `m` apart, is `s`. */
  predicate NoHit(c: seq<seq<byte>>, i: nat, m: nat, s: seq<byte>, k: nat)
    requires m > 0 && k <= |c|
  {
    forall j | i <= j < k && OnStride(j - i, m) :: c[j] != s
  }

  /** `k` is the first place from `i` on, `m` apart, that holds `s`, or the end if there is none. */
  predicate FirstHit(c: seq<seq<byte>>, i: nat, m: nat, s: seq<byte>, k: nat)
    requires m > 0
  {
    i <= k <= |c| && NoHit(c, i, m, s, k) && (k < |c| ==> OnStride(k - i, m) && c[k] == s)
  }

  lemma NotYet(c: seq<seq<byte>>, i: nat, m: nat, s: seq<byte>)
    requires m > 0 && i <= |c|
    ensures NoHit(c, i, m, s, i) && OnStride(0, m)
  {
  }

  lemma HitOrNot(c: seq<seq<byte>>, i: nat, m: nat, s: seq<byte>, k: nat)
    requires m > 0 && i <= k <= |c| && NoHit(c, i, m, s, k)
    ensures k == |c| ==> FirstHit(c, i, m, s, k)
    ensures k < |c| && OnStride(k - i, m) && c[k] == s ==> FirstHit(c, i, m, s, k)
    ensures k < |c| && !(OnStride(k - i, m) && c[k] == s) ==> NoHit(c, i, m, s, k + 1)
  {
  }

  lemma Multiply(m: nat, q: int, k: int)
    ensures m * (q + k) == m * q + m * k && (k >= 1 ==> m * k >= m)
  {
  }

  lemma ModUnique(q: nat, r: nat, m: nat)
    requires r < m
    ensures (m * q + r) % m == r
  {
    var x := m * q + r;
    var d := x / m;
    assert x == m * d + x % m;
    if d < q { Multiply(m, d, q - d); }
    if q < d { Multiply(m, q, d - q); }
  }

  lemma LastEntry(ns: seq<Node>)
    ensures TailOff(ns) == Offset(ns, if ns == [] then 0 else |ns| - 1)
  {
  }

  /** The buffer of an empty list. */
  lemma NewBuffer(b: seq<byte>)
    requires |b| == HEADER_SIZE + 1 && b[HEADER_SIZE] == ZIP_END
    requires b[..4] == LE(HEADER_SIZE + 1, 4) && b[4..8] == LE(HEADER_SIZE, 4) && b[8..10] == LE(0, 2)
    ensures b[..HEADER_SIZE] == Header(HEADER_SIZE + 1, HEADER_SIZE, 0) && b[HEADER_SIZE..] == Data([], [])
  {
    hide LE;
    assert b[..10] == b[..4] + b[4..8] + b[8..10];
  }

  lemma InsertedEnds<T>(s: seq<T>, x: T)
    ensures Inserted(s, 0, x) == [x] + s && Inserted(s, |s|, x) == s + [x]
  {
  }

  lemma SliceOfTail<T>(s: seq<T>, p: nat, i: nat, j: nat)
    requires i <= j && p + j <= |s|
    ensures s[p..][i..j] == s[p + i..p + j]
  {
  }

  lemma BodySlice<T>(s: seq<T>, f: seq<T>, b: seq<T>, rest: seq<T>)
    requires s == f + b + rest
    ensures s[|f|..|f| + |b|] == b
  {
  }

  /** An integer entry stands for the bytes of `s` just when `s` parses to that integer. */
  lemma IntegerText(b: seq<byte>, s: seq<byte>)
    requires BodyOk(b) && DecodeBody(b).Int?
    ensures Text(DecodeBody(b)) == s <==> TryEncoding(s) == IsInt(DecodeBody(b).value)
  {
    var v := DecodeBody(b).value;
    LoadedFits(b[1..], b[0]);
    DecimalLength(v);
    String2llExact(s, v);
  }

  lemma LoadedFits(s: seq<byte>, enc: byte)
    requires KnownInt(enc) && |s| == IntSize(enc)
    ensures IsInt64(LoadInteger(s, enc))
  {
    Powers();
    if enc == INT_24B {
      LoadFits([0] + s[..3]);
    } else if enc == INT_8B {
      LoadFits(s[..1]);
    } else if enc == INT_16B {
      LoadFits(s[..2]);
    } else if enc == INT_32B {
      LoadFits(s[..4]);
    } else if enc == INT_64B {
      LoadFits(s[..8]);
    }
  }
}
