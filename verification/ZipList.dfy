/** The ziplist (src/ziplist.c:298-647): its entries in one byte buffer that insertion,
    deletion and the cascade change in place. */
module ZipList {
  import opened Bytes
  import opened Memory
  import opened ZipEntry
  import opened ZipNodes
  import opened ZipBuffer
  import opened ZipData

  class ZipList {
    var zl: array<byte>
    /** The tail offset and the length in the header, and the entries. */
    ghost var tail: nat
    ghost var len: nat
    ghost var entries: seq<Node>

    ghost predicate Valid()
      reads this, zl
    {
      HeaderOk() && Represents(entries) && HeadNarrow(entries) && (len < UINT16_MAX ==> len == |entries|)
    }

    /** The data and the tail offset are those of a list of entries. */
    ghost predicate Represents(ns: seq<Node>)
      reads this, zl
      requires zl.Length > HEADER_SIZE
    {
      ValidNodes(ns) && DataOf() == Data([], ns) && tail == HEADER_SIZE + TailOff(ns)
    }

    /** The strings in the list. */
    ghost function Contents(): seq<seq<byte>>
      reads this
      requires ValidNodes(entries)
    {
      Texts(entries)
    }

    /** What the entries hold, integers told apart from strings. */
    ghost function Items(): seq<Value>
      reads this
      requires ValidNodes(entries)
    {
      Values(entries)
    }

    /** The buffer starts with its header; the total in it is the buffer's size. */
    ghost predicate HeaderOk()
      reads this, zl
    {
      && HEADER_SIZE < zl.Length <= UINT32_MAX && tail <= UINT32_MAX && len <= UINT16_MAX
      && zl[..HEADER_SIZE] == Header(zl.Length, tail, len)
    }

    ghost function DataOf(): seq<byte>
      reads this, zl
      requires zl.Length > HEADER_SIZE
    {
      zl[HEADER_SIZE..]
    }

    /** `zipListNew`. */
    constructor ()
      ensures Valid() && fresh(zl) && entries == [] && Contents() == []
    {
      zl := new byte[HEADER_SIZE + 1];
      tail, len, entries := HEADER_SIZE, 0, [];
      new;
      Store(zl, 0, LE(HEADER_SIZE + 1, 4));
      Store(zl, 4, LE(HEADER_SIZE, 4));
      Store(zl, 8, LE(0, 2));
      zl[HEADER_SIZE] := ZIP_END;
      NewBuffer(zl[..]);
      assert zl[..][..HEADER_SIZE] == zl[..HEADER_SIZE] && zl[..][HEADER_SIZE..] == zl[HEADER_SIZE..];
    }

    /** `ZIP_LIST_BYTES`. */
    method ListBytes() returns (n: nat)
      requires HeaderOk()
      ensures n == zl.Length
    {
      HeaderFields();
      n := UnLE(zl[..4]);
    }

    /** `ZIP_LIST_TAIL_OFFSET`. */
    method TailOffset() returns (n: nat)
      requires HeaderOk()
      ensures n == tail
    {
      HeaderFields();
      n := UnLE(zl[4..8]);
    }

    /** `ZIP_LIST_LENGTH`. */
    method HeaderLength() returns (n: nat)
      requires HeaderOk()
      ensures n == len
    {
      HeaderFields();
      n := UnLE(zl[8..10]);
    }

    lemma HeaderFields()
      requires HeaderOk()
      ensures zl[..] == Header(zl.Length, tail, len) + DataOf()
      ensures UnLE(zl[..4]) == zl.Length && UnLE(zl[4..8]) == tail && UnLE(zl[8..10]) == len
    {
      assert zl[..] == zl[..HEADER_SIZE] + zl[HEADER_SIZE..];
      HeaderRead(zl.Length, tail, len, DataOf());
      var b := zl[..];
      assert zl[..4] == b[..4] && zl[4..8] == b[4..8] && zl[8..10] == b[8..10];
    }

    /** Write the tail offset. */
    method SetTail(t: nat)
      requires HeaderOk() && t <= UINT32_MAX
      modifies zl, this`tail
      ensures HeaderOk() && tail == t && DataOf() == old(DataOf())
    {
      HeaderFields();
      Store(zl, 4, LE(t, 4));
      TailWritten(zl.Length, tail, len, old(DataOf()), t);
      tail := t;
      BufferIs(zl[..], zl.Length, tail, len, old(DataOf()));
    }

    /** Write the length. */
    method SetLength(l: nat)
      requires HeaderOk() && l <= UINT16_MAX
      modifies zl, this`len
      ensures HeaderOk() && len == l && DataOf() == old(DataOf())
    {
      HeaderFields();
      Store(zl, 8, LE(l, 2));
      LengthWritten(zl.Length, tail, len, old(DataOf()), l);
      len := l;
      BufferIs(zl[..], zl.Length, tail, len, old(DataOf()));
    }

    /** `zipListResize`. */
    method ResizeTo(n: nat) returns (ghost junk: seq<byte>)
      requires HeaderOk() && HEADER_SIZE < n <= UINT32_MAX
      modifies this`zl
      ensures HeaderOk() && fresh(zl) && zl.Length == n
      ensures |junk| == (if n > old(zl.Length) then n - old(zl.Length) else 0)
      ensures zl[..] == Resized(old(zl[..]), n, junk)
    {
      HeaderFields();
      ghost var b := zl[..];
      zl, junk := Resize(zl, n);
      ResizedHeader(b, zl[..], old(zl.Length), tail, len, n, junk);
    }

    /** `zipEntry` and `zipRawEntryLength` at the pointer `at`: the size and value of the
        back-length, and the size of the whole entry. */
    method EntryAt(at: nat, ghost pre: seq<byte>, ghost ns: seq<Node>, ghost k: nat)
        returns (prevSize: nat, prev: nat, raw: nat)
      requires zl.Length > HEADER_SIZE && AllOk(ns) && DataOf() == Data(pre, ns)
      requires k < |ns| && at == HEADER_SIZE + |pre| + Offset(ns, k)
      ensures prevSize == (if ns[k].wide then 5 else 1) && prev == ns[k].prev && raw == RawLen(ns[k])
      ensures at + raw == HEADER_SIZE + |pre| + Offset(ns, k + 1) && at + raw < zl.Length
      ensures zl[at + raw] == ZIP_END <==> k + 1 == |ns|
    {
      hide Data, AllOk, PrevLenSize, PrevLen, RawEntryLength, LenSize, RawLen, Offset;
      EntryBytes(pre, ns, k);
      assert zl[at..] == DataOf()[at - HEADER_SIZE..];
      var s := zl[at..];
      prevSize, prev, raw := PrevLenSize(s), PrevLen(s), RawEntryLength(s);
      assert zl[at + raw] == DataOf()[at + raw - HEADER_SIZE..][0];
    }

    /** The widening branch of the cascade: the one-byte back-length at `np` becomes the five
        bytes that `raw` needs. */
    method Widen(np: nat, raw: nat, ghost pre: seq<byte>, ghost ns: seq<Node>, ghost k: nat)
      requires HeaderOk() && zl.Length + 4 <= UINT32_MAX && tail + 4 <= UINT32_MAX
      requires AllOk(ns) && DataOf() == Data(pre, ns)
      requires k < |ns| && np == HEADER_SIZE + |pre| + Offset(ns, k)
      requires !ns[k].wide && BIG_LEN <= raw <= UINT32_MAX
      modifies this`zl, this`tail, zl
      ensures HeaderOk() && fresh(zl) && zl.Length == old(zl.Length) + 4
      ensures AllOk(ns[k := Node(true, raw, ns[k].body)])
      ensures DataOf() == Data(pre, ns[k := Node(true, raw, ns[k].body)])
      ensures tail == if old(tail) == np then old(tail) else old(tail) + 4
    {
      hide Data, AllOk, Size, Resized, Moved, Put, Header, RawLen, EncodePrev;
      var t := TailOffset();
      if t != np { SetTail(t + 4); }
      HeaderFields();
      DataSplit(pre, ns, k);
      WidenRoom(pre, ns, k);
      var curLen := zl.Length;
      ghost var b0 := zl[..];
      ghost var junk := ResizeTo(curLen + 4);
      MemMove(zl, np + 5, np + 1, curLen - np - 2);
      Store(zl, np, EncodePrev(raw));
      WidenBuffer(curLen, tail, len, pre, ns, k, raw, junk);
      BufferIs(zl[..], curLen + 4, tail, len, Data(pre, ns[k := Node(true, raw, ns[k].body)]));
      assert zl[..][..HEADER_SIZE] == zl[..HEADER_SIZE] && zl[..][HEADER_SIZE..] == zl[HEADER_SIZE..];
    }

    /** Rewriting the back-length at `at` in the bytes it has. */
    method Rewrite(at: nat, ghost pre: seq<byte>, ghost ns: seq<Node>, ghost k: nat, field: seq<byte>, ghost m: Node)
      requires HeaderOk() && AllOk(ns) && DataOf() == Data(pre, ns)
      requires k < |ns| && at == HEADER_SIZE + |pre| + Offset(ns, k)
      requires NodeOk(m) && m.body == ns[k].body && m.wide == ns[k].wide && field == PrevField(m)
      modifies zl
      ensures HeaderOk() && AllOk(ns[k := m]) && DataOf() == Data(pre, ns[k := m])
    {
      hide Data, AllOk, Size, Put, Header, RawLen, NodeOk;
      HeaderFields();
      DataSplit(pre, ns, k);
      RewriteBuffer(zl.Length, tail, len, pre, ns, k, m);
      Store(zl, at, field);
      BufferIs(zl[..], zl.Length, tail, len, Data(pre, ns[k := m]));
      assert zl[..][..HEADER_SIZE] == zl[..HEADER_SIZE] && zl[..][HEADER_SIZE..] == zl[HEADER_SIZE..];
    }

    /** The byte at a pointer is the end marker just when no entry is left. */
    lemma ByteAt(at: nat, pre: seq<byte>, ns: seq<Node>, k: nat)
      requires zl.Length > HEADER_SIZE && AllOk(ns) && DataOf() == Data(pre, ns)
      requires k <= |ns| && at == HEADER_SIZE + |pre| + Offset(ns, k)
      ensures at < zl.Length && (zl[at] == ZIP_END <==> k == |ns|)
    {
      hide Data, AllOk, PrevLenSize, PrevLen, RawEntryLength, LenSize, RawLen, Size;
      ReadAt(pre, ns, k);
      DataSplit(pre, ns, k);
      assert zl[at] == DataOf()[at - HEADER_SIZE..][0];
    }

    /** The end of a round of the cascade: the back-length at `np`, which is not `raw`, gets
        its value, in five bytes when one is too small for it and in the bytes it has
        otherwise. The slips at src/ziplist.c:338 and 341 (`r` for `p`, `ZL` for `zl`) are
        corrected. */
    method FixNext(np: nat, raw: nat, nextSize: nat, ghost pre: seq<byte>, ghost ns: seq<Node>, ghost k: nat)
        returns (more: bool)
      requires HeaderOk() && AllOk(ns) && DataOf() == Data(pre, ns)
      requires k + 1 < |ns| && np == HEADER_SIZE + |pre| + Offset(ns, k + 1)
      requires raw == RawLen(ns[k]) && nextSize == (if ns[k + 1].wide then 5 else 1) && ns[k + 1].prev != raw
      requires tail == HEADER_SIZE + |pre| + TailOff(ns)
      requires HEADER_SIZE + |pre| + Size(Cascade(ns, k)) + 1 <= UINT32_MAX
      modifies this`zl, this`tail, zl
      ensures HeaderOk() && zl.Length > HEADER_SIZE && (zl == old(zl) || fresh(zl))
      ensures |NextFixed(ns, k)| == |ns|
      ensures AllOk(NextFixed(ns, k)) && DataOf() == Data(pre, NextFixed(ns, k))
      ensures tail == HEADER_SIZE + |pre| + TailOff(NextFixed(ns, k))
      ensures more <==> nextSize < PrevSizeFor(raw)
    {
      hide Data, AllOk, Size, Offset, RawLen, Header, Cascade, TailOff, PrevField, NodeOk, NextFixed, EncodePrev;
      NextFixedFacts(ns, k, HEADER_SIZE + |pre|);
      DataSplit(pre, ns, k + 1);
      ghost var m := NextFixed(ns, k)[k + 1];
      more := nextSize < PrevSizeFor(raw);
      if more {
        Widen(np, raw, pre, ns, k + 1);
      } else if nextSize > PrevSizeFor(raw) {
        Rewrite(np, pre, ns, k + 1, EncodePrevLarge(raw), m);
      } else {
        Rewrite(np, pre, ns, k + 1, EncodePrev(raw), m);
      }
    }

    /** One round of `__zipListCascadeUpdate` at the pointer `at`. It answers whether the loop
        goes on, and where. */
    method CascadeOnce(at: nat, ghost pre: seq<byte>, ghost ns: seq<Node>, ghost k: nat)
        returns (more: bool, next: nat, ghost r: seq<Node>)
      requires HeaderOk() && AllOk(ns) && DataOf() == Data(pre, ns)
      requires k < |ns| && at == HEADER_SIZE + |pre| + Offset(ns, k)
      requires tail == HEADER_SIZE + |pre| + TailOff(ns)
      requires HEADER_SIZE + |pre| + Size(Cascade(ns, k)) + 1 <= UINT32_MAX
      modifies this`zl, this`tail, zl
      ensures HeaderOk() && (zl == old(zl) || fresh(zl))
      ensures |r| == |ns| && AllOk(r) && DataOf() == Data(pre, r)
      ensures tail == HEADER_SIZE + |pre| + TailOff(r)
      ensures if more then k + 1 < |ns| && Cascade(ns, k) == Cascade(r, k + 1) && next == HEADER_SIZE + |pre| + Offset(r, k + 1)
              else r == Cascade(ns, k)
    {
      hide Data, AllOk, Size, Offset, RawLen, Header, Cascade, TailOff, NextFixed;
      var _, _, raw := EntryAt(at, pre, ns, k);
      CascadeRound(ns, k);
      more, next, r := false, at + raw, ns;
      if zl[next] == ZIP_END { return; }
      var nextSize, nextPrev, _ := EntryAt(next, pre, ns, k + 1);
      if nextPrev == raw { return; }
      more := FixNext(next, raw, nextSize, pre, ns, k);
      r := NextFixed(ns, k);
    }

    /** `__zipListCascadeUpdate` from the entry at `p`. `pre` is what the data holds before
        that entry and `ms` are the entries from it on. */
    method CascadeUpdate(p: nat, ghost pre: seq<byte>, ghost ms: seq<Node>) returns (ghost ns: seq<Node>)
      requires HeaderOk() && ms != [] && AllOk(ms)
      requires p == HEADER_SIZE + |pre| && DataOf() == Data(pre, ms)
      requires tail == p + TailOff(ms)
      requires p + Size(Cascade(ms, 0)) + 1 <= UINT32_MAX
      modifies this`zl, this`tail, zl
      ensures HeaderOk() && (zl == old(zl) || fresh(zl))
      ensures ns == Cascade(ms, 0) && AllOk(ns) && DataOf() == Data(pre, ns)
      ensures tail == p + TailOff(ns)
    {
      hide Data, AllOk, Size, Offset, RawLen, Header, Cascade, TailOff, NextFixed;
      OffsetZero(ms);
      ghost var k := 0;
      var at := p;
      ns := ms;
      ByteAt(at, pre, ns, 0);
      var more := zl[at] != ZIP_END;
      while more
        invariant HeaderOk() && (zl == old(zl) || fresh(zl))
        invariant k <= |ms| && |ns| == |ms| && AllOk(ns) && DataOf() == Data(pre, ns)
        invariant more ==> k < |ms| && at == p + Offset(ns, k) && Cascade(ns, k) == Cascade(ms, 0)
        invariant !more ==> ns == Cascade(ms, 0)
        invariant tail == p + TailOff(ns)
        decreases |ms| - k, more
      {
        more, at, ns := CascadeOnce(at, pre, ns, k);
        if more { k := k + 1; }
      }
    }

    /** Make room for `req` bytes in front of the entry at `p`, whose back-length becomes
        `req`. The source resizes before it moves, so the bytes it moves must survive the
        resize. */
    method OpenGap(p: nat, req: nat, ghost ns: seq<Node>, ghost i: nat) returns (diff: int, ghost gap: seq<byte>)
      requires HeaderOk() && AllOk(ns) && DataOf() == Data([], ns)
      requires i < |ns| && p == HEADER_SIZE + Offset(ns, i) && 0 < req <= UINT32_MAX
      requires MoveSafe(ns, i, req)
      requires zl.Length + req + ByteDiff(ns[i], req) <= UINT32_MAX
      modifies this`zl
      ensures HeaderOk() && fresh(zl)
      ensures |gap| == req && diff == ByteDiff(ns[i], req) && AllOk(ns[..i]) && AllOk(Following(ns, i, req))
      ensures DataOf() == Data(Flat(ns[..i]) + gap, Following(ns, i, req))
    {
      hide Data, AllOk, Size, Offset, RawLen, Header, Flat, Following, Resized, Moved, Put, EncodePrev, EndsLikeMarker;
      var curLen := ListBytes();
      var nextSize, _, _ := EntryAt(p, [], ns, i);
      diff := PrevSizeFor(req) - nextSize;
      HeaderFields();
      DataSplit([], ns, i);
      WidthInside(ns, i);
      ghost var junk := ResizeTo(curLen + req + diff);
      MemMove(zl, p + req, p - diff, curLen - p - 1 + diff);
      Store(zl, p + req, EncodePrev(req));
      gap := OpenBuffer(curLen, tail, len, ns, i, req, junk);
      BufferIs(zl[..], curLen + req + diff, tail, len, Data(Flat(ns[..i]) + gap, Following(ns, i, req)));
      assert zl[..][..HEADER_SIZE] == zl[..HEADER_SIZE] && zl[..][HEADER_SIZE..] == zl[HEADER_SIZE..];
    }

    /** Make room for `req` bytes at the end. */
    method OpenEnd(p: nat, req: nat, ghost ns: seq<Node>) returns (ghost gap: seq<byte>)
      requires HeaderOk() && AllOk(ns) && DataOf() == Data([], ns)
      requires p == HEADER_SIZE + Size(ns) && 0 < req && zl.Length + req <= UINT32_MAX
      modifies this`zl
      ensures HeaderOk() && fresh(zl)
      ensures |gap| == req && DataOf() == Data(Flat(ns) + gap, [])
    {
      hide Data, AllOk, Size, Offset, RawLen, Header, Flat, Resized;
      FlatNone();
      var curLen := ListBytes();
      HeaderFields();
      ghost var junk := ResizeTo(curLen + req);
      gap := OpenEndBuffer(curLen, tail, len, ns, req, junk);
      BufferIs(zl[..], curLen + req, tail, len, Data(Flat(ns) + gap, []));
      assert zl[..][..HEADER_SIZE] == zl[..HEADER_SIZE] && zl[..][HEADER_SIZE..] == zl[HEADER_SIZE..];
    }

    /** Write the new entry into the room made for it. */
    method FillGap(p: nat, field: seq<byte>, body: seq<byte>, ghost pre: seq<byte>, ghost gap: seq<byte>, ghost ms: seq<Node>)
      requires HeaderOk() && AllOk(ms) && DataOf() == Data(pre + gap, ms)
      requires p == HEADER_SIZE + |pre| && |field| + |body| == |gap|
      modifies zl
      ensures HeaderOk() && DataOf() == Data(pre + (field + body), ms)
    {
      hide Data, AllOk, Size, Header, Flat, Put;
      HeaderFields();
      FillBuffer(zl.Length, tail, len, pre, gap, ms, field, body);
      Store(zl, p, field);
      Store(zl, p + |field|, body);
      BufferIs(zl[..], zl.Length, tail, len, Data(pre + (field + body), ms));
      assert zl[..][..HEADER_SIZE] == zl[..HEADER_SIZE] && zl[..][HEADER_SIZE..] == zl[HEADER_SIZE..];
    }

    /** `__zipListInsert` in front of the entry at `p`, up to its length update. */
    method InsertInside(p: nat, prevLen: nat, body: seq<byte>, ghost ns: seq<Node>, ghost i: nat)
      requires HeaderOk() && AllOk(ns) && BodyOk(body) && DataOf() == Data([], ns) && tail == HEADER_SIZE + TailOff(ns)
      requires i < |ns| && p == HEADER_SIZE + Offset(ns, i) && prevLen == ns[i].prev
      requires HEADER_SIZE + Size(ZipNodes.Insert(ns, i, body)) + 1 <= UINT32_MAX
      requires !InsertCorner(ns, i, body)
      modifies this`zl, this`tail, zl
      ensures HeaderOk() && fresh(zl) && AllOk(ZipNodes.Insert(ns, i, body))
      ensures DataOf() == Data([], ZipNodes.Insert(ns, i, body))
      ensures tail == HEADER_SIZE + TailOff(ZipNodes.Insert(ns, i, body))
    {
      hide Data, AllOk, Size, Offset, RawLen, Header, Flat, Following, EncodePrev, TailOff, Cascade, NewNode, BodyOk,
        NodeOk;
      ghost var n := NewNode(ns, i, body);
      var field := EncodePrev(prevLen);
      var req := |field| + |body|;
      NewNodeFacts(ns, i, body);
      InsertFacts(ns, i, body, n);
      DataSplit([], ns, i);
      var diff; ghost var gap;
      diff, gap := OpenGap(p, req, ns, i);
      ghost var pre, ms := Flat(ns[..i]), Following(ns, i, req);
      var t := TailOffset();
      OffsetZero(ms);
      var _, _, raw := EntryAt(p + req, pre + gap, ms, 0);
      SetTail(if zl[p + req + raw] != ZIP_END then t + req + diff else t + req);
      if diff != 0 { ms := CascadeUpdate(p + req, pre + gap, ms); }
      FillGap(p, field, body, pre, gap, ms);
      InsertJoin(ns[..i], n, ms);
    }

    /** `__zipListInsert` at the end, up to its length update. */
    method InsertAtEnd(p: nat, prevLen: nat, body: seq<byte>, ghost ns: seq<Node>)
      requires HeaderOk() && AllOk(ns) && BodyOk(body) && DataOf() == Data([], ns) && tail == HEADER_SIZE + TailOff(ns)
      requires p == HEADER_SIZE + Size(ns) && prevLen == PrevOf(ns, |ns|)
      requires HEADER_SIZE + Size(ZipNodes.Insert(ns, |ns|, body)) + 1 <= UINT32_MAX
      modifies this`zl, this`tail, zl
      ensures HeaderOk() && fresh(zl) && AllOk(ZipNodes.Insert(ns, |ns|, body))
      ensures DataOf() == Data([], ZipNodes.Insert(ns, |ns|, body))
      ensures tail == HEADER_SIZE + TailOff(ZipNodes.Insert(ns, |ns|, body))
    {
      hide Data, AllOk, Size, Offset, RawLen, Header, Flat, EncodePrev, TailOff, NewNode, BodyOk, NodeOk;
      ghost var n := NewNode(ns, |ns|, body);
      var field := EncodePrev(prevLen);
      var req := |field| + |body|;
      NewNodeFacts(ns, |ns|, body);
      AppendFacts(ns, n);
      DataSplit([], ns, |ns|);
      ghost var gap := OpenEnd(p, req, ns);
      SetTail(p);
      FlatNone();
      FillGap(p, field, body, Flat(ns), gap, []);
      InsertJoin(ns, n, []);
    }

    /** The back-length for an entry to be put at `p`. */
    method PrevLenFor(p: nat, ghost ns: seq<Node>, ghost i: nat) returns (prevLen: nat)
      requires HeaderOk() && AllOk(ns) && DataOf() == Data([], ns) && tail == HEADER_SIZE + TailOff(ns)
      requires i <= |ns| && p == HEADER_SIZE + Offset(ns, i)
      ensures prevLen == PrevAt(ns, i) && p < zl.Length && (zl[p] != ZIP_END <==> i < |ns|)
    {
      hide Data, AllOk, Size, RawLen, Header, Flat, NodeOk;
      ByteAt(p, [], ns, i);
      prevLen := 0;
      if zl[p] != ZIP_END {
        var _, prev, _ := EntryAt(p, [], ns, i);
        prevLen := prev;
      } else {
        var t := TailOffset();
        OffsetZero(ns);
        ByteAt(t, [], ns, if ns == [] then 0 else |ns| - 1);
        if zl[t] != ZIP_END {
          var _, _, raw := EntryAt(t, [], ns, |ns| - 1);
          prevLen := raw;
        }
      }
    }

    /** `__zipListInsert`: put the string `s` in front of the entry at `p`, or at the end. */
    method Insert(p: nat, s: seq<byte>, ghost i: nat)
      requires Valid() && i <= |entries| && p == HEADER_SIZE + Offset(entries, i) && |s| <= UINT32_MAX
      requires HEADER_SIZE + Size(ZipNodes.Insert(entries, i, EncodeBody(s))) + 1 <= UINT32_MAX
      requires !InsertCorner(entries, i, EncodeBody(s))
      modifies this, zl
      ensures Valid() && fresh(zl)
      ensures entries == ZipNodes.Insert(old(entries), i, EncodeBody(s))
      ensures Contents() == Inserted(old(Contents()), i, s)
      ensures Items() == Inserted(old(Items()), i, Stored(s))
      ensures len == if old(len) < UINT16_MAX then old(len) + 1 else old(len)
    {
      hide Data, AllOk, Size, Header, NodeOk, BodyOk, EncodeBody, InsertCorner, Text, DecodeBody, Texts, Inserted,
        Values, Stored, ChainedBut, TailOff, HeadNarrow;
      ghost var ns := entries;
      var prevLen := PrevLenFor(p, ns, i);
      var body := EncodeBody(s);
      BodyRoundTrip(s);
      InsertOk(ns, i, body);
      InsertHead(ns, i, body);
      ValidIsOk(ns);
      ValidIsOk(ZipNodes.Insert(ns, i, body));
      InsertValues(ns, i, body);
      if zl[p] != ZIP_END {
        InsertInside(p, prevLen, body, ns, i);
      } else {
        OffsetAll(ns);
        InsertAtEnd(p, prevLen, body, ns);
      }
      entries := ZipNodes.Insert(ns, i, body);
      var l := HeaderLength();
      if l < UINT16_MAX { SetLength(l + 1); }
    }

    /** Skip up to `num` entries from `p` on. */
    method Skip(p: nat, num: nat, ghost ns: seq<Node>, ghost i: nat) returns (q: nat, skipped: nat)
      requires zl.Length > HEADER_SIZE && AllOk(ns) && DataOf() == Data([], ns)
      requires i <= |ns| && p == HEADER_SIZE + Offset(ns, i)
      ensures i + skipped == (if i + num < |ns| then i + num else |ns|)
      ensures q == HEADER_SIZE + Offset(ns, i + skipped) && q < zl.Length && (zl[q] == ZIP_END <==> i + skipped == |ns|)
    {
      hide Data, AllOk, Offset, RawLen;
      q, skipped := p, 0;
      ByteAt(q, [], ns, i);
      while zl[q] != ZIP_END && skipped < num
        invariant skipped <= num && i + skipped <= |ns|
        invariant q == HEADER_SIZE + Offset(ns, i + skipped) && q < zl.Length
        invariant zl[q] == ZIP_END <==> i + skipped == |ns|
        decreases num - skipped
      {
        var _, _, raw := EntryAt(q, [], ns, i + skipped);
        q, skipped := q + raw, skipped + 1;
      }
    }

    /** Write the back-length `prev` so that it ends where the one of the entry at `q` does.
        Where it starts, the remaining entries start. */
    method PullBack(q: nat, prev: nat, ghost ns: seq<Node>, ghost i: nat, ghost j: nat)
        returns (diff: int, at: nat, ghost pre: seq<byte>)
      requires HeaderOk() && ValidNodes(ns) && DataOf() == Data([], ns)
      requires i < j < |ns| && q == HEADER_SIZE + Offset(ns, j) && prev == ns[i].prev
      modifies zl
      ensures HeaderOk() && AllOk(ns[..i]) && AllOk(Following(ns, j, prev))
      ensures diff == ByteDiff(ns[j], prev) && at == q - diff && at == HEADER_SIZE + |pre| && at >= HEADER_SIZE + Offset(ns, i)
      ensures pre[..Offset(ns, i)] == Flat(ns[..i]) && DataOf() == Data(pre, Following(ns, j, prev))
    {
      hide Data, AllOk, ChainedBut, Size, Offset, RawLen, Header, Flat, Following, Put, EncodePrev;
      var nextSize, _, _ := EntryAt(q, [], ns, j);
      diff := PrevSizeFor(prev) - nextSize;
      StepBackStaysInside(ns, i, j);
      at := q - diff;
      HeaderFields();
      DataSplit([], ns, j);
      WidthInside(ns, j);
      pre := PullBuffer(zl.Length, tail, len, ns, i, j, prev);
      Store(zl, at, EncodePrev(prev));
      BufferIs(zl[..], zl.Length, tail, len, Data(pre, Following(ns, j, prev)));
      assert zl[..][..HEADER_SIZE] == zl[..HEADER_SIZE] && zl[..][HEADER_SIZE..] == zl[HEADER_SIZE..];
    }

    /** Move the entries at `at` down to `p` and cut the buffer. */
    method CloseGap(p: nat, at: nat, ghost pre: seq<byte>, ghost pre': seq<byte>, ghost ms: seq<Node>)
      requires HeaderOk() && AllOk(ms) && DataOf() == Data(pre, ms)
      requires p == HEADER_SIZE + |pre'| && at == HEADER_SIZE + |pre| && pre' <= pre
      modifies this`zl, zl
      ensures HeaderOk() && fresh(zl) && DataOf() == Data(pre', ms)
    {
      hide Data, AllOk, Size, Header, Flat, Resized, Moved;
      var curLen := ListBytes();
      HeaderFields();
      DataLength(pre, ms);
      MemMove(zl, p, at, curLen - at - 1);
      CloseBuffer(curLen, tail, len, pre, pre', ms);
      ghost var b := zl[..];
      assert b[..HEADER_SIZE] == zl[..HEADER_SIZE];
      ghost var junk := ResizeTo(curLen - (at - p));
      assert junk == [];
      BufferIs(zl[..], curLen - (at - p), tail, len, Data(pre', ms));
      assert zl[..][..HEADER_SIZE] == zl[..HEADER_SIZE] && zl[..][HEADER_SIZE..] == zl[HEADER_SIZE..];
    }

    /** `__zipListDelete` of the entries from `p` to `q` when one follows, up to its length
        update. */
    method DeleteInside(p: nat, q: nat, prev: nat, ghost ns: seq<Node>, ghost i: nat, ghost j: nat)
      requires HeaderOk() && Represents(ns) && i < j < |ns|
      requires p == HEADER_SIZE + Offset(ns, i) && q == HEADER_SIZE + Offset(ns, j) && prev == ns[i].prev
      requires HEADER_SIZE + Size(ZipNodes.Delete(ns, i, j - i)) + 1 <= UINT32_MAX
      modifies this`zl, this`tail, zl
      ensures HeaderOk() && fresh(zl) && AllOk(ZipNodes.Delete(ns, i, j - i))
      ensures DataOf() == Data([], ZipNodes.Delete(ns, i, j - i))
      ensures tail == HEADER_SIZE + TailOff(ZipNodes.Delete(ns, i, j - i))
    {
      hide Data, AllOk, ValidNodes, Size, Offset, RawLen, Header, Flat, Following, TailOff, Cascade, ZipNodes.Delete,
        ByteDiff;
      ValidIsOk(ns);
      var diff, at; ghost var pre;
      diff, at, pre := PullBack(q, prev, ns, i, j);
      ghost var pre', ms := Flat(ns[..i]), Following(ns, j, prev);
      DeleteFacts(ns, i, j);
      var t := TailOffset();
      OffsetZero(ms);
      var _, _, raw := EntryAt(at, pre, ms, 0);
      SetTail(if zl[at + raw] != ZIP_END then t - (q - p) + diff else t - (q - p));
      DataSplit([], ns, i);
      PrefixBySlice(pre', pre, Offset(ns, i));
      CloseGap(p, at, pre, pre', ms);
      if diff != 0 { ms := CascadeUpdate(p, pre', ms); }
      DeleteJoin(ns[..i], ms);
    }

    /** `__zipListDelete` of all entries from `p` on, up to its length update. */
    method DeleteToEnd(p: nat, prev: nat, ghost ns: seq<Node>, ghost i: nat)
      requires HeaderOk() && Represents(ns) && i < |ns|
      requires p == HEADER_SIZE + Offset(ns, i) && prev == ns[i].prev
      modifies this`zl, this`tail, zl
      ensures HeaderOk() && fresh(zl) && AllOk(ns[..i]) && DataOf() == Data([], ns[..i])
      ensures tail == HEADER_SIZE + TailOff(ns[..i])
    {
      hide Data, AllOk, ValidNodes, Size, Offset, RawLen, Header, Flat, Resized, TailOff;
      ValidIsOk(ns);
      PrevStep(ns, i);
      DataSplit([], ns, i);
      SetTail(p - prev);
      HeaderFields();
      CutBuffer(zl.Length, tail, len, ns, i);
      ghost var junk := ResizeTo(p + 1);
      assert junk == [];
      BufferIs(zl[..], p + 1, tail, len, Data([], ns[..i]));
      assert zl[..][..HEADER_SIZE] == zl[..HEADER_SIZE] && zl[..][HEADER_SIZE..] == zl[HEADER_SIZE..];
    }

    /** `__zipListDelete`: remove up to `num` entries from the one at `p` on. */
    method Delete(p: nat, num: nat, ghost i: nat)
      requires Valid() && i < |entries| && p == HEADER_SIZE + Offset(entries, i)
      requires HEADER_SIZE + Size(ZipNodes.Delete(entries, i, num)) + 1 <= UINT32_MAX
      modifies this, zl
      ensures Valid() && (zl == old(zl) || fresh(zl))
      ensures entries == ZipNodes.Delete(old(entries), i, num)
      ensures var j := if i + num < |old(entries)| then i + num else |old(entries)|;
              && Contents() == Cut(old(Contents()), i, j)
              && Items() == Cut(old(Items()), i, j)
              && len == if old(len) < UINT16_MAX then old(len) - (j - i) else old(len)
    {
      hide Data, AllOk, ChainedBut, Size, Offset, RawLen, Header, Text, DecodeBody, Texts, Cut, TailOff, HeadNarrow,
        Values, ZipNodes.Delete;
      ghost var ns, r := entries, ZipNodes.Delete(entries, i, num);
      ValidIsOk(ns);
      DeleteOk(ns, i, num);
      ValidIsOk(r);
      DeleteValues(ns, i, num);
      DeleteCases(ns, i, num);
      DeleteHead(ns, i, num);
      var _, prev, _ := EntryAt(p, [], ns, i);
      var q, deleted := Skip(p, num, ns, i);
      OffsetLess(ns, i, i + deleted);
      if q - p > 0 {
        if zl[q] != ZIP_END {
          DeleteInside(p, q, prev, ns, i, i + deleted);
        } else {
          DeleteToEnd(p, prev, ns, i);
        }
        entries := r;
        var l := HeaderLength();
        if l < UINT16_MAX { SetLength(l - deleted); }
      }
    }

    /** `zipListPush`. The length parameter is one byte wide at src/ziplist.c:475; it is meant
        to be as wide as that of an insertion. */
    method Push(s: seq<byte>, atHead: bool)
      requires Valid() && |s| <= UINT32_MAX
      requires HEADER_SIZE + Size(ZipNodes.Insert(entries, if atHead then 0 else |entries|, EncodeBody(s))) + 1 <= UINT32_MAX
      modifies this, zl
      ensures Valid() && fresh(zl)
      ensures Contents() == if atHead then [s] + old(Contents()) else old(Contents()) + [s]
      ensures Items() == if atHead then [Stored(s)] + old(Items()) else old(Items()) + [Stored(s)]
    {
      hide Data, AllOk, Header, EncodeBody, InsertCorner, Texts, Values, Stored, ChainedBut, TailOff, ZipNodes.Insert, HeadNarrow;
      InsertedEnds(Contents(), s);
      InsertedEnds(Items(), Stored(s));
      NoCornerAtEnds(entries, EncodeBody(s));
      OffsetZero(entries);
      OffsetAll(entries);
      if atHead {
        Insert(HEADER_SIZE, s, 0);
      } else {
        var bytes := ListBytes();
        DataLength([], entries);
        Insert(bytes - 1, s, |entries|);
      }
    }

    /** `zipListIndex`: the place counted from the front, or from the back for a negative
        index. At src/ziplist.c:487 the negative index is meant to become `(-index) - 1`. */
    method Index(index: int) returns (p: nat, found: bool)
      requires Valid()
      ensures var k := if index < 0 then |entries| + index else index;
              && (found <==> 0 <= k < |entries|)
              && (found ==> p == HEADER_SIZE + Offset(entries, k))
    {
      hide Data, AllOk, ValidNodes, Header, Offset, RawLen, TailOff;
      ValidIsOk(entries);
      OffsetZero(entries);
      if index < 0 {
        var back;
        p := TailOffset();
        LastEntry(entries);
        ByteAt(p, [], entries, if entries == [] then 0 else |entries| - 1);
        if zl[p] == ZIP_END { return p, false; }
        p, back := StepBack(p, -index - 1);
        found := back <= 0;
      } else {
        var skipped;
        p, skipped := Skip(HEADER_SIZE, index, entries, 0);
        found := zl[p] != ZIP_END;
      }
    }

    /** The backward loop of `zipListIndex` from the last entry: how many steps are left when
        there is no entry before. */
    method StepBack(t: nat, steps: nat) returns (p: nat, left: nat)
      requires Valid() && entries != [] && t == HEADER_SIZE + Offset(entries, |entries| - 1)
      ensures left == if steps < |entries| then 0 else steps - (|entries| - 1)
      ensures steps < |entries| ==> p == HEADER_SIZE + Offset(entries, |entries| - 1 - steps)
    {
      hide Data, AllOk, ValidNodes, Header, Offset, RawLen, TailOff;
      ValidIsOk(entries);
      ghost var k := |entries| - 1;
      p, left := t, steps;
      var _, prev, _ := EntryAt(p, [], entries, k);
      PrevStep(entries, k);
      while prev > 0 && left > 0
        invariant 0 <= k < |entries| && p == HEADER_SIZE + Offset(entries, k) && prev == entries[k].prev
        invariant prev == 0 <==> k == 0
        invariant left == steps - (|entries| - 1 - k)
        decreases left
      {
        PrevStep(entries, k);
        p, left, k := p - prev, left - 1, k - 1;
        var _, before, _ := EntryAt(p, [], entries, k);
        prev := before;
        PrevStep(entries, k);
      }
    }

    /** `zipListNext` from entry `i`, or from the end marker when `i` is the length. */
    method Next(p: nat, ghost i: nat) returns (q: nat, found: bool)
      requires Valid() && i <= |entries| && p == HEADER_SIZE + Offset(entries, i)
      ensures found <==> i + 1 < |entries|
      ensures found ==> q == HEADER_SIZE + Offset(entries, i + 1)
    {
      hide Data, AllOk, ValidNodes, Header, Offset, RawLen, TailOff;
      ValidIsOk(entries);
      ByteAt(p, [], entries, i);
      if zl[p] == ZIP_END { return p, false; }
      var _, _, raw := EntryAt(p, [], entries, i);
      q := p + raw;
      found := zl[q] != ZIP_END;
    }

    /** `zipListPrev`: undoes `Next`, and leads from the end marker to the last entry. */
    method Prev(p: nat, ghost i: nat) returns (q: nat, found: bool)
      requires Valid() && i <= |entries| && p == HEADER_SIZE + Offset(entries, i)
      ensures found <==> i > 0
      ensures found ==> q == HEADER_SIZE + Offset(entries, i - 1)
    {
      hide Data, AllOk, ValidNodes, Header, Offset, RawLen, TailOff;
      ValidIsOk(entries);
      OffsetZero(entries);
      OffsetLess(entries, 0, i);
      ByteAt(p, [], entries, i);
      if zl[p] == ZIP_END {
        q := TailOffset();
        LastEntry(entries);
        ByteAt(q, [], entries, if entries == [] then 0 else |entries| - 1);
        found := zl[q] != ZIP_END;
      } else if p == HEADER_SIZE {
        return p, false;
      } else {
        var _, prev, _ := EntryAt(p, [], entries, i);
        PrevStep(entries, i);
        q, found := p - prev, true;
      }
    }

    /** `zipListLen`: the header's length when that is exact, otherwise a recount, which is
        stored when it fits. */
    method Length() returns (n: nat)
      requires Valid()
      modifies this`len, zl
      ensures Valid() && n == |entries| && (n < UINT16_MAX ==> len == n)
    {
      n := HeaderLength();
      if n >= UINT16_MAX {
        n := Count();
        if n < UINT16_MAX { SetLength(n); }
      }
    }

    /** The recount of `zipListLen`. */
    method Count() returns (n: nat)
      requires Valid()
      ensures n == |entries|
    {
      hide Data, AllOk, ValidNodes, Header, Offset, RawLen, TailOff;
      ValidIsOk(entries);
      OffsetZero(entries);
      var p := HEADER_SIZE;
      n := 0;
      ByteAt(p, [], entries, 0);
      while zl[p] != ZIP_END
        invariant n <= |entries| && p == HEADER_SIZE + Offset(entries, n) && p < zl.Length
        invariant zl[p] == ZIP_END <==> n == |entries|
        decreases |entries| - n
      {
        var _, _, raw := EntryAt(p, [], entries, n);
        p, n := p + raw, n + 1;
      }
    }

    /** `zipListGet`: the payload of the entry at `p`, as a string or an integer. At
        src/ziplist.c:535-545 the output pointers are confused; the payload is meant. */
    method Get(p: nat, ghost i: nat) returns (v: Value)
      requires Valid() && i < |entries| && p == HEADER_SIZE + Offset(entries, i)
      ensures BodyOk(entries[i].body) && v == DecodeBody(entries[i].body) && v == Items()[i] && Text(v) == Contents()[i]
    {
      hide Data, AllOk, ValidNodes, Header, Offset, RawLen, TailOff, DecodeBody, Text, Texts, BodyOk;
      ValidIsOk(entries);
      TextsAt(entries, i);
      var prevSize, _, raw := EntryAt(p, [], entries, i);
      BodyBytes(p, prevSize, raw, i);
      v := DecodeBody(zl[p + prevSize..p + raw]);
    }

    lemma BodyBytes(p: nat, prevSize: nat, raw: nat, i: nat)
      requires Valid() && i < |entries| && p == HEADER_SIZE + Offset(entries, i)
      requires prevSize == (if entries[i].wide then 5 else 1) && raw == RawLen(entries[i]) && p + raw < zl.Length
      ensures prevSize <= raw && zl[p + prevSize..p + raw] == entries[i].body && BodyOk(entries[i].body)
    {
      hide Data, ValidNodes, Header, Offset, TailOff, BodyOk, PrevLenSize, PrevLen, RawEntryLength, LenSize, Flat, Size, PrevField;
      ValidIsOk(entries);
      ReadAt([], entries, i);
      assert NodeOk(entries[i]);
      AllOkParts(entries, i + 1);
      ghost var s := zl[p..];
      assert s == DataOf()[p - HEADER_SIZE..];
      BodySlice(s, PrevField(entries[i]), entries[i].body, Flat(entries[i + 1..]) + [ZIP_END]);
      SliceOfTail(zl[..], p, prevSize, raw);
      assert s == zl[..][p..] && zl[..][p + prevSize..p + raw] == zl[p + prevSize..p + raw];
    }

    /** `zipListCompare`: the entry at `p` holds `s`. The test missing at src/ziplist.c:578 is
        that the lengths agree. */
    method Compare(p: nat, s: seq<byte>, ghost i: nat) returns (same: bool)
      requires Valid() && i <= |entries| && p == HEADER_SIZE + Offset(entries, i)
      ensures same <==> i < |entries| && Contents()[i] == s
    {
      hide Data, AllOk, ValidNodes, Header, Offset, RawLen, TailOff, DecodeBody, Texts, BodyOk, Decimal, TryEncoding;
      ValidIsOk(entries);
      ByteAt(p, [], entries, i);
      if zl[p] == ZIP_END { return false; }
      var v := Get(p, i);
      same := v == Str(s);
      if v.Int? {
        IntegerText(entries[i].body, s);
        same := TryEncoding(s) == IsInt(v.value);
      }
    }

    /** `zipListFind` from the entry at `p`: the first entry holding `s` among every
        `skip + 1`-th. The numeral in `s` is parsed once, when first needed. */
    method Find(p: nat, s: seq<byte>, skip: nat, ghost i: nat) returns (q: nat, found: bool)
      requires Valid() && i <= |entries| && p == HEADER_SIZE + Offset(entries, i)
      ensures exists k: nat ::
                && FirstHit(Contents(), i, skip + 1, s, k)
                && (found <==> k < |entries|)
                && (found ==> k <= |entries| && q == HEADER_SIZE + Offset(entries, k))
    {
      hide Data, AllOk, ValidNodes, Header, Offset, RawLen, TailOff, DecodeBody, Texts, BodyOk, Decimal, TryEncoding, OnStride,
        FirstHit;
      ValidIsOk(entries);
      ghost var k := i;
      q, found := p, false;
      var skipCount := 0;
      var parsed, known := NotInt, false;
      ByteAt(q, [], entries, k);
      NotYet(Contents(), i, skip + 1, s);
      while zl[q] != ZIP_END
        invariant i <= k <= |entries| && q == HEADER_SIZE + Offset(entries, k) && q < zl.Length
        invariant zl[q] == ZIP_END <==> k == |entries|
        invariant 0 <= skipCount <= skip && OnStride(k - i + skipCount, skip + 1)
        invariant known ==> parsed == TryEncoding(s)
        invariant NoHit(Contents(), i, skip + 1, s, k)
        decreases |entries| - k
      {
        Stride(k - i, skipCount, skip + 1);
        HitOrNot(Contents(), i, skip + 1, s, k);
        if skipCount == 0 {
          var v := Get(q, k);
          match v {
            case Str(bytes) =>
              if bytes == s { return q, true; }
            case Int(n) =>
              if !known { parsed, known := TryEncoding(s), true; }
              IntegerText(entries[k].body, s);
              if parsed == IsInt(n) { return q, true; }
          }
          skipCount := skip;
        } else {
          skipCount := skipCount - 1;
        }
        var _, _, raw := EntryAt(q, [], entries, k);
        q, k := q + raw, k + 1;
      }
      HitOrNot(Contents(), i, skip + 1, s, k);
    }

    /** The place that `index`, an `unsigned int` passed on as an `int`, means in this list:
        counted from the front, or from the back when it is 2^31 or more. */
    ghost function PlaceAt(index: nat): int
      reads this
    {
      var i := UnTwos(index, 4);
      if i < 0 then |entries| + i else i
    }

    /** `zipListDeleteRange`: nothing happens when there is no entry at `index`. */
    method DeleteRange(index: nat, num: nat)
      requires Valid() && index <= UINT32_MAX
      requires var i := PlaceAt(index);
               0 <= i < |entries| ==> HEADER_SIZE + Size(ZipNodes.Delete(entries, i, num)) + 1 <= UINT32_MAX
      modifies this, zl
      ensures Valid() && (zl == old(zl) || fresh(zl))
      ensures var i := old(PlaceAt(index));
              && (!(0 <= i < |old(entries)|) ==> Contents() == old(Contents()) && Items() == old(Items()))
              && (0 <= i < |old(entries)| ==>
                    var j := if i + num < |old(entries)| then i + num else |old(entries)|;
                    && Contents() == Cut(old(Contents()), i, j)
                    && Items() == Cut(old(Items()), i, j))
    {
      hide Data, AllOk, ValidNodes, Header, Offset, TailOff, Texts, ZipNodes.Delete, Pow256;
      ghost var i := PlaceAt(index);
      var p, found := Index(UnTwos(index, 4));
      if found { Delete(p, num, i); }
    }
  }
}
