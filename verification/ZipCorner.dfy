/** The limit of insertion as written (src/ziplist.c:438-443): the buffer is resized before its
    bytes are moved. When it shrinks, bytes still to be moved may be lost by then. */
module ZipCorner {
  import opened Bytes
  import opened ZipEntry
  import opened ZipNodes
  import opened ZipBuffer
  import opened ZipData

  /** After the resize by `req + diff` bytes, the bytes from `p - diff` up to the end marker,
      which are moved next, are inside the block and have their old values. */
  ghost predicate MoveIntact(b0: seq<byte>, p: nat, req: nat, diff: int, junk: seq<byte>)
    requires HEADER_SIZE < |b0| + req + diff <= |b0| + |junk| && |b0| > HEADER_SIZE && 0 <= p - diff < |b0|
  {
    var hi, n := |b0| - 1, |b0| + req + diff;
    hi <= n && Resized(b0, n, junk)[p - diff..hi] == b0[p - diff..hi]
  }

  /** What insertion moves is what was there, whatever the block holds beyond the old bytes,
      exactly outside the corner. */
  lemma MoveIntactUnlessCorner(ns: seq<Node>, i: nat, body: seq<byte>, tail: nat, len: nat, junk: seq<byte>)
    requires ValidNodes(ns) && i < |ns| && BodyOk(body)
    requires RawLen(NewNode(ns, i, body)) + ByteDiff(ns[i], RawLen(NewNode(ns, i, body))) <= |junk|
    ensures var b0 := Header(HEADER_SIZE + Size(ns) + 1, tail, len) + Data([], ns);
            var p, req := HEADER_SIZE + Offset(ns, i), RawLen(NewNode(ns, i, body));
            var diff := ByteDiff(ns[i], req);
            && HEADER_SIZE < |b0| + req + diff <= |b0| + |junk| && |b0| > HEADER_SIZE && 0 <= p - diff < |b0|
            && (MoveIntact(b0, p, req, diff, junk) <==> !InsertCorner(ns, i, body))
  {
    hide Header, Data, Size, Flat, Resized, RawLen, NewNode, BodyOk, EndsLikeMarker, InsertCorner, Offset, ValidNodes;
    ValidIsOk(ns);
    var b0 := Header(HEADER_SIZE + Size(ns) + 1, tail, len) + Data([], ns);
    var p, req := HEADER_SIZE + Offset(ns, i), RawLen(NewNode(ns, i, body));
    var diff := ByteDiff(ns[i], req);
    DataSplit([], ns, i);
    EntryRoom(ns, i);
    NewNodeSize(ns, i, body);
    CornerIs(ns, i, body);
    LastDataByte(Header(HEADER_SIZE + Size(ns) + 1, tail, len), ns);
    if req + diff >= 0 {
      ResizedKeeps(b0, |b0| + req + diff, junk, p - diff, |b0| - 1);
    } else if req + diff == -1 {
      ResizedByOne(b0, junk, p - diff);
    }
  }

  lemma NewNodeSize(ns: seq<Node>, i: nat, body: seq<byte>)
    requires i <= |ns| && BodyOk(body)
    ensures RawLen(NewNode(ns, i, body)) >= 2
  {
  }

  lemma LastDataByte(h: seq<byte>, ns: seq<Node>)
    requires AllOk(ns) && ns != []
    ensures var b := h + Data([], ns); |b| >= 2 && (b[|b| - 2] == ZIP_END <==> EndsLikeMarker(ns))
  {
    hide Flat, NodeOk, Size;
    FlatLast(ns);
    EndOfData(h, [], ns);
  }

  lemma ResizedKeeps(b: seq<byte>, n: nat, junk: seq<byte>, lo: nat, hi: nat)
    requires |b| > HEADER_SIZE && n > HEADER_SIZE && |b| + |junk| >= n
    requires 4 <= lo <= hi <= |b| && hi < n
    ensures Resized(b, n, junk)[lo..hi] == b[lo..hi]
  {
    hide LE;
    var r := Resized(b, n, junk);
    forall k | lo <= k < hi ensures r[k] == b[k] {
      assert r[k] == (b + junk)[4..n - 1][k - 4];
    }
  }

  lemma ResizedByOne(b: seq<byte>, junk: seq<byte>, lo: nat)
    requires |b| > HEADER_SIZE + 1 && 4 <= lo < |b| - 1
    ensures Resized(b, |b| - 1, junk)[lo..|b| - 1] == b[lo..|b| - 1] <==> b[|b| - 2] == ZIP_END
  {
    hide LE;
    var n := |b| - 1;
    var r := Resized(b, n, junk);
    forall k | lo <= k < n - 1 ensures r[k] == b[k] {
      assert r[k] == (b + junk)[4..n - 1][k - 4];
    }
    assert r[n - 1] == ZIP_END;
    assert r[lo..n][n - 1 - lo] == r[n - 1] && b[lo..n][n - 1 - lo] == b[n - 1];
  }

  lemma EntryRoom(ns: seq<Node>, i: nat)
    requires ValidNodes(ns) && i < |ns|
    ensures Size(ns) >= Offset(ns, i) + (if ns[i].wide then 6 else 2)
  {
    hide Size;
    assert NodeOk(ns[i]);
    RawLenBound(ns[i..], 0);
    OffsetNext(ns, i);
  }

  /** Three appended strings, of which the first and the second need five-byte back-lengths
      behind them, and then the first deleted: the second becomes four bytes shorter, but the
      five-byte back-length behind it stays. */
  lemma StaleWideField(a: seq<byte>, b: seq<byte>, c: seq<byte>)
    requires 253 <= |a| <= 1000 && 249 <= |b| <= 252
    ensures var ns := ZipNodes.Insert(ZipNodes.Insert(ZipNodes.Insert([], 0, a), 1, b), 2, c);
            && ns == [Node(false, 0, a), Node(true, 1 + |a|, b), Node(true, 5 + |b|, c)]
            && ZipNodes.Delete(ns, 0, 1) == [Node(false, 0, b), Node(true, 1 + |b|, c)]
  {
    var one := ZipNodes.Insert([], 0, a);
    assert one == [Node(false, 0, a)];
    var two := ZipNodes.Insert(one, 1, b);
    assert two == [Node(false, 0, a), Node(true, 1 + |a|, b)];
    var ns := ZipNodes.Insert(two, 2, c);
    assert ns == [Node(false, 0, a), Node(true, 1 + |a|, b), Node(true, 5 + |b|, c)];
    assert DeleteDraft(ns, 0, 1) == [Node(false, 0, b), Node(true, 5 + |b|, c)];
    assert Cascade(DeleteDraft(ns, 0, 1), 0) == [Node(false, 0, b), Node(true, 1 + |b|, c)];
  }

  /** A string of `n` letters. */
  function Letters(n: nat): seq<byte> {
    seq(n, _ => 120)
  }

  lemma LettersBody(n: nat)
    requires 0x3f < n <= 0x3fff
    ensures |EncodeBody(Letters(n))| == n + 2 && BodyOk(EncodeBody(Letters(n)))
  {
    BodyRoundTrip(Letters(n));
  }

  lemma FiveBody()
    ensures EncodeBody([53]) == [INT_IMM_MIN + 5]
  {
    assert DigitsValue([53][..0]) == 0;
    assert NumeralValue([53]) == 5 && Decimal(5) == [53];
  }

  /** The list after three appends and a deletion. */
  function ReachedList(a: seq<byte>, b: seq<byte>, c: seq<byte>): seq<Node>
    requires |a| <= 1000 && |b| <= 1000 && |c| <= 1000
  {
    ZipNodes.Delete(ZipNodes.Insert(ZipNodes.Insert(ZipNodes.Insert([], 0, EncodeBody(a)), 1, EncodeBody(b)), 2, EncodeBody(c)),
                    0, 1)
  }

  lemma ReachedIs()
    ensures var a, b, c := EncodeBody(Letters(260)), EncodeBody(Letters(250)), EncodeBody(Letters(100));
            && |a| == 262 && |b| == 252 && |c| == 102 && BodyOk(b) && BodyOk(c)
            && ReachedList(Letters(260), Letters(250), Letters(100)) == [Node(false, 0, b), Node(true, 253, c)]
  {
    hide EncodeBody, BodyOk;
    LettersBody(260);
    LettersBody(250);
    LettersBody(100);
    StaleWideField(EncodeBody(Letters(260)), EncodeBody(Letters(250)), EncodeBody(Letters(100)));
  }

  /** The corner is reached, and the insertion goes wrong there: append 260, 250 and 100 times
      `x`, delete the first, and insert `5` in front of the last. The block has then two bytes
      fewer than before, and the move reads up to its old last data byte, which is beyond. */
  lemma CornerReached(tail: nat, len: nat, junk: seq<byte>)
    ensures var ns, body := ReachedList(Letters(260), Letters(250), Letters(100)), EncodeBody([53]);
            && ValidNodes(ns) && |ns| == 2 && InsertCorner(ns, 1, body)
            && RawLen(NewNode(ns, 1, body)) == 2 && ByteDiff(ns[1], 2) == -4
    ensures var ns := ReachedList(Letters(260), Letters(250), Letters(100));
            var b0 := Header(HEADER_SIZE + Size(ns) + 1, tail, len) + Data([], ns);
            && !MoveIntact(b0, HEADER_SIZE + Offset(ns, 1), 2, -4, junk)
            && |b0| - 1 > |Resized(b0, |b0| + 2 - 4, junk)|
  {
    hide EncodeBody, BodyOk, Header, Data, Size, Resized;
    ReachedIs();
    FiveBody();
    var ns, body := ReachedList(Letters(260), Letters(250), Letters(100)), EncodeBody([53]);
    TwoNodesValid(ns[0].body, ns[1].body);
    BodyRoundTrip([53]);
    MoveIntactUnlessCorner(ns, 1, body, tail, len, junk);
  }

  lemma TwoNodesValid(b: seq<byte>, c: seq<byte>)
    requires BodyOk(b) && BodyOk(c) && |b| == 252
    ensures ValidNodes([Node(false, 0, b), Node(true, 253, c)])
  {
    hide BodyOk;
  }
}
