/** The byte buffer of a ziplist: its header, `zipListResize`, and what moving and writing
    bytes does to a buffer seen as a few pieces in a row. */
module ZipBuffer {
  import opened Bytes
  import opened Memory
  import opened ZipEntry

  const HEADER_SIZE: nat := 10

  /** Total bytes, tail offset, length, then the entries and the end marker. */
  function Header(total: nat, tail: nat, len: nat): (s: seq<byte>)
    ensures |s| == HEADER_SIZE
  {
    LE(total, 4) + LE(tail, 4) + LE(len, 2)
  }

  lemma HeaderRead(total: nat, tail: nat, len: nat, d: seq<byte>)
    requires total <= UINT32_MAX && tail <= UINT32_MAX && len <= 0xffff
    ensures var b := Header(total, tail, len) + d;
            UnLE(b[..4]) == total && UnLE(b[4..8]) == tail && UnLE(b[8..10]) == len && b[10..] == d
  {
    Powers();
    DecodeLE(total, 4);
    DecodeLE(tail, 4);
    DecodeLE(len, 2);
    hide LE, UnLE;
    FourSlices(LE(total, 4), LE(tail, 4), LE(len, 2), d);
  }

  lemma FourSlices(x: seq<byte>, y: seq<byte>, z: seq<byte>, d: seq<byte>)
    requires |x| == 4 && |y| == 4 && |z| == 2
    ensures var b := x + y + z + d;
            b[..4] == x && b[4..8] == y && b[8..10] == z && b[10..] == d
  {
  }

  /** `realloc` to `n` bytes, then the new total and the end marker. `junk` is what a larger
      block happens to hold beyond the old one. */
  function Resized(b: seq<byte>, n: nat, junk: seq<byte>): (r: seq<byte>)
    requires |b| > HEADER_SIZE && n > HEADER_SIZE && |b| + |junk| >= n
    ensures |r| == n
  {
    LE(n, 4) + (b + junk)[4..n - 1] + [ZIP_END]
  }

  /** `zipListResize`. At src/ziplist.c:309 the source allocates anew; it is meant to
      reallocate and keep the bytes. */
  method Resize(a: array<byte>, n: nat) returns (r: array<byte>, ghost junk: seq<byte>)
    requires a.Length > HEADER_SIZE && n > HEADER_SIZE
    ensures fresh(r) && r.Length == n
    ensures |junk| == (if n > a.Length then n - a.Length else 0)
    ensures r[..] == Resized(a[..], n, junk)
  {
    hide LE, Put, Resized;
    r := Realloc(a, n);
    junk := if n > a.Length then r[a.Length..] else [];
    ghost var c := r[..];
    KeptBytes(a[..], c, junk);
    Store(r, 0, LE(n, 4));
    ghost var d := r[..];
    r[n - 1] := ZIP_END;
    assert r[..] == d[n - 1 := ZIP_END];
    ResizedBytes(a[..], junk, c, n);
  }

  lemma KeptBytes(a: seq<byte>, c: seq<byte>, junk: seq<byte>)
    requires if |c| <= |a| then c == a[..|c|] && junk == [] else c[..|a|] == a && junk == c[|a|..]
    ensures c == (a + junk)[..|c|]
  {
  }

  lemma ResizedBytes(a: seq<byte>, junk: seq<byte>, c: seq<byte>, n: nat)
    requires |a| > HEADER_SIZE && |c| == n > HEADER_SIZE && |a| + |junk| >= n && c == (a + junk)[..n]
    ensures Put(c, 0, LE(n, 4))[n - 1 := ZIP_END] == Resized(a, n, junk)
  {
    hide LE;
    var x := LE(n, 4);
    assert c[..0] + x == x;
    assert (a + junk)[..n][4..n - 1] == (a + junk)[4..n - 1];
    LastByte(x, c[4..], ZIP_END);
    assert c[4..][..n - 5] == c[4..n - 1];
  }

  lemma LastByte<T>(x: seq<T>, y: seq<T>, z: T)
    requires y != []
    ensures (x + y)[|x| + |y| - 1 := z] == x + y[..|y| - 1] + [z]
  {
  }

  // ---------- Buffers in pieces ----------

  /** A buffer `p + f + b + [END]`, `p` being at least the header. */
  function Pieces(p: seq<byte>, f: seq<byte>, b: seq<byte>): (r: seq<byte>)
    ensures |r| == |p| + |f| + |b| + 1
  {
    p + f + b + [ZIP_END]
  }

  /** The front of a buffer with a new total written in. */
  function NewTotal(p: seq<byte>, n: nat): (r: seq<byte>)
    requires |p| >= HEADER_SIZE
    ensures |r| == |p|
  {
    LE(n, 4) + p[4..]
  }

  /** Growing a buffer by `|junk|` bytes keeps all of it but the end marker's new place. */
  lemma Grown(p: seq<byte>, f: seq<byte>, b: seq<byte>, junk: seq<byte>)
    requires |p| >= HEADER_SIZE && junk != []
    ensures var n := |Pieces(p, f, b)| + |junk|;
            Resized(Pieces(p, f, b), n, junk)
            == NewTotal(p, n) + f + b + ([ZIP_END] + junk[..|junk| - 1]) + [ZIP_END]
  {
    var n := |Pieces(p, f, b)| + |junk|;
    assert (Pieces(p, f, b) + junk)[4..n - 1] == p[4..] + f + b + [ZIP_END] + junk[..|junk| - 1];
  }

  lemma NotGrown(p: seq<byte>, f: seq<byte>, b: seq<byte>)
    requires |p| >= HEADER_SIZE
    ensures var n := |Pieces(p, f, b)|;
            Resized(Pieces(p, f, b), n, []) == Pieces(NewTotal(p, n), f, b)
  {
    var n := |Pieces(p, f, b)|;
    assert (Pieces(p, f, b) + [])[4..n - 1] == p[4..] + f + b;
  }

  /** A resize by `grow` bytes leaves the bytes `b`, the last ones before the end marker, as they
      are: it does not shrink the buffer, or it drops only the old end marker and `b` ends with
      a byte of that value. */
  predicate Kept(grow: int, b: seq<byte>) {
    grow >= 0 || (grow == -1 && b != [] && b[|b| - 1] == ZIP_END)
  }

  lemma ShrunkByOne(p: seq<byte>, f: seq<byte>, b: seq<byte>)
    requires |p| >= HEADER_SIZE && Kept(-1, b)
    ensures var n := |Pieces(p, f, b)| - 1;
            Resized(Pieces(p, f, b), n, []) == NewTotal(p, n) + f + b
  {
    var n, c := |Pieces(p, f, b)| - 1, b[..|b| - 1];
    assert b == c + [ZIP_END];
    assert (Pieces(p, f, b) + [])[4..n - 1] == p[4..] + f + c;
  }

  lemma Middle<T>(a: seq<T>, m: seq<T>, c: seq<T>)
    ensures (a + m + c)[..|a|] == a && (a + m + c)[|a|..|a| + |m|] == m && (a + m + c)[|a| + |m|..] == c
  {
  }

  lemma WidenSlices<T>(q: seq<T>, f: seq<T>, b: seq<T>, e: seq<T>, z: T, g: seq<T>)
    requires |f| == 1 && |g| == 5 && |e| == 4
    ensures var b1 := q + f + b + e + [z];
            var b2 := b1[..|q| + 5] + b1[|q| + 1..|q| + 1 + |b|] + b1[|q| + 5 + |b|..];
            b2[..|q|] + g + b2[|q| + 5..] == q + g + b + [z]
  {
    var b1 := q + f + b + e + [z];
    assert b1 == (q + f) + b + (e + [z]);
    Middle(q + f, b, e + [z]);
    assert b1 == (q + f + b + e) + [z];
    assert b1[|q| + 5 + |b|..] == [z];
    var b2 := b1[..|q| + 5] + b + [z];
    assert b2[|q| + 5..] == b + [z];
    assert b2[..|q|] == b1[..|q|] == q;
  }

  lemma WidenMove(q: seq<byte>, f: seq<byte>, b: seq<byte>, e: seq<byte>, g: seq<byte>)
    requires |f| == 1 && |g| == 5 && |e| == 4
    ensures Put(Moved(q + f + b + e + [ZIP_END], |q| + 5, |q| + 1, |b|), |q|, g) == Pieces(q, g, b)
  {
    WidenSlices(q, f, b, e, ZIP_END, g);
  }

  /** The cascade's widening of a one-byte field `f` to the five bytes `g`. */
  lemma Widened(p: seq<byte>, f: seq<byte>, b: seq<byte>, g: seq<byte>, junk: seq<byte>)
    requires |p| >= HEADER_SIZE && |f| == 1 && |g| == 5 && |junk| == 4
    ensures var b0 := Pieces(p, f, b);
            var b1 := Resized(b0, |b0| + 4, junk);
            var b2 := Moved(b1, |p| + 5, |p| + 1, |b|);
            Put(b2, |p|, g) == Pieces(NewTotal(p, |b0| + 4), g, b)
  {
    hide *;
    Grown(p, f, b, junk);
    WidenMove(NewTotal(p, |Pieces(p, f, b)| + 4), f, b, [ZIP_END] + junk[..3], g);
  }

  /** Insertion's opening of `req` bytes in front of an entry whose back-length field `f` is
      rewritten as `g`; `gap` is what the opened bytes hold. */
  lemma Opened(p: seq<byte>, f: seq<byte>, b: seq<byte>, g: seq<byte>, req: nat, junk: seq<byte>)
      returns (gap: seq<byte>)
    requires |p| >= HEADER_SIZE && (|f| == 1 || |f| == 5) && (|g| == 1 || |g| == 5)
    requires Kept(req + |g| - |f|, b) && |junk| == (if req + |g| - |f| > 0 then req + |g| - |f| else 0)
    ensures |gap| == req
    ensures var b0, diff := Pieces(p, f, b), |g| - |f|;
            var b1 := Resized(b0, |b0| + req + diff, junk);
            var b2 := Moved(b1, |p| + req, |p| - diff, |b0| - |p| - 1 + diff);
            Put(b2, |p| + req, g) == Pieces(NewTotal(p, |b0| + req + diff) + gap, g, b)
  {
    hide *;
    OpenedResize(p, f, b, req + |g| - |f|, junk);
    var b0, diff := Pieces(p, f, b), |g| - |f|;
    gap := OpenedMove(NewTotal(p, |b0| + req + diff), f, b, Resized(b0, |b0| + req + diff, junk), g, req);
  }

  lemma OpenedResize(p: seq<byte>, f: seq<byte>, b: seq<byte>, grow: int, junk: seq<byte>)
    requires |p| >= HEADER_SIZE && Kept(grow, b) && |junk| == (if grow > 0 then grow else 0)
    ensures var n := |Pieces(p, f, b)| + grow;
            var b1 := Resized(Pieces(p, f, b), n, junk);
            |b1| == n && b1[..n - 1 - grow] == NewTotal(p, n) + f + b && b1[n - 1] == ZIP_END
    ensures grow >= -1
  {
    hide Resized, NewTotal;
    if grow == -1 {
      ShrunkByOne(p, f, b);
    } else if junk == [] {
      NotGrown(p, f, b);
      PrefixEnd(NewTotal(p, |Pieces(p, f, b)|) + f + b, [], ZIP_END);
    } else {
      Grown(p, f, b, junk);
      PrefixEnd(NewTotal(p, |Pieces(p, f, b)| + grow) + f + b, [ZIP_END] + junk[..grow - 1], ZIP_END);
    }
  }

  lemma PrefixEnd<T>(a: seq<T>, e: seq<T>, z: T)
    ensures (a + e + [z])[..|a|] == a && (a + e + [z])[|a| + |e|] == z && a + [] + [z] == a + [z]
  {
  }

  lemma OpenSlices<T>(q: seq<T>, b1: seq<T>, g: seq<T>, b: seq<T>, req: nat, moved: seq<T>, z: T)
      returns (gap: seq<T>)
    requires |b1| == |q| + |g| + |b| + req + 1 && b1[..|q|] == q && b1[|b1| - 1] == z
    requires |moved| == |g| + |b| && moved[|g|..] == b
    ensures |gap| == req
    ensures var b2 := b1[..|q| + req] + moved + b1[|q| + req + |moved|..];
            b2[..|q| + req] + g + b2[|q| + req + |g|..] == q + gap + g + b + [z]
  {
    gap := b1[|q|..|q| + req];
    assert b1[..|q| + req] == q + gap;
    assert b1[|b1| - 1..] == [z];
    var b2 := (q + gap) + moved + [z];
    assert b2[..|q| + req] == q + gap;
    assert moved == moved[..|g|] + b;
    assert b2 == (q + gap + moved[..|g|]) + (b + [z]);
    assert b2[|q| + req + |g|..] == b + [z];
  }

  lemma OpenedMove(q: seq<byte>, f: seq<byte>, b: seq<byte>, b1: seq<byte>, g: seq<byte>, req: nat)
      returns (gap: seq<byte>)
    requires |q| >= HEADER_SIZE && (|f| == 1 || |f| == 5) && (|g| == 1 || |g| == 5)
    requires |b1| == |q| + |g| + |b| + req + 1 && req + |g| - |f| >= -1
    requires b1[..|q| + |f| + |b|] == q + f + b && b1[|b1| - 1] == ZIP_END
    ensures |gap| == req
    ensures var b2 := Moved(b1, |q| + req, |q| + |f| - |g|, |g| + |b|);
            Put(b2, |q| + req, g) == Pieces(q + gap, g, b)
  {
    hide Moved, Put, Pieces;
    var src := |q| + |f| - |g|;
    assert q + f + b == q + (f + b) && |q + f + b| == |q| + |f| + |b|;
    OpenedTail(q, f, b, b1, |g| - |f|, |g| + |b|);
    PrefixOfPrefix(q, f + b, b1);
    gap := OpenSlices(q, b1, g, b, req, b1[src..src + (|g| + |b|)], ZIP_END);
    OpenUnfold(q, b1, g, b, req, src, gap);
  }

  lemma OpenUnfold(q: seq<byte>, b1: seq<byte>, g: seq<byte>, b: seq<byte>, req: nat, src: nat, gap: seq<byte>)
    requires |b1| == |q| + |g| + |b| + req + 1 && src + |g| + |b| <= |b1|
    requires var moved := b1[src..src + (|g| + |b|)];
             var b2 := b1[..|q| + req] + moved + b1[|q| + req + |moved|..];
             b2[..|q| + req] + g + b2[|q| + req + |g|..] == q + gap + g + b + [ZIP_END]
    ensures Put(Moved(b1, |q| + req, src, |g| + |b|), |q| + req, g) == Pieces(q + gap, g, b)
  {
  }

  lemma PrefixOfPrefix(q: seq<byte>, t: seq<byte>, b1: seq<byte>)
    requires |b1| >= |q| + |t| && b1[..|q| + |t|] == q + t
    ensures b1[..|q|] == q
  {
    assert b1[..|q|] == b1[..|q| + |t|][..|q|];
  }

  /** The moved block ends with the entry's bytes behind its field. */
  lemma OpenedTail(q: seq<byte>, f: seq<byte>, b: seq<byte>, b1: seq<byte>, diff: int, m: int)
    requires |q| >= HEADER_SIZE && (|f| == 1 || |f| == 5) && (|f| + diff == 1 || |f| + diff == 5)
    requires |b1| >= |q + f + b| && b1[..|q + f + b|] == q + f + b && m == |f| + |b| + diff
    ensures m >= |f| + diff && b1[|q| - diff..|q| - diff + m][|f| + diff..] == b
  {
    var s := b1[|q| - diff..|q| - diff + m];
    assert |s| == m;
    forall k | 0 <= k < |b| ensures s[|f| + diff + k] == b[k] {
      assert s[|f| + diff + k] == b1[|q| + |f| + k] == b1[..|q + f + b|][|q| + |f| + k];
    }
  }

  lemma PiecesIs(p: seq<byte>, f: seq<byte>, b: seq<byte>)
    ensures Pieces(p, f, b) == p + (f + b) + [ZIP_END]
  {
  }

  /** Moving `t`, which follows `c`, down to the end of the prefix `p` of `c`. */
  lemma ClosedMove(p: seq<byte>, c: seq<byte>, t: seq<byte>)
    requires |p| <= |c| && c[..|p|] == p
    ensures Moved(c + t + [ZIP_END], |p|, |c|, |t|)[..|p| + |t|] == p + t
  {
    var b := c + t + [ZIP_END];
    assert b[|c|..|c| + |t|] == t && b[..|p|] == p;
  }

  lemma ClosedResize(p: seq<byte>, t: seq<byte>, b: seq<byte>)
    requires |p| >= HEADER_SIZE && |b| > |p| + |t| && b[..|p| + |t|] == p + t
    ensures Resized(b, |p| + |t| + 1, []) == NewTotal(p, |p| + |t| + 1) + t + [ZIP_END]
  {
    var n := |p| + |t| + 1;
    assert (b + [])[4..n - 1] == (p + t)[4..];
  }

  /** Cutting a buffer off after `p`. */
  lemma CutOff(p: seq<byte>, x: seq<byte>)
    requires |p| >= HEADER_SIZE
    ensures Resized(p + x + [ZIP_END], |p| + 1, []) == NewTotal(p, |p| + 1) + [ZIP_END]
  {
    assert (p + x + [ZIP_END] + [])[4..|p|] == p[4..];
  }
}
