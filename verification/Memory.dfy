/** `memcpy`, `memmove` and `realloc` on byte arrays. */
module Memory {
  import opened Bytes

  /** `b` with the bytes from `off` on replaced by `x`. */
  function Put(b: seq<byte>, off: nat, x: seq<byte>): (r: seq<byte>)
    requires off + |x| <= |b|
    ensures |r| == |b|
  {
    b[..off] + x + b[off + |x|..]
  }

  /** `memmove`: `n` bytes from `src` to `dst`, as if through a copy. */
  function Moved(b: seq<byte>, dst: nat, src: nat, n: nat): (r: seq<byte>)
    requires dst + n <= |b| && src + n <= |b|
    ensures |r| == |b|
  {
    b[..dst] + b[src..src + n] + b[dst + n..]
  }

  /** `memcpy` into a buffer. */
  method Store(a: array<byte>, off: nat, x: seq<byte>)
    requires off + |x| <= a.Length
    modifies a
    ensures a[..] == Put(old(a[..]), off, x)
  {
    for k := 0 to |x|
      invariant forall j | 0 <= j < a.Length :: a[j] == if off <= j < off + k then x[j - off] else old(a[j])
    {
      a[off + k] := x[k];
    }
  }

  /** Position by position, `r` is `b` after the move of `n` bytes. */
  ghost predicate IsMoved(r: seq<byte>, b: seq<byte>, dst: nat, src: nat, lo: nat, hi: nat)
    requires lo <= hi && dst + hi <= |b| && src + hi <= |b|
  {
    && |r| == |b|
    && forall j {:trigger r[j]} | 0 <= j < |b| :: r[j] == if dst + lo <= j < dst + hi then b[src + (j - dst)] else b[j]
  }

  lemma MovedAt(r: seq<byte>, b: seq<byte>, dst: nat, src: nat, n: nat)
    requires dst + n <= |b| && src + n <= |b| && IsMoved(r, b, dst, src, 0, n)
    ensures r == Moved(b, dst, src, n)
  {
    forall j | 0 <= j < |b| ensures r[j] == Moved(b, dst, src, n)[j] {
      if dst <= j < dst + n { assert r[j] == b[src + (j - dst)]; }
    }
  }

  lemma MovedOne(r: seq<byte>, b: seq<byte>, dst: nat, src: nat, lo: nat, hi: nat, k: nat)
    requires lo <= hi && dst + hi <= |b| && src + hi <= |b| && IsMoved(r, b, dst, src, lo, hi)
    requires dst + k < |b| && src + k < |b|
    ensures k == hi && dst <= src ==> IsMoved(r[dst + k := r[src + k]], b, dst, src, lo, hi + 1)
    ensures k + 1 == lo && src < dst ==> IsMoved(r[dst + k := r[src + k]], b, dst, src, k, hi)
  {
    assert (k == hi && dst <= src) || (k + 1 == lo && src < dst) ==> r[src + k] == b[src + k];
  }

  method MoveDown(a: array<byte>, dst: nat, src: nat, n: nat)
    requires dst <= src && src + n <= a.Length
    modifies a
    ensures a[..] == Moved(old(a[..]), dst, src, n)
  {
    hide IsMoved;
    ghost var b := a[..];
    NotMoved(b, dst, src, 0);
    for k := 0 to n
      invariant IsMoved(a[..], b, dst, src, 0, k)
    {
      MovedOne(a[..], b, dst, src, 0, k, k);
      ghost var r := a[..];
      a[dst + k] := a[src + k];
      assert a[..] == r[dst + k := r[src + k]];
    }
    MovedAt(a[..], b, dst, src, n);
  }

  method MoveUp(a: array<byte>, dst: nat, src: nat, n: nat)
    requires src < dst && dst + n <= a.Length
    modifies a
    ensures a[..] == Moved(old(a[..]), dst, src, n)
  {
    hide IsMoved;
    ghost var b := a[..];
    NotMoved(b, dst, src, n);
    for k := n downto 0
      invariant IsMoved(a[..], b, dst, src, k, n)
    {
      MovedOne(a[..], b, dst, src, k + 1, n, k);
      ghost var r := a[..];
      a[dst + k] := a[src + k];
      assert a[..] == r[dst + k := r[src + k]];
    }
    MovedAt(a[..], b, dst, src, n);
  }

  lemma NotMoved(b: seq<byte>, dst: nat, src: nat, k: nat)
    requires dst + k <= |b| && src + k <= |b|
    ensures IsMoved(b, b, dst, src, k, k)
  {
  }

  /** `memmove` in place: from the low end up or from the high end down. */
  method MemMove(a: array<byte>, dst: nat, src: nat, n: nat)
    requires dst + n <= a.Length && src + n <= a.Length
    modifies a
    ensures a[..] == Moved(old(a[..]), dst, src, n)
  {
    if dst <= src { MoveDown(a, dst, src, n); } else { MoveUp(a, dst, src, n); }
  }

  /** `realloc`: the bytes that fit are kept, and new ones are arbitrary. */
  method Realloc(a: array<byte>, n: nat) returns (r: array<byte>)
    ensures fresh(r) && r.Length == n
    ensures if n <= a.Length then r[..] == a[..n] else r[..a.Length] == a[..]
  {
    r := new byte[n];
    var keep := if n < a.Length then n else a.Length;
    for k := 0 to keep
      invariant forall j | 0 <= j < k :: r[j] == a[j]
    {
      r[k] := a[k];
    }
  }
}
