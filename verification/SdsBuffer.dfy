/** The string buffer of src/sds.c: a header with the used and the free length, and the
    characters followed by a NUL. */
module SdsBuffer {
  import opened Bytes
  import opened Memory

  /** `SDS_MAX_PRE_ALLOC`. */
  const MAX_PRE_ALLOC: nat := 1024 * 1024

  /** The capacity for `size` bytes: twice that below `SDS_MAX_PRE_ALLOC`. */
  function Grown(size: nat): (r: nat)
    ensures r >= size
  {
    if size < MAX_PRE_ALLOC then 2 * size else size + MAX_PRE_ALLOC
  }

  /** `n` more bytes fit, or the buffer grown for them has a size of 32 bits. */
  predicate AppendFits(len: nat, free: nat, n: nat) {
    free >= n || Grown(len + n) < UINT32_MAX
  }

  /** The free length after `n` more bytes. */
  function FreeAfter(len: nat, free: nat, n: nat): nat {
    if free >= n then free - n else Grown(len + n) - (len + n)
  }

  /** Appends of these sizes, one after the other, all fit. */
  predicate AppendsFit(len: nat, free: nat, sizes: seq<nat>)
    decreases |sizes|
  {
    sizes != [] ==>
      AppendFits(len, free, sizes[0]) && AppendsFit(len + sizes[0], FreeAfter(len, free, sizes[0]), sizes[1..])
  }

  class Sds {
    var len: nat
    var free: nat
    var buf: array<byte>

    ghost predicate Valid()
      reads this, buf
    {
      buf.Length == len + free + 1 <= UINT32_MAX && buf[len] == 0
    }

    ghost function Contents(): seq<byte>
      reads this, buf
      requires Valid()
    {
      buf[..len]
    }

    /** `sdsNewLen`, and `sdsEmpty` for the empty string. */
    constructor (init: seq<byte>)
      requires |init| < UINT32_MAX
      ensures Valid() && fresh(buf) && Contents() == init && free == 0
    {
      len, free := |init|, 0;
      buf := new byte[|init| + 1](i requires 0 <= i <= |init| => if i < |init| then init[i] else 0);
    }

    /** `sdsMakeRoomFor`. At src/sds.c:651-654 the new free length is not set; it is meant to
        be. Room is at least doubled while that is below `SDS_MAX_PRE_ALLOC`. */
    method MakeRoomFor(addLen: nat)
      requires Valid() && AppendFits(len, free, addLen)
      modifies this
      ensures Valid() && (buf == old(buf) || fresh(buf))
      ensures Contents() == old(Contents()) && len == old(len) && free >= addLen
      ensures if old(free) >= addLen then buf == old(buf)
              else if len + addLen < MAX_PRE_ALLOC then len + free == 2 * (len + addLen)
              else free == addLen + MAX_PRE_ALLOC
      ensures free - addLen == FreeAfter(len, old(free), addLen)
    {
      if free >= addLen { return; }
      var newLen := len + addLen;
      if newLen < MAX_PRE_ALLOC {
        newLen := newLen * 2;
      } else {
        newLen := newLen + MAX_PRE_ALLOC;
      }
      ghost var b := buf[..];
      buf := Realloc(buf, newLen + 1);
      assert buf[..|b|][..len + 1] == b[..len + 1];
      assert buf[..len] == b[..len] && buf[len] == b[len];
      free := newLen - len;
    }

    /** `sdsCatLen`. */
    method CatLen(t: seq<byte>)
      requires Valid() && AppendFits(len, free, |t|)
      modifies this, buf
      ensures Valid() && (buf == old(buf) || fresh(buf)) && Contents() == old(Contents()) + t
      ensures len == old(len) + |t| && free == FreeAfter(old(len), old(free), |t|)
    {
      var curLen := len;
      MakeRoomFor(|t|);
      ghost var c := Contents();
      Store(buf, curLen, t);
      len, free := curLen + |t|, free - |t|;
      buf[len] := 0;
      assert buf[..len] == c + t;
    }
  }
}
