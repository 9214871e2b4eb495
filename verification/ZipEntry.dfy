/** The entries of a ziplist (src/ziplist.c:16-296): a back-length, a length or integer
    header, and the payload. Decoding functions take the bytes from the entry's pointer on. */
module ZipEntry {
  import opened Bytes

  const ZIP_END: byte := 255
  const BIG_LEN: nat := 254

  const STR_06B: byte := 0x00
  const STR_14B: byte := 0x40
  const STR_32B: byte := 0x80
  const STR_MASK: byte := 0xc0

  const INT_16B: byte := 0xc0
  const INT_32B: byte := 0xd0
  const INT_64B: byte := 0xe0
  const INT_24B: byte := 0xf0
  const INT_IMM_MIN: byte := 0xf1
  const INT_IMM_MAX: byte := 0xfd
  const INT_8B: byte := 0xfe

  // ---------- Back-lengths ----------

  /** `zipPrevEncodeLength` with a destination. */
  function EncodePrev(len: nat): (s: seq<byte>)
    ensures |s| == PrevSizeFor(len)
  {
    if len < BIG_LEN then [len] else EncodePrevLarge(len)
  }

  /** `zipPrevEncodeLengthForceLarge`: five bytes even for a small length. */
  function EncodePrevLarge(len: nat): (s: seq<byte>)
    ensures |s| == 5
  {
    [254] + LE(len, 4)
  }

  /** `zipPrevEncodeLength` without a destination. */
  function PrevSizeFor(len: nat): nat {
    if len < BIG_LEN then 1 else 5
  }

  /** `ZIP_DECODE_PREV_LEN_SIZE`. */
  function PrevLenSize(s: seq<byte>): nat
    requires s != []
  {
    if s[0] < BIG_LEN then 1 else 5
  }

  /** `ZIP_DECODE_PREV_LEN`. At src/ziplist.c:95 the macro stores a small length in the size;
      it is meant for the length, and read so here. */
  function PrevLen(s: seq<byte>): nat
    requires s != [] && |s| >= PrevLenSize(s)
  {
    if PrevLenSize(s) == 1 then s[0] else UnLE(s[1..5])
  }

  // ---------- Length and integer headers ----------

  function IsStr(enc: byte): bool {
    enc < STR_MASK
  }

  /** `ZIP_ENTRY_ENCODING`: the encoding byte, with the length bits of a string cleared. */
  function EncodingOf(first: byte): byte {
    if first < STR_MASK then first / 64 * 64 else first
  }

  /** `zip_int_size`. */
  function IntSize(enc: byte): nat {
    if enc == INT_8B then 1
    else if enc == INT_16B then 2
    else if enc == INT_24B then 3
    else if enc == INT_32B then 4
    else if enc == INT_64B then 8
    else 0
  }

  predicate IsImmediate(enc: byte) {
    INT_IMM_MIN <= enc <= INT_IMM_MAX
  }

  predicate KnownInt(enc: byte) {
    IntSize(enc) > 0 || IsImmediate(enc)
  }

  function LenSize(first: byte): nat {
    var enc := EncodingOf(first);
    if enc == STR_14B then 2 else if enc == STR_32B then 5 else 1
  }

  /** `ZIP_DECODE_LENGTH`: the payload length in the header that `s` starts with. */
  function PayloadLen(s: seq<byte>): nat
    requires s != [] && |s| >= LenSize(s[0])
  {
    var enc := EncodingOf(s[0]);
    if enc == STR_06B then s[0] % 64
    else if enc == STR_14B then s[0] % 64 * 256 + s[1]
    else if enc == STR_32B then s[1] * 0x100_0000 + s[2] * 0x1_0000 + s[3] * 0x100 + s[4]
    else IntSize(enc)
  }

  /** `zipEncodeLength` for a string of `n` bytes. */
  function StrHeader(n: nat): (s: seq<byte>)
    requires n <= UINT32_MAX
    ensures s != []
  {
    if n <= 0x3f then [n]
    else if n <= 0x3fff then [0x40 + n / 256, n % 256]
    else [STR_32B, n / 0x100_0000, n / 0x1_0000 % 256, n / 0x100 % 256, n % 256]
  }

  /** Reading a string header back gives the length and the size of the header. */
  lemma StrHeaderRead(n: nat, rest: seq<byte>)
    requires n <= UINT32_MAX
    ensures var s := StrHeader(n) + rest;
            && IsStr(EncodingOf(s[0])) && LenSize(s[0]) == |StrHeader(n)| && PayloadLen(s) == n
  {
    if n > 0x3fff {
      BigEndianRead(n);
    }
  }

  lemma BigEndianRead(n: nat)
    requires n <= UINT32_MAX
    ensures n / 0x100_0000 * 0x100_0000 + n / 0x1_0000 % 256 * 0x1_0000 + n / 0x100 % 256 * 0x100 + n % 256 == n
  {
    var a, b := n / 0x100, n / 0x1_0000;
    assert b == a / 256 && n / 0x100_0000 == b / 256;
  }

  // ---------- Integers ----------

  /** The encoding `zipTryEncoding` picks for a value. */
  function EncodingFor(v: int): (enc: byte)
    ensures KnownInt(enc)
  {
    if 0 <= v <= 12 then INT_IMM_MIN + v
    else if -0x80 <= v <= 0x7f then INT_8B
    else if -0x8000 <= v <= 0x7fff then INT_16B
    else if -0x80_0000 <= v <= 0x7f_ffff then INT_24B
    else if -0x8000_0000 <= v <= 0x7fff_ffff then INT_32B
    else INT_64B
  }

  /** `zipSaveInteger`. The 24-bit form is the upper three bytes of the value shifted into a
      32-bit integer. */
  function SaveInteger(v: int, enc: byte): (s: seq<byte>)
    ensures |s| == IntSize(enc)
  {
    if enc == INT_8B then StoreSigned(v, 1)
    else if enc == INT_16B then StoreSigned(v, 2)
    else if enc == INT_24B then StoreSigned(v * 256, 4)[1..]
    else if enc == INT_32B then StoreSigned(v, 4)
    else if enc == INT_64B then StoreSigned(v, 8)
    else []
  }

  /** `zipLoadInteger`. */
  function LoadInteger(s: seq<byte>, enc: byte): int
    requires |s| >= IntSize(enc) && KnownInt(enc)
  {
    if enc == INT_8B then LoadSigned(s[..1])
    else if enc == INT_16B then LoadSigned(s[..2])
    else if enc == INT_32B then LoadSigned(s[..4])
    else if enc == INT_24B then ShiftRight8(LoadSigned([0] + s[..3]))
    else if enc == INT_64B then LoadSigned(s[..8])
    else enc % 16 - 1
  }

  /** `>> 8` on a signed integer: rounds down. */
  function ShiftRight8(v: int): int {
    v / 256
  }

  lemma {:induction false} ShiftedBytes(u: nat, n: nat)
    ensures LE(u * 256, n + 1) == [0] + LE(u, n)
  {
    assert u * 256 % 256 == 0 && u * 256 / 256 == u;
  }

  lemma Save24(v: int)
    requires FitsSigned(v, 3)
    ensures SaveInteger(v, INT_24B) == StoreSigned(v, 3) && [0] + StoreSigned(v, 3) == StoreSigned(v * 256, 4)
  {
    Powers();
    TwosIs(v, 3);
    TwosIs(v * 256, 4);
    ShiftedBytes(Twos(v, 3), 3);
  }

  /** Saving an integer in the encoding picked for it and loading it gives it back. */
  lemma IntegerRead(v: int, rest: seq<byte>)
    requires IsInt64(v)
    ensures LoadInteger(SaveInteger(v, EncodingFor(v)) + rest, EncodingFor(v)) == v
  {
    Powers();
    var enc := EncodingFor(v);
    var s := SaveInteger(v, enc);
    if enc == INT_24B {
      Save24(v);
      LoadStored(v * 256, 4);
      assert [0] + (s + rest)[..3] == StoreSigned(v * 256, 4);
    } else if enc == INT_8B {
      LoadStored(v, 1);
    } else if enc == INT_16B {
      LoadStored(v, 2);
    } else if enc == INT_32B {
      LoadStored(v, 4);
    } else if enc == INT_64B {
      LoadStored(v, 8);
    }
    if IntSize(enc) > 0 { assert (s + rest)[..IntSize(enc)] == s; }
  }

  // ---------- Whole entries ----------

  /** What an entry holds. A string and an integer stand for the same bytes when the string
      is the integer's numeral. */
  datatype Value = Str(bytes: seq<byte>) | Int(value: int)

  function Text(v: Value): seq<byte> {
    match v
    case Str(s) => s
    case Int(n) => Decimal(n)
  }

  /** `zipTryEncoding`. */
  function TryEncoding(s: seq<byte>): ParsedInt {
    if |s| >= 32 || |s| == 0 then NotInt else String2ll(s)
  }

  /** Header and payload of the entry for `s`, as `__zipListInsert` writes them. */
  function EncodeBody(s: seq<byte>): (b: seq<byte>)
    requires |s| <= UINT32_MAX
  {
    match TryEncoding(s)
    case IsInt(v) => [EncodingFor(v)] + SaveInteger(v, EncodingFor(v))
    case NotInt => StrHeader(|s|) + s
  }

  /** An entry without its back-length: a known header and a payload of the length it says. */
  predicate BodyOk(b: seq<byte>) {
    && b != [] && |b| >= LenSize(b[0])
    && |b| == LenSize(b[0]) + PayloadLen(b)
    && (!IsStr(EncodingOf(b[0])) ==> KnownInt(b[0]))
  }

  function DecodeBody(b: seq<byte>): Value
    requires BodyOk(b)
  {
    var payload := b[LenSize(b[0])..];
    if IsStr(EncodingOf(b[0])) then Str(payload) else Int(LoadInteger(payload, b[0]))
  }

  /** What inserting a string stores: the 64-bit integer of which it is the numeral, if there
      is one, and otherwise the string itself. */
  ghost function Stored(s: seq<byte>): (v: Value)
    ensures Text(v) == s
  {
    if exists n :: IsInt64(n) && Decimal(n) == s then
      var n :| IsInt64(n) && Decimal(n) == s;
      Int(n)
    else
      Str(s)
  }

  lemma StoredIs(s: seq<byte>)
    ensures var p := TryEncoding(s);
            && (p.IsInt? ==> IsInt64(p.value) && Stored(s) == Int(p.value))
            && (p.NotInt? ==> Stored(s) == Str(s))
  {
    hide Decimal, String2ll;
    forall n | IsInt64(n) && Decimal(n) == s ensures TryEncoding(s) == IsInt(n) {
      DecimalLength(n);
      String2llExact(s, n);
    }
    if TryEncoding(s).IsInt? { String2llExact(s, TryEncoding(s).value); }
  }

  /** Whatever bytes are inserted, the entry written for them decodes to what they stand for. */
  lemma BodyRoundTrip(s: seq<byte>)
    requires |s| <= UINT32_MAX
    ensures BodyOk(EncodeBody(s)) && DecodeBody(EncodeBody(s)) == Stored(s) && Text(DecodeBody(EncodeBody(s))) == s
  {
    StoredIs(s);
    BodyDecodes(s);
  }

  lemma BodyDecodes(s: seq<byte>)
    requires |s| <= UINT32_MAX
    ensures BodyOk(EncodeBody(s)) && Text(DecodeBody(EncodeBody(s))) == s
    ensures DecodeBody(EncodeBody(s)) == if TryEncoding(s).IsInt? then Int(TryEncoding(s).value) else Str(s)
  {
    var b := EncodeBody(s);
    match TryEncoding(s)
    case IsInt(v) =>
      IntegerRead(v, []);
      String2llExact(s, v);
      var payload := SaveInteger(v, EncodingFor(v));
      assert b[1..] == payload && payload + [] == payload;
    case NotInt =>
      StrHeaderRead(|s|, s);
      assert b[|StrHeader(|s|)|..] == s;
  }

  /** `n` bytes of payload hold the integer; the header itself holds those from 0 to 12. */
  predicate PayloadHolds(v: int, n: nat) {
    if n == 0 then 0 <= v <= 12 else FitsSigned(v, n)
  }

  /** A header of `n` bytes holds the length of a string. */
  predicate HeaderHolds(len: nat, n: nat) {
    len < (if n == 1 then 64 else if n == 2 then 16384 else 0x1_0000_0000)
  }

  /** The entry is the shortest there is: an integer's payload has the least of the six sizes
      that holds it, and a string follows the least of the three headers that holds its length. */
  lemma BodyIsShort(s: seq<byte>)
    requires |s| <= UINT32_MAX
    ensures var b, v := EncodeBody(s), Stored(s);
            && (v.Int? ==>
                  && |b| > 0 && |b| - 1 in {0, 1, 2, 3, 4, 8} && PayloadHolds(v.value, |b| - 1)
                  && forall n: nat | n in {0, 1, 2, 3, 4, 8} && n < |b| - 1 :: !PayloadHolds(v.value, n))
            && (v.Str? ==>
                  && |b| > |s| && |b| - |s| in {1, 2, 5} && b[|b| - |s|..] == s && HeaderHolds(|s|, |b| - |s|)
                  && forall n: nat | n in {1, 2, 5} && n < |b| - |s| :: !HeaderHolds(|s|, n))
  {
    hide String2ll, SaveInteger;
    StoredIs(s);
    Powers();
    var b := EncodeBody(s);
    match TryEncoding(s)
    case IsInt(v) =>
    case NotInt => assert b[|StrHeader(|s|)|..] == s;
  }

  /** An entry: whether its back-length takes five bytes, the back-length, and the rest. */
  datatype Node = Node(wide: bool, prev: nat, body: seq<byte>)

  predicate NodeOk(n: Node) {
    BodyOk(n.body) && n.prev <= UINT32_MAX && (!n.wide ==> n.prev < BIG_LEN)
  }

  function PrevField(n: Node): (s: seq<byte>)
    requires NodeOk(n)
    ensures |s| == if n.wide then 5 else 1
  {
    if n.wide then EncodePrevLarge(n.prev) else [n.prev]
  }

  function EncodeNode(n: Node): (s: seq<byte>)
    requires NodeOk(n)
    ensures |s| == RawLen(n)
  {
    PrevField(n) + n.body
  }

  /** The size of the entry in the buffer, `zipRawEntryLength`. */
  function RawLen(n: Node): nat {
    (if n.wide then 5 else 1) + |n.body|
  }

  /** `zipRawEntryLength` on bytes. */
  function RawEntryLength(s: seq<byte>): nat
    requires s != [] && |s| > PrevLenSize(s)
    requires |s| - PrevLenSize(s) >= LenSize(s[PrevLenSize(s)])
  {
    var h := s[PrevLenSize(s)..];
    PrevLenSize(s) + LenSize(h[0]) + PayloadLen(h)
  }

  lemma PrevRead(n: Node, rest: seq<byte>)
    requires NodeOk(n)
    ensures var s := PrevField(n) + rest;
            s[0] != ZIP_END && PrevLenSize(s) == |PrevField(n)| && PrevLen(s) == n.prev
  {
    if n.wide {
      Powers();
      DecodeLE(n.prev, 4);
      assert (PrevField(n) + rest)[1..5] == LE(n.prev, 4);
    }
  }

  /** `zipEntry` on the bytes of an entry reads its fields back, and the first byte of an
      entry is never the end marker. */
  lemma EntryRead(n: Node, rest: seq<byte>)
    requires NodeOk(n)
    ensures var s := EncodeNode(n) + rest;
            && s[0] != ZIP_END
            && PrevLenSize(s) == |PrevField(n)| && PrevLen(s) == n.prev
            && |s| > PrevLenSize(s) && |s| - PrevLenSize(s) >= LenSize(s[PrevLenSize(s)])
            && s[PrevLenSize(s)] == n.body[0]
            && LenSize(n.body[0]) + PayloadLen(s[PrevLenSize(s)..]) == |n.body|
            && RawEntryLength(s) == RawLen(n)
  {
    hide PrevField, PrevLenSize, PrevLen, PayloadLen, LenSize, IsStr, EncodingOf, KnownInt;
    var s := EncodeNode(n) + rest;
    PrevRead(n, n.body + rest);
    assert s == PrevField(n) + (n.body + rest);
    var h := s[|PrevField(n)|..];
    assert h == n.body + rest;
    HeaderPrefix(n.body, rest);
  }

  lemma HeaderPrefix(b: seq<byte>, rest: seq<byte>)
    requires BodyOk(b)
    ensures (b + rest)[0] == b[0] && PayloadLen(b + rest) == PayloadLen(b)
  {
  }

  /** The bytes of an entry determine it. */
  lemma SameBytesSameNode(n: Node, m: Node, rest: seq<byte>, rest': seq<byte>)
    requires NodeOk(n) && NodeOk(m) && EncodeNode(n) + rest == EncodeNode(m) + rest'
    ensures n == m && rest == rest'
  {
    EntryRead(n, rest);
    EntryRead(m, rest');
    var s := EncodeNode(n) + rest;
    assert s[..RawLen(n)] == EncodeNode(n) && s[..RawLen(m)] == EncodeNode(m);
    assert EncodeNode(n)[|PrevField(n)|..] == n.body && EncodeNode(m)[|PrevField(m)|..] == m.body;
    assert s[RawLen(n)..] == rest && s[RawLen(m)..] == rest';
  }
}
