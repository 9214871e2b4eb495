/** Bytes, little-endian integers in two's complement, and decimal numerals. */
module Bytes {

  type byte = n: nat | n < 256

  function Pow256(n: nat): (r: nat)
    ensures r >= 1
  {
    if n == 0 then 1 else 256 * Pow256(n - 1)
  }

  /** The low `n` bytes of `v`, least significant first. */
  function LE(v: nat, n: nat): (s: seq<byte>)
    ensures |s| == n
    decreases n
  {
    if n == 0 then [] else [v % 256] + LE(v / 256, n - 1)
  }

  function UnLE(s: seq<byte>): nat {
    if s == [] then 0 else s[0] + 256 * UnLE(s[1..])
  }

  lemma {:induction false} UnLEBound(s: seq<byte>)
    ensures UnLE(s) < Pow256(|s|)
  {
    if s != [] { UnLEBound(s[1..]); }
  }

  lemma {:induction false} DecodeLE(v: nat, n: nat)
    requires v < Pow256(n)
    ensures UnLE(LE(v, n)) == v
    decreases n
  {
    if n > 0 {
      DecodeLE(v / 256, n - 1);
      assert LE(v, n)[1..] == LE(v / 256, n - 1);
    }
  }

  /** `v` fits in `n` bytes of two's complement. */
  predicate FitsSigned(v: int, n: nat) {
    0 <= 2 * v + Pow256(n) && 2 * v < Pow256(n)
  }

  /** The `n`-byte two's complement pattern of `v`, truncating as a C conversion does. */
  function Twos(v: int, n: nat): (r: nat)
    ensures r < Pow256(n)
  {
    v % Pow256(n)
  }

  function UnTwos(u: nat, n: nat): int {
    if 2 * u >= Pow256(n) then u - Pow256(n) else u
  }

  /** Storing a signed value in `n` bytes and loading it again. */
  function StoreSigned(v: int, n: nat): (s: seq<byte>)
    ensures |s| == n
  {
    LE(Twos(v, n), n)
  }

  function LoadSigned(s: seq<byte>): int {
    UnTwos(UnLE(s), |s|)
  }

  lemma TwosIs(v: int, n: nat)
    requires FitsSigned(v, n)
    ensures Twos(v, n) == if v < 0 then v + Pow256(n) else v
  {
    var m := Pow256(n);
    if v < 0 {
      ModPlus(v, m);
    } else {
      ModSmall(v, m);
    }
  }

  lemma ModSmall(v: nat, m: nat)
    requires v < m
    ensures v % m == v
  {
  }

  lemma ModPlus(v: int, m: int)
    requires 0 <= v + m && v < 0
    ensures v % m == v + m
  {
  }

  lemma LoadStored(v: int, n: nat)
    requires FitsSigned(v, n)
    ensures LoadSigned(StoreSigned(v, n)) == v
  {
    TwosIs(v, n);
    DecodeLE(Twos(v, n), n);
  }

  lemma LoadFits(s: seq<byte>)
    requires s != []
    ensures FitsSigned(LoadSigned(s), |s|)
  {
    UnLEBound(s);
  }

  lemma Powers()
    ensures Pow256(1) == 0x100 && Pow256(2) == 0x1_0000 && Pow256(3) == 0x100_0000
    ensures Pow256(4) == 0x1_0000_0000 && Pow256(8) == 0x1_0000_0000_0000_0000
  {
    assert Pow256(5) == 0x100_0000_0000;
    assert Pow256(7) == 0x100_0000_0000_0000;
  }

  // ---------- Decimal numerals ----------

  const ZERO: byte := 48
  const MINUS: byte := 45

  function Digits(n: nat): (s: seq<byte>)
    ensures s != []
  {
    if n < 10 then [ZERO + n] else Digits(n / 10) + [ZERO + n % 10]
  }

  /** The canonical decimal numeral of `v`. */
  function Decimal(v: int): (s: seq<byte>)
    ensures s != []
  {
    if v < 0 then [MINUS] + Digits(-v) else Digits(v)
  }

  /** The number a run of digits spells; any other byte counts as its distance from '0'. */
  function DigitsValue(s: seq<byte>): int {
    if s == [] then 0 else 10 * DigitsValue(s[..|s| - 1]) + (s[|s| - 1] - ZERO)
  }

  function NumeralValue(s: seq<byte>): int {
    if s != [] && s[0] == MINUS then -DigitsValue(s[1..]) else DigitsValue(s)
  }

  lemma {:induction false} DigitsRead(n: nat)
    ensures DigitsValue(Digits(n)) == n
    ensures forall i | 0 <= i < |Digits(n)| :: ZERO <= Digits(n)[i] <= ZERO + 9
    ensures n > 0 ==> Digits(n)[0] != ZERO
  {
    var s := Digits(n);
    if n >= 10 {
      DigitsRead(n / 10);
      assert s[..|s| - 1] == Digits(n / 10);
    } else {
      assert s[..0] == [];
    }
  }

  lemma DecimalRead(v: int)
    ensures NumeralValue(Decimal(v)) == v
  {
    if v < 0 {
      DigitsRead(-v);
      assert Decimal(v)[1..] == Digits(-v);
    } else {
      DigitsRead(v);
    }
  }

  /** A numeral is canonical for at most one number. */
  lemma DecimalUnique(v: int, w: int)
    requires Decimal(v) == Decimal(w)
    ensures v == w
  {
    DecimalRead(v);
    DecimalRead(w);
  }

  lemma {:induction false} DigitsLength(n: nat, k: nat)
    requires k > 0 && n < Pow10(k)
    ensures |Digits(n)| <= k
    decreases k
  {
    if n >= 10 {
      DigitsLength(n / 10, k - 1);
    }
  }

  function Pow10(k: nat): (r: nat)
    ensures r >= 1
  {
    if k == 0 then 1 else 10 * Pow10(k - 1)
  }

  const UINT32_MAX: nat := 0xffff_ffff
  const INT64_MIN: int := -0x8000_0000_0000_0000
  const INT64_MAX: int := 0x7fff_ffff_ffff_ffff

  predicate IsInt64(v: int) {
    INT64_MIN <= v <= INT64_MAX
  }

  /** The numeral of a 64-bit integer has at most 20 characters. */
  lemma DecimalLength(v: int)
    requires -0x1_0000_0000_0000_0000 < v < 0x1_0000_0000_0000_0000
    ensures |Decimal(v)| <= if v < 0 then 21 else 20
    ensures INT64_MIN <= v <= INT64_MAX ==> |Decimal(v)| <= 20
  {
    Pow10Of20();
    DigitsLength(if v < 0 then -v else v, 20);
    if INT64_MIN <= v <= INT64_MAX { DigitsLength(if v < 0 then -v else v, 19); }
  }

  lemma Pow10Of20()
    ensures Pow10(19) == 10_000_000_000_000_000_000
    ensures Pow10(20) == 100_000_000_000_000_000_000
  {
    assert Pow10(5) == 100_000;
    assert Pow10(10) == 10_000_000_000;
    assert Pow10(15) == 1_000_000_000_000_000;
  }

  /** `string2ll`: accepts exactly the canonical decimal numerals of 64-bit integers. */
  datatype ParsedInt = NotInt | IsInt(value: int)

  function String2ll(s: seq<byte>): ParsedInt {
    var v := NumeralValue(s);
    if INT64_MIN <= v <= INT64_MAX && Decimal(v) == s then IsInt(v) else NotInt
  }

  lemma String2llExact(s: seq<byte>, v: int)
    ensures String2ll(s) == IsInt(v) <==> INT64_MIN <= v <= INT64_MAX && s == Decimal(v)
  {
    DecimalRead(v);
  }
}
