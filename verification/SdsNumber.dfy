/** Printing integers into a character buffer (src/sds.c:10-56): a loop writes the digits from
    the last to the first, and the text is reversed in place. */
module SdsNumber {
  import opened Bytes
  import opened Sequences

  /** `SDS_LLSTR_SIZE`. */
  const LLSTR_SIZE: nat := 21
  const UINT64_MAX: nat := 0xffff_ffff_ffff_ffff

  function Reversed<T>(s: seq<T>): (r: seq<T>)
    ensures |r| == |s|
  {
    if s == [] then [] else Reversed(s[1..]) + [s[0]]
  }

  lemma {:induction false} ReversedAt<T>(s: seq<T>, k: nat)
    requires k < |s|
    ensures Reversed(s)[k] == s[|s| - 1 - k]
  {
    if k < |s| - 1 { ReversedAt(s[1..], k); }
  }

  lemma {:induction false} ReversedAppend<T>(s: seq<T>, x: T)
    ensures Reversed(s + [x]) == [x] + Reversed(s)
  {
    if s == [] {
      assert [] + [x] == [x] && [x][1..] == [];
    } else {
      assert (s + [x])[1..] == s[1..] + [x];
      ReversedAppend(s[1..], x);
    }
  }

  /** The digits of `v` above those written to the buffer; none are left when `v` is 0. */
  function DigitsLeft(v: nat): seq<byte> {
    if v == 0 then [] else Digits(v)
  }

  /** The character of the last digit. */
  function LastDigit(v: nat): byte {
    ZERO + v % 10
  }

  lemma DigitsStep(v: nat)
    ensures Digits(v) == DigitsLeft(v / 10) + [LastDigit(v)]
  {
    if v < 10 { assert [] + [LastDigit(v)] == [ZERO + v]; }
  }

  /** One more digit in the buffer. */
  lemma DigitWritten(all: seq<byte>, v: nat, w: seq<byte>)
    requires all == Digits(v) + Reversed(w)
    ensures all == DigitsLeft(v / 10) + Reversed(w + [LastDigit(v)])
  {
    hide *;
    DigitsStep(v);
    ReversedAppend(w, LastDigit(v));
    GroupRight(DigitsLeft(v / 10), [LastDigit(v)], Reversed(w));
  }

  lemma NothingWritten(all: seq<byte>)
    ensures all + Reversed<byte>([]) == all
  {
  }

  /** How far the loop is: fewer than 20 characters are written while a digit is left. */
  lemma Progress(v0: nat, v: nat, w: seq<byte>)
    requires v0 <= UINT64_MAX && Digits(v0) == DigitsLeft(v) + Reversed(w)
    ensures |w| <= 20 && (v > 0 ==> |w| < 20 && DigitsLeft(v) == Digits(v))
    ensures v == 0 ==> Reversed(w) == Digits(v0)
  {
    DecimalLength(v0);
    if v == 0 { assert [] + Reversed(w) == Reversed(w); }
  }

  /** The digit loop: the digits of `v` from the last on. */
  method WriteDigits(s: array<byte>, v0: nat) returns (p: nat)
    requires v0 <= UINT64_MAX && s.Length >= LLSTR_SIZE
    modifies s
    ensures p == |Digits(v0)| <= 20 && Reversed(s[..p]) == Digits(v0)
  {
    hide Digits, DigitsLeft, Reversed, LastDigit;
    NothingWritten(Digits(v0));
    s[0] := LastDigit(v0);
    var v: nat := v0 / 10;
    p := 1;
    assert s[..1] == [] + [LastDigit(v0)];
    DigitWritten(Digits(v0), v0, []);
    Progress(v0, v, s[..p]);
    while v > 0
      invariant 0 < p <= 20 && (v > 0 ==> p < 20)
      invariant Digits(v0) == DigitsLeft(v) + Reversed(s[..p])
    {
      ghost var w := s[..p];
      Progress(v0, v, w);
      DigitWritten(Digits(v0), v, w);
      s[p] := LastDigit(v);
      assert s[..p + 1] == w + [LastDigit(v)];
      p, v := p + 1, v / 10;
      Progress(v0, v, s[..p]);
    }
    Progress(v0, v, s[..p]);
  }

  /** The in-place reversal of the first `l` characters. */
  method ReverseText(s: array<byte>, l: nat)
    requires l <= s.Length
    modifies s
    ensures s[..l] == Reversed(old(s[..l]))
    ensures s[l..] == old(s[l..])
  {
    ghost var b := s[..];
    var i, j := 0, l - 1;
    while i < j
      invariant 0 <= i <= j + 2 && i + j == l - 1
      invariant forall k | 0 <= k < i || j < k < l :: s[k] == b[l - 1 - k]
      invariant forall k | i <= k <= j || l <= k < s.Length :: s[k] == b[k]
    {
      s[i], s[j] := s[j], s[i];
      i, j := i + 1, j - 1;
    }
    forall k | 0 <= k < l ensures s[..l][k] == Reversed(b[..l])[k] {
      ReversedAt(b[..l], k);
    }
    assert old(s[..l]) == b[..l] && s[l..] == b[l..] == old(s[l..]);
  }

  /** `sdsU112str`: writes the canonical numeral and its terminator. */
  method PrintUnsigned(s: array<byte>, v: nat) returns (l: nat)
    requires v <= UINT64_MAX && s.Length >= LLSTR_SIZE
    modifies s
    ensures l + 1 <= LLSTR_SIZE && s[..l] == Decimal(v) && s[l] == 0
  {
    hide Digits, Reversed;
    l := WriteDigits(s, v);
    ghost var w := s[..l];
    s[l] := 0;
    assert s[..l] == w;
    ReverseText(s, l);
    assert s[l] == s[l..][0];
  }

  /** `sds112str`. The negation of the least value is undefined in C, so it is excluded. */
  method PrintSigned(s: array<byte>, value: int) returns (l: nat)
    requires INT64_MIN < value <= INT64_MAX && s.Length >= LLSTR_SIZE
    modifies s
    ensures l + 1 <= LLSTR_SIZE && s[..l] == Decimal(value) && s[l] == 0
  {
    hide Digits, Reversed;
    DecimalLength(value);
    l := WriteDigits(s, if value < 0 then -value else value);
    ghost var w := s[..l];
    if value < 0 {
      ReversedAppend(w, MINUS);
      s[l] := MINUS;
      assert s[..l + 1] == w + [MINUS];
      l := l + 1;
    }
    ghost var t := s[..l];
    s[l] := 0;
    assert s[..l] == t;
    ReverseText(s, l);
    assert s[l] == s[l..][0];
  }
}
