/** Quoting and parsing of arguments (src/sds.c:83-248, 250-283). The parser reads a
    C string: a position at the end of the text reads the terminating NUL. */
module SdsQuote {
  import opened Bytes
  import opened Sequences
  import opened SdsBuffer
  import opened Wrappers

  const NUL: byte := 0
  const BELL: byte := 7
  const BACKSPACE: byte := 8
  const TAB: byte := 9
  const NEWLINE: byte := 10
  const RETURN: byte := 13
  const SPACE: byte := 32
  const QUOTE: byte := 34
  const APOSTROPHE: byte := 39
  const BACKSLASH: byte := 92
  const LETTER_A: byte := 97
  const LETTER_B: byte := 98
  const LETTER_N: byte := 110
  const LETTER_R: byte := 114
  const LETTER_T: byte := 116
  const LETTER_X: byte := 120

  /** `isspace` in the C locale. */
  predicate IsSpace(c: byte) {
    TAB <= c <= RETURN || c == SPACE
  }

  /** `is_hex_digit`. */
  predicate IsHex(c: byte) {
    48 <= c <= 57 || 97 <= c <= 102 || 65 <= c <= 70
  }

  /** `hex_digit_to_int`. */
  function HexValue(c: byte): (v: nat)
    ensures v < 16
  {
    if 48 <= c <= 57 then c - 48
    else if 97 <= c <= 102 then c - 87
    else if 65 <= c <= 70 then c - 55
    else 0
  }

  // ---------- The printer ----------

  /** The hexadecimal digit that `%02x` prints. */
  function HexDigit(v: nat): (c: byte)
    requires v < 16
    ensures IsHex(c) && HexValue(c) == v
  {
    if v < 10 then 48 + v else 87 + v
  }

  /** One byte as `sdsCatRepr` prints it; `printable` is `isprint`. */
  function Escape(c: byte, printable: byte -> bool): seq<byte> {
    if c == BACKSLASH || c == QUOTE then [BACKSLASH, c]
    else if c == NEWLINE then [BACKSLASH, LETTER_N]
    else if c == RETURN then [BACKSLASH, LETTER_R]
    else if c == TAB then [BACKSLASH, LETTER_T]
    else if c == BELL then [BACKSLASH, LETTER_A]
    else if c == BACKSPACE then [BACKSLASH, LETTER_B]
    else if printable(c) then [c]
    else [BACKSLASH, LETTER_X, HexDigit(c / 16), HexDigit(c % 16)]
  }

  function EscapeAll(s: seq<byte>, printable: byte -> bool): seq<byte> {
    if s == [] then [] else Escape(s[0], printable) + EscapeAll(s[1..], printable)
  }

  function Repr(s: seq<byte>, printable: byte -> bool): seq<byte> {
    [QUOTE] + EscapeAll(s, printable) + [QUOTE]
  }

  // ---------- The parser ----------

  /** The byte at offset `k`, the NUL at the end. */
  function At(s: seq<byte>, k: nat): byte
    requires k <= |s|
  {
    if k < |s| then s[k] else NUL
  }

  datatype Mode = Plain | InDouble | InSingle

  /** What one round of the inner loop does with the text from its position on. */
  datatype Round = More(mode: Mode, current: seq<byte>, used: nat) | Done(text: seq<byte>, used: nat) | Bad

  /** The byte that a backslash and `c` stand for. */
  function Unescape(c: byte): byte {
    if c == LETTER_N then NEWLINE
    else if c == LETTER_R then RETURN
    else if c == LETTER_T then TAB
    else if c == LETTER_B then BACKSPACE
    else if c == LETTER_A then BELL
    else c
  }

  /** `\xHH` at the start of the text. */
  predicate HexEscape(s: seq<byte>) {
    |s| >= 4 && s[0] == BACKSLASH && s[1] == LETTER_X && IsHex(s[2]) && IsHex(s[3])
  }

  function Closed(s: seq<byte>, current: seq<byte>): Round
    requires s != []
  {
    if At(s, 1) != NUL && !IsSpace(At(s, 1)) then Bad else Done(current, 1)
  }

  function NextRound(s: seq<byte>, mode: Mode, current: seq<byte>): (r: Round)
    ensures r.More? ==> 0 < r.used <= |s|
    ensures r.Done? ==> r.used <= |s|
  {
    var c := At(s, 0);
    match mode
    case InDouble =>
      if HexEscape(s) then More(mode, current + [HexValue(s[2]) * 16 + HexValue(s[3])], 4)
      else if c == BACKSLASH && At(s, 1) != NUL then More(mode, current + [Unescape(s[1])], 2)
      else if c == QUOTE then Closed(s, current)
      else if c == NUL then Bad
      else More(mode, current + [c], 1)
    case InSingle =>
      if c == BACKSLASH && At(s, 1) == APOSTROPHE then More(mode, current + [APOSTROPHE], 2)
      else if c == APOSTROPHE then Closed(s, current)
      else if c == NUL then Bad
      else More(mode, current + [c], 1)
    case Plain =>
      if c == SPACE || c == NEWLINE || c == RETURN || c == NUL || c == TAB then
        Done(current, if c == NUL then 0 else 1)
      else if c == QUOTE then More(InDouble, current, 1)
      else if c == APOSTROPHE then More(InSingle, current, 1)
      else More(Plain, current + [c], 1)
  }

  /** A result found `used` bytes further on. */
  function After(used: nat, r: Option<(seq<byte>, nat)>): Option<(seq<byte>, nat)> {
    if r.Some? then Some((r.value.0, used + r.value.1)) else None
  }

  /** The argument at the start of the text, and how much of the text it takes. */
  function Token(s: seq<byte>, mode: Mode, current: seq<byte>): (r: Option<(seq<byte>, nat)>)
    ensures r.Some? ==> r.value.1 <= |s|
    decreases |s|
  {
    match NextRound(s, mode, current)
    case Bad => None
    case Done(text, used) => Some((text, used))
    case More(mode', current', used) => After(used, Token(s[used..], mode', current'))
  }

  /** The length of the white space at the start of the text. */
  function Spaces(s: seq<byte>): (n: nat)
    ensures n <= |s| && (n < |s| ==> !IsSpace(s[n]))
  {
    if s != [] && IsSpace(s[0]) then 1 + Spaces(s[1..]) else 0
  }

  /** A token that starts at something other than white space or the end takes some text. */
  lemma TokenTakes(s: seq<byte>)
    requires At(s, 0) != NUL && !IsSpace(At(s, 0))
    ensures Token(s, Plain, []).Some? ==> Token(s, Plain, []).value.1 > 0
  {
  }

  /** `sdsSplitArgs`: the arguments in the text, or nothing when a quote is not closed or
      something other than white space follows one. */
  function Split(s: seq<byte>): Option<seq<seq<byte>>>
    decreases |s|
  {
    var t := s[Spaces(s)..];
    if At(t, 0) == NUL then Some([])
    else
      var r := Token(t, Plain, []);
      if r.None? then None
      else
        TokenTakes(t);
        var rest := Split(t[r.value.1..]);
        if rest.None? then None else Some([r.value.0] + rest.value)
  }

  // ---------- The round trip ----------

  /** One printed byte is read back. */
  lemma EscapeRead(c: byte, printable: byte -> bool, t: seq<byte>, current: seq<byte>)
    requires !printable(NUL)
    ensures Token(Escape(c, printable) + t, InDouble, current)
         == After(|Escape(c, printable)|, Token(t, InDouble, current + [c]))
  {
    hide Escape, NextRound;
    RoundRead(c, printable, t, current);
    var e := Escape(c, printable);
    assert (e + t)[|e|..] == t;
  }

  lemma RoundRead(c: byte, printable: byte -> bool, t: seq<byte>, current: seq<byte>)
    requires !printable(NUL)
    ensures NextRound(Escape(c, printable) + t, InDouble, current)
         == More(InDouble, current + [c], |Escape(c, printable)|)
  {
    if Escape(c, printable) == [BACKSLASH, LETTER_X, HexDigit(c / 16), HexDigit(c % 16)] {
      HexRead(c, t);
    }
  }

  lemma HexRead(c: byte, t: seq<byte>)
    ensures var s := [BACKSLASH, LETTER_X, HexDigit(c / 16), HexDigit(c % 16)] + t;
            HexEscape(s) && HexValue(s[2]) * 16 + HexValue(s[3]) == c
  {
    hide IsHex, HexValue, HexDigit;
  }

  lemma {:induction false} EscapesRead(x: seq<byte>, printable: byte -> bool, t: seq<byte>, current: seq<byte>)
    requires !printable(NUL) && (t == [] || IsSpace(t[0]))
    ensures Token(EscapeAll(x, printable) + [QUOTE] + t, InDouble, current)
         == Some((current + x, |EscapeAll(x, printable)| + 1))
  {
    hide Escape, NextRound;
    if x == [] {
      assert [] + [QUOTE] + t == [QUOTE] + t;
      ClosingQuote(t, current);
      assert current + x == current;
    } else {
      var e, es := Escape(x[0], printable), EscapeAll(x[1..], printable);
      assert EscapeAll(x, printable) + [QUOTE] + t == e + (es + [QUOTE] + t);
      EscapeRead(x[0], printable, es + [QUOTE] + t, current);
      EscapesRead(x[1..], printable, t, current + [x[0]]);
      assert current + [x[0]] + x[1..] == current + x;
    }
  }

  lemma ClosingQuote(t: seq<byte>, current: seq<byte>)
    requires t == [] || IsSpace(t[0])
    ensures Token([QUOTE] + t, InDouble, current) == Some((current, 1))
  {
    var s := [QUOTE] + t;
    assert s[0] == QUOTE && At(s, 1) == At(t, 0);
  }

  lemma ReprRead(x: seq<byte>, printable: byte -> bool, t: seq<byte>)
    requires !printable(NUL) && (t == [] || IsSpace(t[0]))
    ensures Token(Repr(x, printable) + t, Plain, []) == Some((x, |Repr(x, printable)|))
  {
    hide EscapeAll, NextRound;
    var s := Repr(x, printable) + t;
    EscapesRead(x, printable, t, []);
    assert s[1..] == EscapeAll(x, printable) + [QUOTE] + t;
    OpeningQuote(s);
    assert [] + x == x;
  }

  lemma OpeningQuote(s: seq<byte>)
    requires s != [] && s[0] == QUOTE
    ensures NextRound(s, Plain, []) == More(InDouble, [], 1)
  {
  }

  /** The printed forms, separated by single spaces. */
  function Joined(xs: seq<seq<byte>>, printable: byte -> bool): seq<byte> {
    if xs == [] then []
    else if |xs| == 1 then Repr(xs[0], printable)
    else Repr(xs[0], printable) + [SPACE] + Joined(xs[1..], printable)
  }

  /** Quoting round trip: parsing the printed forms of any byte strings gives them back. */
  lemma {:induction false} QuotingRoundTrip(xs: seq<seq<byte>>, printable: byte -> bool)
    requires !printable(NUL)
    ensures Split(Joined(xs, printable)) == Some(xs)
  {
    if xs != [] {
      var x, rest := xs[0], xs[1..];
      var t := if rest == [] then [] else [SPACE] + Joined(rest, printable);
      assert Joined(xs, printable) == Repr(x, printable) + t;
      ReprSplit(x, printable, t);
      QuotingRoundTrip(rest, printable);
      if rest != [] { SpaceFirst(Joined(rest, printable)); }
      assert xs == [x] + rest;
    }
  }

  lemma SpaceFirst(s: seq<byte>)
    ensures Split([SPACE] + s) == Split(s)
  {
    assert ([SPACE] + s)[1..] == s;
  }

  lemma ReprSplit(x: seq<byte>, printable: byte -> bool, t: seq<byte>)
    requires !printable(NUL) && (t == [] || IsSpace(t[0]))
    ensures Split(Repr(x, printable) + t) == if Split(t).Some? then Some([x] + Split(t).value) else None
  {
    hide EscapeAll, Token;
    var s := Repr(x, printable) + t;
    ReprRead(x, printable, t);
    assert Spaces(s) == 0 && s[0..] == s && s[|Repr(x, printable)|..] == t;
  }

  // ---------- The printer on a buffer ----------

  lemma {:induction false} EscapeAllAppend(s: seq<byte>, c: byte, printable: byte -> bool)
    ensures EscapeAll(s + [c], printable) == EscapeAll(s, printable) + Escape(c, printable)
  {
    hide Escape;
    if s == [] {
      assert [] + [c] == [c] && [c][1..] == [];
      assert EscapeAll([c], printable) == Escape(c, printable) + EscapeAll([], printable);
    } else {
      assert (s + [c])[1..] == s[1..] + [c];
      EscapeAllAppend(s[1..], c, printable);
    }
  }

  /** The sizes of the printed bytes, and of the closing quote. */
  function EscapeSizes(p: seq<byte>, printable: byte -> bool): seq<nat> {
    if p == [] then [1] else [|Escape(p[0], printable)|] + EscapeSizes(p[1..], printable)
  }

  lemma EscapeSizesFrom(p: seq<byte>, i: nat, printable: byte -> bool)
    requires i < |p|
    ensures EscapeSizes(p[i..], printable) == [|Escape(p[i], printable)|] + EscapeSizes(p[i + 1..], printable)
  {
    hide Escape;
    assert p[i..][0] == p[i] && p[i..][1..] == p[i + 1..];
  }

  /** The `switch` of `sdsCatRepr`. */
  method CatEscaped(s: Sds, c: byte, printable: byte -> bool)
    requires s.Valid() && AppendFits(s.len, s.free, |Escape(c, printable)|)
    modifies s, s.buf
    ensures s.Valid() && (s.buf == old(s.buf) || fresh(s.buf))
    ensures s.Contents() == old(s.Contents()) + Escape(c, printable)
    ensures s.free == FreeAfter(old(s.len), old(s.free), |Escape(c, printable)|)
  {
    if c == BACKSLASH || c == QUOTE {
      s.CatLen([BACKSLASH, c]);
    } else if c == NEWLINE {
      s.CatLen([BACKSLASH, LETTER_N]);
    } else if c == RETURN {
      s.CatLen([BACKSLASH, LETTER_R]);
    } else if c == TAB {
      s.CatLen([BACKSLASH, LETTER_T]);
    } else if c == BELL {
      s.CatLen([BACKSLASH, LETTER_A]);
    } else if c == BACKSPACE {
      s.CatLen([BACKSLASH, LETTER_B]);
    } else if printable(c) {
      s.CatLen([c]);
    } else {
      s.CatLen([BACKSLASH, LETTER_X, HexDigit(c / 16), HexDigit(c % 16)]);
    }
  }

  /** `sdsCatRepr`. */
  method CatRepr(s: Sds, p: seq<byte>, printable: byte -> bool)
    requires s.Valid() && AppendsFit(s.len, s.free, [1] + EscapeSizes(p, printable))
    modifies s, s.buf
    ensures s.Valid() && (s.buf == old(s.buf) || fresh(s.buf))
    ensures s.Contents() == old(s.Contents()) + Repr(p, printable)
  {
    hide Escape, EscapeAll, AppendFits, FreeAfter;
    ghost var before := s.Contents();
    NothingEscaped(printable);
    assert ([1] + EscapeSizes(p, printable))[1..] == EscapeSizes(p, printable) && p[0..] == p;
    s.CatLen([QUOTE]);
    assert s.Contents() == before + ([QUOTE] + EscapeAll(p[..0], printable)) by { assert p[..0] == []; }
    for i := 0 to |p|
      invariant s.Valid() && (s.buf == old(s.buf) || fresh(s.buf))
      invariant AppendsFit(s.len, s.free, EscapeSizes(p[i..], printable))
      invariant s.Contents() == before + ([QUOTE] + EscapeAll(p[..i], printable))
    {
      assert EscapeSizes(p[i..], printable)[1..] == EscapeSizes(p[i + 1..], printable) by { EscapeSizesFrom(p, i, printable); }
      CatEscaped(s, p[i], printable);
      EscapeAllAppend(p[..i], p[i], printable);
      assert p[..i + 1] == p[..i] + [p[i]];
      Attach(before, [QUOTE], EscapeAll(p[..i], printable), Escape(p[i], printable));
    }
    assert p[..|p|] == p && p[|p|..] == [];
    s.CatLen([QUOTE]);
    Attach(before, [QUOTE], EscapeAll(p, printable), [QUOTE]);
  }

  lemma NothingEscaped(printable: byte -> bool)
    ensures EscapeAll([], printable) == [] && [QUOTE] + EscapeAll([], printable) == [QUOTE]
  {
  }

  lemma Attach<T>(a: seq<T>, q: seq<T>, b: seq<T>, c: seq<T>)
    ensures a + (q + b) + c == a + (q + (b + c)) && q + (b + c) == q + b + c
  {
  }

  // ---------- The parser's loops ----------

  function ModeOf(inq: bool, insq: bool): Mode {
    if inq then InDouble else if insq then InSingle else Plain
  }

  lemma AtDrop(s: seq<byte>, p: nat, k: nat)
    requires p + k <= |s|
    ensures At(s[p..], k) == At(s, p + k)
  {
  }

  /** One round of the inner loop of `sdsSplitArgs`, at position `p`. */
  method ReadRound(line: seq<byte>, start: nat, inq0: bool, insq0: bool, current0: seq<byte>)
      returns (bad: bool, done: bool, inq: bool, insq: bool, current: seq<byte>, p: nat)
    requires start <= |line|
    ensures start <= p <= |line|
    ensures NextRound(line[start..], ModeOf(inq0, insq0), current0) ==
              if bad then Bad
              else if done then Done(current, p - start)
              else More(ModeOf(inq, insq), current, p - start)
  {
    bad, done, inq, insq, current, p := false, false, inq0, insq0, current0, start;
    var c := At(line, p);
    AtDrop(line, p, 0);
    if p < |line| { AtDrop(line, p, 1); }
    if inq {
      if c == BACKSLASH && At(line, p + 1) == LETTER_X && IsHex(At(line, p + 2)) && IsHex(At(line, p + 3)) {
        current := current + [HexValue(At(line, p + 2)) * 16 + HexValue(At(line, p + 3))];
        p := p + 3;
      } else if c == BACKSLASH && At(line, p + 1) != NUL {
        p := p + 1;
        current := current + [Unescape(At(line, p))];
      } else if c == QUOTE {
        bad := At(line, p + 1) != NUL && !IsSpace(At(line, p + 1));
        done := true;
      } else if c == NUL {
        bad := true;
      } else {
        current := current + [c];
      }
    } else if insq {
      if c == BACKSLASH && At(line, p + 1) == APOSTROPHE {
        p := p + 1;
        current := current + [APOSTROPHE];
      } else if c == APOSTROPHE {
        bad := At(line, p + 1) != NUL && !IsSpace(At(line, p + 1));
        done := true;
      } else if c == NUL {
        bad := true;
      } else {
        current := current + [c];
      }
    } else {
      if c == SPACE || c == NEWLINE || c == RETURN || c == NUL || c == TAB {
        done := true;
      } else if c == QUOTE {
        inq := true;
      } else if c == APOSTROPHE {
        insq := true;
      } else {
        current := current + [c];
      }
    }
    if At(line, p) != NUL { p := p + 1; }
  }

  /** The inner loop: one argument. */
  method ReadToken(line: seq<byte>, start: nat) returns (ok: bool, current: seq<byte>, p: nat)
    requires start <= |line|
    ensures start <= p <= |line|
    ensures Token(line[start..], Plain, []) == if ok then Some((current, (p - start) as nat)) else None
  {
    hide NextRound;
    var inq, insq, done := false, false, false;
    ok, current, p := true, [], start;
    while !done
      invariant start <= p <= |line|
      invariant Token(line[start..], Plain, []) ==
                  if done then Some((current, (p - start) as nat))
                  else After(p - start, Token(line[p..], ModeOf(inq, insq), current))
      decreases !done, |line| - p
    {
      ghost var q := p;
      var bad;
      bad, done, inq, insq, current, p := ReadRound(line, p, inq, insq, current);
      if bad { return false, current, p; }
      assert line[q..][p - q..] == line[p..];
    }
  }

  function Prepended(ts: seq<seq<byte>>, r: Option<seq<seq<byte>>>): Option<seq<seq<byte>>> {
    if r.Some? then Some(ts + r.value) else None
  }

  lemma OneMore(ts: seq<seq<byte>>, s: seq<byte>)
    ensures var t := s[Spaces(s)..];
            Prepended(ts, Split(s)) ==
              if At(t, 0) == NUL then Some(ts)
              else
                var r := Token(t, Plain, []);
                if r.None? then None else Prepended(ts + [r.value.0], Split(t[r.value.1..]))
  {
    hide Token, Spaces;
    var t := s[Spaces(s)..];
    if At(t, 0) == NUL {
      assert ts + [] == ts;
    } else if Token(t, Plain, []).Some? {
      var r := Token(t, Plain, []);
      if Split(t[r.value.1..]).Some? {
        ElementLeft(ts, r.value.0, Split(t[r.value.1..]).value);
      }
    }
  }

  lemma {:induction false} SpacesSkipped(line: seq<byte>, p: nat)
    requires p < |line|
    ensures IsSpace(line[p]) ==> Spaces(line[p..]) == 1 + Spaces(line[p + 1..])
    ensures !IsSpace(line[p]) ==> Spaces(line[p..]) == 0
  {
    assert line[p..][1..] == line[p + 1..];
  }

  /** `sdsSplitArgs`. At src/sds.c:232 the test is meant to be for a missing vector, so that
      a text without arguments gives an empty vector. */
  method SplitArgs(line: seq<byte>) returns (vector: Option<seq<seq<byte>>>)
    ensures vector == Split(line)
  {
    hide Split, Token, Spaces, NextRound;
    var p, tokens := 0, [];
    assert line[0..] == line;
    NoTokens(line);
    while true
      invariant p <= |line| && Prepended(tokens, Split(line[p..])) == Split(line)
      decreases |line| - p
    {
      OneMore(tokens, line[p..]);
      ghost var q := p;
      while At(line, p) != NUL && IsSpace(At(line, p))
        invariant q <= p <= |line| && q + Spaces(line[q..]) == p + Spaces(line[p..])
        decreases |line| - p
      {
        SpacesSkipped(line, p);
        p := p + 1;
      }
      if p < |line| { SpacesSkipped(line, p); } else { NoSpaces(); }
      assert line[q..][Spaces(line[q..])..] == line[p..];
      AtDrop(line, p, 0);
      if At(line, p) == NUL { return Some(tokens); }
      TokenTakes(line[p..]);
      ghost var s := p;
      var ok, current;
      ok, current, p := ReadToken(line, p);
      if !ok { return None; }
      assert line[s..][p - s..] == line[p..];
      tokens := tokens + [current];
    }
  }

  lemma NoSpaces()
    ensures Spaces([]) == 0
  {
  }

  lemma NoTokens(line: seq<byte>)
    ensures Prepended([], Split(line)) == Split(line)
  {
    hide Split;
    if Split(line).Some? { assert [] + Split(line).value == Split(line).value; }
  }
}
