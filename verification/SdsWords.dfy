/** Unquoted words and single-quoted texts (src/sds.c:144-243), and the form in which strings are
    printed (src/sds.c:250-283). */
module SdsWords {
  import opened Bytes
  import opened SdsQuote
  import opened SdsGrammar
  import opened Wrappers

  // ---------- Unquoted words ----------

  /** A word without NUL, white space and quotes. */
  predicate PlainWord(w: seq<byte>) {
    w != [] && forall i | 0 <= i < |w| :: w[i] != NUL && !IsSpace(w[i]) && w[i] != QUOTE && w[i] != APOSTROPHE
  }

  /** Each word with white space behind it; only the last may have none. */
  function Spread(words: seq<seq<byte>>, seps: seq<seq<byte>>): seq<byte>
    requires |words| == |seps|
  {
    if words == [] then [] else words[0] + (seps[0] + Spread(words[1..], seps[1..]))
  }

  predicate Separates(seps: seq<seq<byte>>) {
    forall i | 0 <= i < |seps| :: Blank(seps[i]) && (i < |seps| - 1 ==> seps[i] != [])
  }

  /** White space that the parser takes for the end of a word. */
  predicate EndsAny(sep: seq<byte>) {
    sep == [] || EndsWord(sep[0])
  }

  function PlainItems(w: seq<byte>): (its: seq<Item>)
    ensures |its| == |w|
  {
    if w == [] then [] else [Item([w[0]], w[0])] + PlainItems(w[1..])
  }

  predicate PlainByte(c: byte) {
    c != NUL && !EndsWord(c) && c != QUOTE && c != APOSTROPHE
  }

  lemma {:induction false} PlainItemsOk(w: seq<byte>, rest: seq<byte>)
    requires forall i | 0 <= i < |w| :: PlainByte(w[i])
    ensures ItemsOk(Plain, PlainItems(w), rest) && Written(PlainItems(w)) == w && Meant(PlainItems(w)) == w
  {
    if w != [] {
      PlainItemsOk(w[1..], rest);
      assert w == [w[0]] + w[1..];
      assert PlainItems(w)[1..] == PlainItems(w[1..]);
      assert Meant(PlainItems(w)) == [w[0]] + Meant(PlainItems(w[1..]));
    }
  }

  /** What has been read stays in front of what is read later. */
  lemma {:induction false} TokenExtends(s: seq<byte>, mode: Mode, current: seq<byte>)
    ensures var r := Token(s, mode, current);
            r.Some? ==> |r.value.0| >= |current| && r.value.0[..|current|] == current
    decreases |s|
  {
    hide NextRound;
    match NextRound(s, mode, current)
    case More(mode', current', used) =>
      RoundExtends(s, mode, current);
      TokenExtends(s[used..], mode', current');
    case Done(_, _) => RoundExtends(s, mode, current);
    case Bad =>
  }

  lemma RoundExtends(s: seq<byte>, mode: Mode, current: seq<byte>)
    ensures var r := NextRound(s, mode, current);
            && (r.More? ==> |r.current| >= |current| && r.current[..|current|] == current)
            && (r.Done? ==> r.text == current)
  {
  }

  /** A word with a vertical tab or a form feed behind it goes on. */
  lemma WordGoesOn(blank: seq<byte>, w: seq<byte>, sep: seq<byte>, rest: seq<byte>)
    requires Blank(blank) && PlainWord(w) && Blank(sep) && !EndsAny(sep)
    ensures var r := Split(blank + (w + (sep + rest)));
            r.Some? ==> r.value != [] && |r.value[0]| > |w|
  {
    hide Token, NextRound;
    var t := w + (sep + rest);
    SpacesAre(blank, t);
    var longer := w + [sep[0]];
    var more := sep[1..] + rest;
    assert t == longer + more;
    PlainItemsOk(longer, more);
    ItemsRead(Plain, PlainItems(longer), more, []);
    assert [] + longer == longer;
    TokenExtends(more, Plain, longer);
  }

  /** Words joined by white space split to just those words, if and only if each run of white
      space behind a word starts with a space, tab, newline or return: a vertical tab or form
      feed there is taken into the word. */
  lemma {:induction false} WordsSplit(blank: seq<byte>, words: seq<seq<byte>>, seps: seq<seq<byte>>)
    requires |words| == |seps| && Blank(blank) && Separates(seps)
    requires forall i | 0 <= i < |words| :: PlainWord(words[i])
    ensures Split(blank + Spread(words, seps)) == Some(words) <==> forall i | 0 <= i < |seps| :: EndsAny(seps[i])
    decreases |words|
  {
    hide Split, PlainWord, EndsAny;
    if words == [] {
      NoWords(blank);
    } else {
      var w, sep, rest := words[0], seps[0], Spread(words[1..], seps[1..]);
      WordsSplit(sep, words[1..], seps[1..]);
      assert words == [w] + words[1..];
      if EndsAny(sep) {
        LastIsAlone(words, seps);
        FirstWord(blank, w, sep, rest);
        assert (forall i | 0 <= i < |seps| :: EndsAny(seps[i])) <==> forall i | 0 <= i < |seps[1..]| :: EndsAny(seps[1..][i]);
      } else {
        WordGoesOn(blank, w, sep, rest);
      }
    }
  }

  lemma NoWords(blank: seq<byte>)
    requires Blank(blank)
    ensures Spread([], []) == [] && Split(blank + []) == Some([])
  {
    SpacesAre(blank, []);
  }

  lemma LastIsAlone(words: seq<seq<byte>>, seps: seq<seq<byte>>)
    requires |words| == |seps| > 0 && Separates(seps)
    ensures seps[0] == [] ==> Spread(words[1..], seps[1..]) == []
  {
    if seps[0] == [] { assert |seps| == 1 && words[1..] == []; }
  }

  lemma FirstWord(blank: seq<byte>, w: seq<byte>, sep: seq<byte>, rest: seq<byte>)
    requires Blank(blank) && PlainWord(w) && Blank(sep) && EndsAny(sep) && (sep == [] ==> rest == [])
    ensures Split(blank + (w + (sep + rest))) == if Split(sep + rest).Some? then Some([w] + Split(sep + rest).value) else None
  {
    hide Split;
    PlainItemsOk(w, sep + rest);
    var a := Bare(PlainItems(w));
    assert sep != [] ==> (sep + rest)[0] == sep[0];
    SplitFirst(blank, a, sep + rest);
  }

  // ---------- Single quotes ----------

  /** A text between apostrophes, with a backslash in front of each apostrophe in it. */
  function SingleQuoted(x: seq<byte>): seq<byte> {
    [APOSTROPHE] + (Written(SingleItems(x)) + [APOSTROPHE])
  }

  function SingleItems(x: seq<byte>): (its: seq<Item>)
    ensures |its| == |x|
  {
    if x == [] then []
    else [if x[0] == APOSTROPHE then Item([BACKSLASH, APOSTROPHE], x[0]) else Item([x[0]], x[0])] + SingleItems(x[1..])
  }

  predicate NoNul(x: seq<byte>) {
    forall i | 0 <= i < |x| :: x[i] != NUL
  }

  lemma {:induction false} SingleItemsOk(x: seq<byte>, rest: seq<byte>)
    requires NoNul(x) && (rest != [] && rest[0] == APOSTROPHE ==> x == [] || x[|x| - 1] != BACKSLASH)
    ensures ItemsOk(InSingle, SingleItems(x), rest) && Meant(SingleItems(x)) == x
  {
    hide ItemOk, Written;
    if x != [] {
      SingleItemsOk(x[1..], rest);
      FirstSingle(x, rest);
      assert SingleItems(x)[1..] == SingleItems(x[1..]);
      assert Meant(SingleItems(x)) == [x[0]] + Meant(SingleItems(x[1..]));
    }
  }

  lemma FirstSingle(x: seq<byte>, rest: seq<byte>)
    requires x != [] && NoNul(x) && (rest != [] && rest[0] == APOSTROPHE ==> x[|x| - 1] != BACKSLASH)
    ensures ItemOk(InSingle, SingleItems(x)[0], Written(SingleItems(x[1..])) + rest)
  {
    hide Written, SingleItems;
    SingleFirstIs(x);
    if |x| > 1 {
      WrittenStarts(x[1..], rest);
    } else {
      assert x[1..] == [] && Written([]) + rest == rest by { WrittenNothing(rest); }
      SingleFirstIs([]);
    }
  }

  lemma SingleFirstIs(x: seq<byte>)
    ensures x == [] ==> SingleItems(x) == []
    ensures x != [] ==> SingleItems(x)[0] == if x[0] == APOSTROPHE then Item([BACKSLASH, APOSTROPHE], x[0]) else Item([x[0]], x[0])
  {
  }

  lemma WrittenNothing(rest: seq<byte>)
    ensures Written([]) == [] && Written([]) + rest == rest
  {
  }

  lemma WrittenStarts(x: seq<byte>, rest: seq<byte>)
    requires x != []
    ensures var s := Written(SingleItems(x)) + rest; s != [] && s[0] != APOSTROPHE
  {
  }

  lemma {:induction false} WrittenLast(x: seq<byte>, c: byte)
    requires c != APOSTROPHE
    ensures Written(SingleItems(x + [c])) == Written(SingleItems(x)) + [c]
  {
    if x == [] {
      assert [] + [c] == [c] && [c][1..] == [] && Written(SingleItems([c])) == [c] + [];
    } else {
      assert (x + [c])[1..] == x[1..] + [c];
      WrittenLast(x[1..], c);
    }
  }

  /** A single-quoted text is read back, with white space or the end behind it, if and only if
      it does not end in a backslash, which would take the closing apostrophe with it. */
  lemma SingleQuotedRead(x: seq<byte>, t: seq<byte>)
    requires NoNul(x) && (AtEnd(t) || IsSpace(t[0]))
    ensures Token(SingleQuoted(x) + t, Plain, []) == Some((x, |SingleQuoted(x)|))
       <==> x == [] || x[|x| - 1] != BACKSLASH
  {
    hide Token, SingleQuoted;
    if x == [] || x[|x| - 1] != BACKSLASH {
      SingleQuotedWhole(x, t);
    } else {
      BackslashTakesQuote(x[..|x| - 1], t);
      assert x == x[..|x| - 1] + [BACKSLASH];
    }
  }

  lemma SingleQuotedWhole(x: seq<byte>, t: seq<byte>)
    requires NoNul(x) && (AtEnd(t) || IsSpace(t[0])) && (x == [] || x[|x| - 1] != BACKSLASH)
    ensures Token(SingleQuoted(x) + t, Plain, []) == Some((x, |SingleQuoted(x)|))
  {
    hide Token, ItemsOk, SingleItems, Written, Meant, NoNul;
    var its, q := SingleItems(x), [APOSTROPHE];
    SingleItemsOk(x, q + t);
    SingleText(its);
    NoItems(q + (Written(its) + (q + t)));
    ArgRead(Quoted([], InSingle, its), t);
  }

  lemma SingleText(its: seq<Item>)
    ensures var a := Quoted([], InSingle, its);
            ArgText(a) == [APOSTROPHE] + (Written(its) + [APOSTROPHE]) && ArgMeans(a) == Meant(its)
  {
    hide Written;
    WrittenNothing([APOSTROPHE] + (Written(its) + [APOSTROPHE]));
    assert [] + Meant(its) == Meant(its);
  }

  lemma NoItems(rest: seq<byte>)
    ensures ItemsOk(Plain, [], rest)
  {
  }

  lemma BackslashTakesQuote(y: seq<byte>, t: seq<byte>)
    requires NoNul(y)
    ensures var r := Token(SingleQuoted(y + [BACKSLASH]) + t, Plain, []); r.Some? ==> r.value.0 != y + [BACKSLASH]
  {
    hide Token, ItemsOk;
    var its := SingleItems(y);
    var last := [BACKSLASH, APOSTROPHE] + t;
    WrittenLast(y, BACKSLASH);
    SingleItemsOk(y, last);
    assert SingleQuoted(y + [BACKSLASH]) + t == [APOSTROPHE] + (Written(its) + last);
    QuoteOpens(InSingle, Written(its) + last, []);
    ItemsRead(InSingle, its, last, []);
    assert [] + y == y;
    ItemRead(InSingle, Item([BACKSLASH, APOSTROPHE], APOSTROPHE), t, y);
    TokenRound(last, InSingle, y);
    assert last[2..] == t;
    TokenExtends(t, InSingle, y + [APOSTROPHE]);
    var r := Token(SingleQuoted(y + [BACKSLASH]) + t, Plain, []);
    if r.Some? {
      assert r.value.0[..|y| + 1] == y + [APOSTROPHE];
      assert r.value.0[|y|] == (y + [APOSTROPHE])[|y|] == APOSTROPHE != (y + [BACKSLASH])[|y|];
    }
  }

  lemma TokenRound(s: seq<byte>, mode: Mode, current: seq<byte>)
    ensures var r := NextRound(s, mode, current);
            r.More? ==> Token(s, mode, current) == After(r.used, Token(s[r.used..], r.mode, r.current))
  {
    hide NextRound;
  }

  // ---------- The printed form ----------

  /** The bytes that are always printed as an escape. */
  predicate Special(c: byte) {
    || c == BACKSLASH || c == QUOTE || c == NEWLINE || c == RETURN || c == TAB || c == BELL || c == BACKSPACE
  }

  predicate LowerHex(c: byte) {
    48 <= c <= 57 || 97 <= c <= 102
  }

  /** Each special byte takes two bytes, any other printable one stands for itself, and just
      the others are written with two lower-case hexadecimal digits. */
  lemma EscapeForm(c: byte, printable: byte -> bool)
    ensures var e := Escape(c, printable);
            if Special(c) then |e| == 2 && e[0] == BACKSLASH && Means(e[1], c)
            else if printable(c) then e == [c]
            else |e| == 4 && e[..2] == [BACKSLASH, LETTER_X] && LowerHex(e[2]) && LowerHex(e[3])
                 && HexValue(e[2]) * 16 + HexValue(e[3]) == c
  {
    if Special(c) {
      assert Escape(c, printable)[0] == BACKSLASH;
    } else if !printable(c) {
      HexRead(c, []);
      var e := Escape(c, printable);
      assert e + [] == e;
    }
  }

  /** A text of printable bytes without special ones is printed as it is, between quotes. */
  lemma {:induction false} PlainPrinted(x: seq<byte>, printable: byte -> bool)
    requires forall i | 0 <= i < |x| :: printable(x[i]) && !Special(x[i])
    ensures EscapeAll(x, printable) == x && Repr(x, printable) == [QUOTE] + x + [QUOTE]
  {
    if x != [] {
      EscapeForm(x[0], printable);
      PlainPrinted(x[1..], printable);
      assert x == [x[0]] + x[1..];
    }
  }

  /** The printable bytes of ASCII are among those that `isprint` holds of. */
  ghost predicate PrintsAscii(printable: byte -> bool) {
    forall c: byte | 32 <= c <= 126 :: printable(c)
  }

  /** Every byte of a printed form is printable. */
  lemma {:induction false} PrintedIsPrintable(x: seq<byte>, printable: byte -> bool)
    requires PrintsAscii(printable)
    ensures forall i | 0 <= i < |Repr(x, printable)| :: printable(Repr(x, printable)[i])
  {
    EscapesPrintable(x, printable);
  }

  lemma {:induction false} EscapesPrintable(x: seq<byte>, printable: byte -> bool)
    requires PrintsAscii(printable)
    ensures forall i | 0 <= i < |EscapeAll(x, printable)| :: printable(EscapeAll(x, printable)[i])
  {
    hide Escape;
    if x != [] {
      EscapePrintable(x[0], printable);
      EscapesPrintable(x[1..], printable);
    }
  }

  lemma EscapePrintable(c: byte, printable: byte -> bool)
    requires PrintsAscii(printable)
    ensures forall i | 0 <= i < |Escape(c, printable)| :: printable(Escape(c, printable)[i])
  {
    EscapeForm(c, printable);
  }
}
