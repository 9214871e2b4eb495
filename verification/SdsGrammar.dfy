/** What the argument parser of src/sds.c:83-248 accepts and what it makes of it, stated by the
    parts of the text: a text is read as a list of arguments, or it ends in a quote that is
    left open or closed in the wrong place. */
module SdsGrammar {
  import opened Bytes
  import opened Sequences
  import opened SdsQuote
  import opened Wrappers

  // ---------- The parts of an argument ----------

  /** A part of the text and the byte it means. */
  datatype Item = Item(text: seq<byte>, means: byte)

  /** The text, or the C string in it, is over. */
  predicate AtEnd(s: seq<byte>) {
    s == [] || s[0] == NUL
  }

  /** White space that ends an unquoted argument: `isspace` holds of two bytes more. */
  predicate EndsWord(c: byte) {
    c == SPACE || c == TAB || c == NEWLINE || c == RETURN
  }

  /** The byte an escaped letter means. */
  predicate Means(letter: byte, c: byte) {
    if letter == LETTER_N then c == NEWLINE
    else if letter == LETTER_R then c == RETURN
    else if letter == LETTER_T then c == TAB
    else if letter == LETTER_A then c == BELL
    else if letter == LETTER_B then c == BACKSPACE
    else c == letter
  }

  /** One part outside quotes, or inside quotes, with `rest` behind it. */
  predicate ItemOk(mode: Mode, it: Item, rest: seq<byte>) {
    match mode
    case Plain =>
      it.text == [it.means] && it.means != NUL && !EndsWord(it.means) && it.means != QUOTE && it.means != APOSTROPHE
    case InSingle =>
      || (it.text == [BACKSLASH, APOSTROPHE] && it.means == APOSTROPHE)
      || (it.text == [it.means] && it.means != NUL && it.means != APOSTROPHE
          && !(it.means == BACKSLASH && rest != [] && rest[0] == APOSTROPHE))
    case InDouble =>
      || (it.text == [it.means] && it.means != NUL && it.means != QUOTE && (it.means == BACKSLASH ==> AtEnd(rest)))
      || (|it.text| == 4 && HexEscape(it.text) && it.means == HexValue(it.text[2]) * 16 + HexValue(it.text[3]))
      || (|it.text| == 2 && it.text[0] == BACKSLASH && it.text[1] != NUL && !HexEscape(it.text + rest)
          && Means(it.text[1], it.means))
  }

  function Written(its: seq<Item>): seq<byte> {
    if its == [] then [] else its[0].text + Written(its[1..])
  }

  function Meant(its: seq<Item>): (s: seq<byte>)
    ensures |s| == |its|
  {
    seq(|its|, i requires 0 <= i < |its| => its[i].means)
  }

  predicate ItemsOk(mode: Mode, its: seq<Item>, rest: seq<byte>) {
    its != [] ==> ItemOk(mode, its[0], Written(its[1..]) + rest) && ItemsOk(mode, its[1..], rest)
  }

  /** One part is read in one round. */
  lemma ItemRead(mode: Mode, it: Item, rest: seq<byte>, current: seq<byte>)
    requires ItemOk(mode, it, rest)
    ensures NextRound(it.text + rest, mode, current) == More(mode, current + [it.means], |it.text|)
  {
    var s := it.text + rest;
    assert s[|it.text|..] == rest;
    if rest != [] { assert s[|it.text|] == rest[0]; }
  }

  /** Parts that follow each other are read one after the other, and their bytes come out in
      that order. */
  lemma {:induction false} ItemsRead(mode: Mode, its: seq<Item>, rest: seq<byte>, current: seq<byte>)
    requires ItemsOk(mode, its, rest)
    ensures Token(Written(its) + rest, mode, current)
         == After(|Written(its)|, Token(rest, mode, current + Meant(its)))
    decreases |its|
  {
    hide NextRound, ItemOk;
    if its == [] {
      assert Written(its) + rest == rest && current + Meant(its) == current;
    } else {
      var it, more := its[0], Written(its[1..]) + rest;
      GroupRight(it.text, Written(its[1..]), rest);
      ItemRead(mode, it, more, current);
      assert (it.text + more)[|it.text|..] == more;
      ItemsRead(mode, its[1..], rest, current + [it.means]);
      assert current + [it.means] + Meant(its[1..]) == current + Meant(its);
    }
  }

  // ---------- Every text has parts ----------

  /** Where the parts of a mode stop. */
  predicate Stops(mode: Mode, rest: seq<byte>) {
    || AtEnd(rest)
    || match mode
       case Plain => EndsWord(rest[0]) || rest[0] == QUOTE || rest[0] == APOSTROPHE
       case InDouble => rest[0] == QUOTE
       case InSingle => rest[0] == APOSTROPHE
  }

  function MeaningOf(letter: byte): (c: byte)
    ensures Means(letter, c)
  {
    if letter == LETTER_N then NEWLINE
    else if letter == LETTER_R then RETURN
    else if letter == LETTER_T then TAB
    else if letter == LETTER_A then BELL
    else if letter == LETTER_B then BACKSPACE
    else letter
  }

  /** The first part of a text that does not stop there. */
  lemma FirstItem(mode: Mode, s: seq<byte>) returns (it: Item, rest: seq<byte>)
    requires !Stops(mode, s)
    ensures s == it.text + rest && it.text != [] && ItemOk(mode, it, rest)
  {
    if mode.InDouble? && HexEscape(s) {
      it := Item(s[..4], HexValue(s[2]) * 16 + HexValue(s[3]));
    } else if mode.InDouble? && s[0] == BACKSLASH && !AtEnd(s[1..]) {
      it := Item(s[..2], MeaningOf(s[1]));
    } else if mode.InSingle? && |s| > 1 && s[0] == BACKSLASH && s[1] == APOSTROPHE {
      it := Item(s[..2], APOSTROPHE);
    } else {
      it := Item(s[..1], s[0]);
    }
    rest := s[|it.text|..];
    assert s == it.text + rest;
  }

  /** Every text is parts up to where the mode stops. */
  lemma {:induction false} Parts(mode: Mode, s: seq<byte>) returns (its: seq<Item>, rest: seq<byte>)
    ensures s == Written(its) + rest && ItemsOk(mode, its, rest) && Stops(mode, rest)
    ensures !Stops(mode, s) ==> its != []
    decreases |s|
  {
    hide Stops, ItemOk;
    if Stops(mode, s) {
      its, rest := [], s;
      assert Written([]) + s == s;
    } else {
      var it, more := FirstItem(mode, s);
      var tail;
      tail, rest := Parts(mode, more);
      its := [it] + tail;
      assert its[1..] == tail;
      GroupRight(it.text, Written(tail), rest);
    }
  }

  // ---------- Arguments ----------

  /** An argument: parts outside quotes, and perhaps parts inside the quotes that end it. */
  datatype Arg = Bare(plain: seq<Item>) | Quoted(plain: seq<Item>, mode: Mode, inner: seq<Item>)

  function QuoteOf(mode: Mode): byte {
    if mode == InSingle then APOSTROPHE else QUOTE
  }

  function ArgText(a: Arg): seq<byte> {
    match a
    case Bare(plain) => Written(plain)
    case Quoted(plain, mode, inner) => Written(plain) + ([QuoteOf(mode)] + (Written(inner) + [QuoteOf(mode)]))
  }

  function ArgMeans(a: Arg): seq<byte> {
    match a
    case Bare(plain) => Meant(plain)
    case Quoted(plain, _, inner) => Meant(plain) + Meant(inner)
  }

  /** The argument with `rest` behind it. Quotes end an argument only before white space or the
      end, and an unquoted argument ends at white space of four kinds or the end. */
  predicate ArgOk(a: Arg, rest: seq<byte>) {
    match a
    case Bare(plain) =>
      plain != [] && ItemsOk(Plain, plain, rest) && (AtEnd(rest) || EndsWord(rest[0]))
    case Quoted(plain, mode, inner) =>
      && mode != Plain
      && ItemsOk(Plain, plain, [QuoteOf(mode)] + (Written(inner) + ([QuoteOf(mode)] + rest)))
      && ItemsOk(mode, inner, [QuoteOf(mode)] + rest)
      && (AtEnd(rest) || IsSpace(rest[0]))
  }

  /** A broken argument: quotes that are open at the end, or closed before a byte that is
      neither white space nor the end. */
  datatype Broken = Broken(plain: seq<Item>, mode: Mode, inner: seq<Item>, rest: seq<byte>)

  predicate IsBroken(s: seq<byte>, b: Broken) {
    && b.mode != Plain
    && s == Written(b.plain) + ([QuoteOf(b.mode)] + (Written(b.inner) + b.rest))
    && ItemsOk(Plain, b.plain, [QuoteOf(b.mode)] + (Written(b.inner) + b.rest))
    && ItemsOk(b.mode, b.inner, b.rest)
    && (AtEnd(b.rest)
        || (b.rest[0] == QuoteOf(b.mode) && !AtEnd(b.rest[1..]) && !IsSpace(b.rest[1])))
  }

  lemma QuoteOpens(mode: Mode, rest: seq<byte>, current: seq<byte>)
    requires mode != Plain
    ensures Token([QuoteOf(mode)] + rest, Plain, current) == After(1, Token(rest, mode, current))
  {
    var s := [QuoteOf(mode)] + rest;
    assert s[1..] == rest;
  }

  lemma QuoteCloses(mode: Mode, rest: seq<byte>, current: seq<byte>)
    requires mode != Plain
    ensures Token([QuoteOf(mode)] + rest, mode, current)
         == if AtEnd(rest) || IsSpace(rest[0]) then Some((current, 1)) else None
  {
    var s := [QuoteOf(mode)] + rest;
    assert s[0] == QuoteOf(mode) && At(s, 1) == At(rest, 0);
  }

  lemma QuoteLeftOpen(mode: Mode, rest: seq<byte>, current: seq<byte>)
    requires mode != Plain && AtEnd(rest)
    ensures Token(rest, mode, current) == None
  {
  }

  lemma WordEnds(rest: seq<byte>, current: seq<byte>)
    requires AtEnd(rest) || EndsWord(rest[0])
    ensures Token(rest, Plain, current) == Some((current, if AtEnd(rest) then 0 else 1))
  {
  }

  /** An argument is read as what it means; the white space byte that ends an unquoted one is
      taken along. */
  lemma ArgRead(a: Arg, rest: seq<byte>)
    requires ArgOk(a, rest)
    ensures var r := Token(ArgText(a) + rest, Plain, []);
            r.Some? && r.value.0 == ArgMeans(a)
            && r.value.1 == |ArgText(a)| + (if a.Bare? && !AtEnd(rest) then 1 else 0)
  {
    hide Token, ItemsOk;
    assert [] + Meant(a.plain) == Meant(a.plain);
    match a
    case Bare(plain) =>
      ItemsRead(Plain, plain, rest, []);
      WordEnds(rest, Meant(plain));
    case Quoted(plain, mode, inner) =>
      var q := [QuoteOf(mode)];
      var inside := Written(inner) + (q + rest);
      GroupAll(Written(plain), q, Written(inner), q, rest);
      ItemsRead(Plain, plain, q + inside, []);
      QuoteOpens(mode, inside, Meant(plain));
      ItemsRead(mode, inner, q + rest, Meant(plain));
      QuoteCloses(mode, rest, Meant(plain) + Meant(inner));
  }

  lemma GroupAll<T>(a: seq<T>, b: seq<T>, c: seq<T>, d: seq<T>, e: seq<T>)
    ensures a + (b + (c + d)) + e == a + (b + (c + (d + e)))
  {
  }

  lemma BrokenRead(s: seq<byte>, b: Broken)
    requires IsBroken(s, b)
    ensures Token(s, Plain, []) == None
  {
    hide Token, ItemsOk;
    assert [] + Meant(b.plain) == Meant(b.plain);
    var q := [QuoteOf(b.mode)];
    ItemsRead(Plain, b.plain, q + (Written(b.inner) + b.rest), []);
    QuoteOpens(b.mode, Written(b.inner) + b.rest, Meant(b.plain));
    ItemsRead(b.mode, b.inner, b.rest, Meant(b.plain));
    if AtEnd(b.rest) {
      QuoteLeftOpen(b.mode, b.rest, Meant(b.plain) + Meant(b.inner));
    } else {
      assert b.rest == q + b.rest[1..];
      QuoteCloses(b.mode, b.rest[1..], Meant(b.plain) + Meant(b.inner));
    }
  }

  /** A text that starts with neither white space nor the end starts with an argument or a
      broken one. */
  lemma ArgOrBroken(s: seq<byte>) returns (a: Arg, rest: seq<byte>, b: Broken, ok: bool)
    requires !AtEnd(s) && !IsSpace(s[0])
    ensures if ok then s == ArgText(a) + rest && ArgOk(a, rest) && ArgText(a) != [] else IsBroken(s, b)
  {
    hide ItemsOk;
    var plain, more := Parts(Plain, s);
    a, rest, b, ok := Bare(plain), more, Broken([], InDouble, [], []), true;
    if plain != [] { WrittenNotEmpty(plain, more); }
    if AtEnd(more) || EndsWord(more[0]) {
      assert plain == [] ==> s == more;
    } else {
      var mode := if more[0] == QUOTE then InDouble else InSingle;
      var q := [QuoteOf(mode)];
      var inner, tail := Parts(mode, more[1..]);
      assert more == q + (Written(inner) + tail);
      if !AtEnd(tail) && (AtEnd(tail[1..]) || IsSpace(tail[1])) {
        a, rest := Quoted(plain, mode, inner), tail[1..];
        assert tail == q + rest;
        GroupAll(Written(plain), q, Written(inner), q, rest);
      } else {
        b, ok := Broken(plain, mode, inner, tail), false;
      }
    }
  }

  lemma WrittenNotEmpty(its: seq<Item>, rest: seq<byte>)
    requires its != [] && ItemsOk(Plain, its, rest)
    ensures Written(its) != []
  {
  }

  // ---------- Lines ----------

  /** An argument and the white space in front of it. */
  datatype Word = Word(space: seq<byte>, arg: Arg)

  predicate Blank(s: seq<byte>) {
    forall i | 0 <= i < |s| :: IsSpace(s[i])
  }

  function LineText(ws: seq<Word>, tail: seq<byte>): seq<byte> {
    if ws == [] then tail else ws[0].space + (ArgText(ws[0].arg) + LineText(ws[1..], tail))
  }

  function LineMeans(ws: seq<Word>): seq<seq<byte>> {
    if ws == [] then [] else [ArgMeans(ws[0].arg)] + LineMeans(ws[1..])
  }

  /** Arguments that follow each other, with `tail` behind them. */
  predicate WordsOk(ws: seq<Word>, tail: seq<byte>) {
    ws != [] ==>
      && Blank(ws[0].space) && ArgText(ws[0].arg) != [] && !IsSpace(ArgText(ws[0].arg)[0])
      && ArgOk(ws[0].arg, LineText(ws[1..], tail)) && WordsOk(ws[1..], tail)
  }

  /** The text is a line of arguments, white space, and the end. */
  predicate IsLine(s: seq<byte>, ws: seq<Word>, blank: seq<byte>, end: seq<byte>) {
    s == LineText(ws, blank + end) && WordsOk(ws, blank + end) && Blank(blank) && AtEnd(end)
  }

  /** The text is arguments, white space, and a broken argument. */
  predicate IsBrokenLine(s: seq<byte>, ws: seq<Word>, blank: seq<byte>, end: seq<byte>, b: Broken) {
    && s == LineText(ws, blank + end) && WordsOk(ws, blank + end) && Blank(blank)
    && end != [] && !IsSpace(end[0]) && IsBroken(end, b)
  }

  lemma {:induction false} SpacesAre(blank: seq<byte>, rest: seq<byte>)
    requires Blank(blank) && (rest == [] || !IsSpace(rest[0]))
    ensures Spaces(blank + rest) == |blank| && (blank + rest)[|blank|..] == rest
  {
    if blank == [] {
      assert blank + rest == rest;
    } else {
      assert (blank + rest)[1..] == blank[1..] + rest;
      SpacesAre(blank[1..], rest);
    }
  }

  lemma {:induction false} SpacesBlank(s: seq<byte>)
    ensures Blank(s[..Spaces(s)])
  {
    if s != [] && IsSpace(s[0]) {
      SpacesBlank(s[1..]);
      assert s[..Spaces(s)] == [s[0]] + s[1..][..Spaces(s[1..])];
    }
  }

  lemma SplitSkips(s: seq<byte>)
    requires s != [] && IsSpace(s[0])
    ensures Split(s) == Split(s[1..])
  {
    hide Token;
    assert s[Spaces(s)..] == s[1..][Spaces(s[1..])..];
  }

  /** One argument at the start of a text. */
  lemma SplitFirst(blank: seq<byte>, a: Arg, rest: seq<byte>)
    requires Blank(blank) && ArgText(a) != [] && !IsSpace(ArgText(a)[0]) && ArgOk(a, rest)
    ensures Split(blank + (ArgText(a) + rest))
         == if Split(rest).Some? then Some([ArgMeans(a)] + Split(rest).value) else None
  {
    hide Token, ArgOk, ArgText, ArgMeans, IsSpace, Split, Spaces, Blank;
    var t := ArgText(a) + rest;
    assert t[0] == ArgText(a)[0];
    ArgRead(a, rest);
    ArgStarts(a, rest);
    SplitStep(blank, t);
    if a.Bare? && !AtEnd(rest) {
      WordEndIsSpace(a, rest);
      SplitSkips(rest);
      assert t[|ArgText(a)| + 1..] == rest[1..];
    } else {
      assert t[|ArgText(a)|..] == rest;
    }
  }

  lemma SplitStep(blank: seq<byte>, t: seq<byte>)
    requires Blank(blank) && !AtEnd(t) && !IsSpace(t[0]) && Token(t, Plain, []).Some?
    ensures var r := Token(t, Plain, []).value;
            Split(blank + t) == if Split(t[r.1..]).Some? then Some([r.0] + Split(t[r.1..]).value) else None
  {
    hide Token, IsSpace, Spaces, Blank;
    SpacesAre(blank, t);
  }

  lemma WordEndIsSpace(a: Arg, rest: seq<byte>)
    requires ArgOk(a, rest) && a.Bare? && !AtEnd(rest)
    ensures IsSpace(rest[0])
  {
  }

  lemma ArgStarts(a: Arg, rest: seq<byte>)
    requires ArgOk(a, rest) && ArgText(a) != []
    ensures ArgText(a)[0] != NUL
  {
    if a.plain != [] { assert ItemOk(Plain, a.plain[0], []); }
  }

  /** A line splits into what its arguments mean. */
  lemma {:induction false} LineSplits(s: seq<byte>, ws: seq<Word>, blank: seq<byte>, end: seq<byte>)
    requires IsLine(s, ws, blank, end)
    ensures Split(s) == Some(LineMeans(ws))
    decreases |ws|
  {
    hide Token, ArgOk, ArgText, ArgMeans;
    if ws == [] {
      SpacesAre(blank, end);
    } else {
      var rest := LineText(ws[1..], blank + end);
      LineSplits(rest, ws[1..], blank, end);
      SplitFirst(ws[0].space, ws[0].arg, rest);
    }
  }

  /** A line with a broken argument does not split. */
  lemma {:induction false} BrokenFails(s: seq<byte>, ws: seq<Word>, blank: seq<byte>, end: seq<byte>, b: Broken)
    requires IsBrokenLine(s, ws, blank, end, b)
    ensures Split(s) == None
    decreases |ws|
  {
    hide Token, ArgOk, ArgText, ArgMeans, IsBroken;
    if ws == [] {
      SpacesAre(blank, end);
      BrokenRead(end, b);
      BrokenStarts(end, b);
    } else {
      var rest := LineText(ws[1..], blank + end);
      BrokenFails(rest, ws[1..], blank, end, b);
      SplitFirst(ws[0].space, ws[0].arg, rest);
    }
  }

  lemma BrokenStarts(s: seq<byte>, b: Broken)
    requires IsBroken(s, b)
    ensures s != [] && s[0] != NUL
  {
    if b.plain != [] { assert ItemOk(Plain, b.plain[0], []); }
  }

  /** Every text is a line or has a broken argument. */
  lemma {:induction false} LineOrBroken(s: seq<byte>)
    returns (ws: seq<Word>, blank: seq<byte>, end: seq<byte>, b: Broken, ok: bool)
    ensures if ok then IsLine(s, ws, blank, end) else IsBrokenLine(s, ws, blank, end, b)
    decreases |s|
  {
    hide ArgOk, ArgText, IsBroken;
    var n := Spaces(s);
    SpacesBlank(s);
    ws, blank, end, b, ok := [], s[..n], s[n..], Broken([], InDouble, [], []), true;
    assert s == blank + end;
    if !AtEnd(end) {
      var a, rest;
      a, rest, b, ok := ArgOrBroken(end);
      if ok {
        var first := Word(blank, a);
        ws, blank, end, b, ok := LineOrBroken(rest);
        var tail := ws;
        ws := [first] + tail;
        assert ws[1..] == tail;
        assert !IsSpace(ArgText(a)[0]);
      }
    }
  }

  /** Splitting, exactly: it gives what the arguments of a line mean, and fails just on texts
      with a broken argument, a quote that is open at the end or followed by a byte that is
      neither white space nor the end. */
  lemma SplitExactly(s: seq<byte>, args: seq<seq<byte>>)
    ensures Split(s) == Some(args) <==> exists ws, blank, end :: IsLine(s, ws, blank, end) && LineMeans(ws) == args
    ensures Split(s) == None <==> exists ws, blank, end, b :: IsBrokenLine(s, ws, blank, end, b)
  {
    hide Split, IsLine, IsBrokenLine, LineMeans;
    forall ws, blank, end | IsLine(s, ws, blank, end) ensures Split(s) == Some(LineMeans(ws)) {
      LineSplits(s, ws, blank, end);
    }
    forall ws, blank, end, b | IsBrokenLine(s, ws, blank, end, b) ensures Split(s) == None {
      BrokenFails(s, ws, blank, end, b);
    }
    var ws, blank, end, b, ok := LineOrBroken(s);
    if ok { assert IsLine(s, ws, blank, end); } else { assert IsBrokenLine(s, ws, blank, end, b); }
  }
}
