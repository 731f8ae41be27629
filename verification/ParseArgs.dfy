/** The shell's tokenizer: it splits a line in place at blanks, keeping a double-quoted stretch together. */
module ParseArgs {

  const MAX_ARGS := 16
  const NUL := '\0'
  const QUOTE := '"'
  const NULL := -1

  predicate Blank(c: char) { c == ' ' || c == '\t' || c == '\n' || c == '\r' }

  predicate BlankOrQuote(c: char, quoted: bool) { if quoted then c == QUOTE else Blank(c) }

  // ---------------------------------------------------------------- the tokens of a line

  /** Number of leading characters before the first one that ends a token, or all of them. */
  function Span(s: string, quoted: bool): (n: nat)
    ensures n <= |s|
    ensures n < |s| ==> BlankOrQuote(s[n], quoted)
    ensures forall i :: 0 <= i < n ==> !BlankOrQuote(s[i], quoted)
  {
    if s == "" || BlankOrQuote(s[0], quoted) then 0 else 1 + Span(s[1..], quoted)
  }

  function Skip(s: string): (r: string)
    ensures |r| <= |s| && (r == "" || !Blank(r[0]))
  {
    if s == "" || !Blank(s[0]) then s else Skip(s[1..])
  }

  /** A token and what is left of the line; the character that ended the token is dropped. */
  datatype Split = Split(token: string, rest: string)

  function Take(s: string, quoted: bool): (r: Split) {
    var n := Span(s, quoted);
    Split(s[..n], if n < |s| then s[n + 1..] else "")
  }

  /** A quoted token runs to the next quote, a bare one to the next blank. */
  function Next(s: string): (r: Split)
    requires s != ""
    ensures |r.rest| < |s|
  {
    if s[0] == QUOTE then Take(s[1..], true) else Take(s, false)
  }

  /** The first tokens of s, at most room of them. */
  function Tokens(s: string, room: nat): (ts: seq<string>)
    ensures |ts| <= room
    decreases |s|
  {
    var x := Skip(s);
    if room == 0 || x == "" then [] else [Next(x).token] + Tokens(Next(x).rest, room - 1)
  }

  // ---------------------------------------------------------------- writing tokens down

  datatype Piece = Quoted(text: string) | Bare(text: string)

  /** A line: blanks, then nothing more, or a quote that is never closed, or a piece and more line. */
  datatype Line =
    | End(blanks: string)
    | Open(blanks: string, text: string)
    | Item(blanks: string, piece: Piece, rest: Line)

  ghost predicate AllBlank(s: string) { forall i :: 0 <= i < |s| ==> Blank(s[i]) }

  /** A quoted text holds no quote; a bare one is not empty, holds no blank and does not start with a quote,
      and something blank separates it from what follows. */
  ghost predicate WellSpaced(l: Line) {
    AllBlank(l.blanks) &&
    (l.Open? ==> forall i :: 0 <= i < |l.text| ==> l.text[i] != QUOTE) &&
    (l.Item? ==>
      && WellSpaced(l.rest)
      && match l.piece
         case Quoted(text) => forall i :: 0 <= i < |text| ==> text[i] != QUOTE
         case Bare(text) =>
           && text != "" && text[0] != QUOTE && (forall i :: 0 <= i < |text| ==> !Blank(text[i]))
           && (l.rest.End? || l.rest.blanks != ""))
  }

  function Written(p: Piece): (s: string) {
    match p
    case Quoted(text) => [QUOTE] + text + [QUOTE]
    case Bare(text) => text
  }

  function Render(l: Line): (s: string) {
    match l
    case End(blanks) => blanks
    case Open(blanks, text) => blanks + ([QUOTE] + text)
    case Item(blanks, piece, rest) => blanks + Written(piece) + Render(rest)
  }

  function Texts(l: Line): (ts: seq<string>) {
    match l
    case End(_) => []
    case Open(_, text) => [text]
    case Item(_, piece, rest) => [piece.text] + Texts(rest)
  }

  lemma {:induction false} BlanksSkipped(b: string, s: string)
    requires AllBlank(b)
    ensures Skip(b + s) == Skip(s)
  {
    if b == "" {
      assert b + s == s;
    } else {
      assert (b + s)[1..] == b[1..] + s;
      BlanksSkipped(b[1..], s);
    }
  }

  lemma {:induction false} SpanStops(a: string, s: string, quoted: bool)
    requires forall i :: 0 <= i < |a| ==> !BlankOrQuote(a[i], quoted)
    requires s == "" || BlankOrQuote(s[0], quoted)
    ensures Span(a + s, quoted) == |a|
  {
    if a == "" {
      assert a + s == s;
    } else {
      assert (a + s)[1..] == a[1..] + s;
      SpanStops(a[1..], s, quoted);
    }
  }

  lemma LeadingBlanks(b: string, s: string, room: nat)
    requires AllBlank(b)
    ensures Tokens(b + s, room) == Tokens(s, room)
  {
    BlanksSkipped(b, s);
  }

  lemma TakeStops(a: string, s: string, quoted: bool)
    requires forall i :: 0 <= i < |a| ==> !BlankOrQuote(a[i], quoted)
    requires s == "" || BlankOrQuote(s[0], quoted)
    ensures Take(a + s, quoted) == Split(a, if s == "" then "" else s[1..])
  {
    SpanStops(a, s, quoted);
    assert (a + s)[..|a|] == a;
    if s != "" { assert (a + s)[|a| + 1..] == s[1..]; }
  }

  lemma QuotedFirst(text: string, tail: string, room: nat)
    requires room > 0 && forall i :: 0 <= i < |text| ==> text[i] != QUOTE
    ensures Tokens([QUOTE] + text + [QUOTE] + tail, room) == [text] + Tokens(tail, room - 1)
  {
    var s := [QUOTE] + text + [QUOTE] + tail;
    assert s[1..] == text + ([QUOTE] + tail);
    TakeStops(text, [QUOTE] + tail, true);
    assert ([QUOTE] + tail)[1..] == tail;
  }

  lemma BareFirst(text: string, tail: string, room: nat)
    requires room > 0 && text != "" && text[0] != QUOTE && forall i :: 0 <= i < |text| ==> !Blank(text[i])
    requires tail == "" || Blank(tail[0])
    ensures Tokens(text + tail, room) == [text] + Tokens(tail, room - 1)
  {
    TakeStops(text, tail, false);
    if tail != "" {
      LeadingBlanks([tail[0]], tail[1..], room - 1);
      assert [tail[0]] + tail[1..] == tail;
    }
  }

  /** The piece at the front becomes the first token. */
  lemma PieceFirst(piece: Piece, rest: Line, room: nat)
    requires room > 0 && WellSpaced(Item("", piece, rest))
    ensures Tokens(Written(piece) + Render(rest), room) == [piece.text] + Tokens(Render(rest), room - 1)
  {
    match piece
    case Quoted(text) => QuotedFirst(text, Render(rest), room);
    case Bare(text) =>
      BlankFront(rest);
      BareFirst(text, Render(rest), room);
  }

  lemma BlankFront(l: Line)
    requires WellSpaced(l) && (l.End? || l.blanks != "")
    ensures Render(l) == "" || Blank(Render(l)[0])
  {
    if l.blanks != "" { assert Render(l)[0] == l.blanks[0]; }
  }

  function Front(ts: seq<string>, room: nat): (r: seq<string>) {
    if |ts| <= room then ts else ts[..room]
  }

  lemma FrontStep(t: string, ts: seq<string>, room: nat)
    requires room > 0
    ensures Front([t] + ts, room) == [t] + Front(ts, room - 1)
  {
  }

  lemma NothingButBlanks(b: string, room: nat)
    requires AllBlank(b)
    ensures Tokens(b, room) == []
  {
    BlanksSkipped(b, "");
    assert b + "" == b;
  }

  lemma ItemFirst(blanks: string, piece: Piece, rest: Line, room: nat)
    requires room > 0 && WellSpaced(Item(blanks, piece, rest))
    ensures Tokens(Render(Item(blanks, piece, rest)), room) == [piece.text] + Tokens(Render(rest), room - 1)
  {
    LeadingBlanks(blanks, Written(piece) + Render(rest), room);
    assert Render(Item(blanks, piece, rest)) == blanks + (Written(piece) + Render(rest));
    PieceFirst(piece, rest, room);
  }

  lemma OpenLast(blanks: string, text: string, room: nat)
    requires AllBlank(blanks) && forall i :: 0 <= i < |text| ==> text[i] != QUOTE
    ensures Tokens(blanks + ([QUOTE] + text), room) == Front([text], room)
  {
    LeadingBlanks(blanks, [QUOTE] + text, room);
    assert ([QUOTE] + text)[1..] == text == text + "";
    TakeStops(text, "", true);
  }

  /** Splitting a well-spaced line gives back its texts, as many as there is room for. */
  lemma {:induction false} TokensOfRender(l: Line, room: nat)
    requires WellSpaced(l)
    ensures Tokens(Render(l), room) == Front(Texts(l), room)
  {
    match l
    case End(blanks) => NothingButBlanks(blanks, room);
    case Open(blanks, text) => OpenLast(blanks, text, room);
    case Item(blanks, piece, rest) =>
      if room > 0 {
        ItemFirst(blanks, piece, rest, room);
        TokensOfRender(rest, room - 1);
        FrontStep(piece.text, Texts(rest), room);
      }
  }

  /** The blanks at the front and the rest, which does not start with one. */
  lemma {:induction false} CutBlanks(s: string) returns (b: string)
    ensures AllBlank(b) && s == b + Skip(s)
  {
    if s == "" || !Blank(s[0]) {
      b := "";
    } else {
      var rest := CutBlanks(s[1..]);
      b := [s[0]] + rest;
      Glued(s, rest, Skip(s[1..]));
    }
  }

  lemma Glued(s: string, b: string, x: string)
    requires s != "" && s[1..] == b + x
    ensures s == [s[0]] + b + x
  {
    assert s == [s[0]] + s[1..];
  }

  /** Every line can be read as a well-spaced one, so TokensOfRender tells the tokens of every line. */
  lemma {:induction false} EveryLineRenders(s: string) returns (l: Line)
    ensures WellSpaced(l) && Render(l) == s
    decreases |s|
  {
    var b := CutBlanks(s);
    var x := Skip(s);
    if x == "" {
      l := End(b);
    } else if x[0] == QUOTE {
      l := QuotedLineOf(b, x[1..]);
      assert x == [QUOTE] + x[1..];
    } else {
      l := BareLineOf(b, x);
    }
  }

  lemma {:induction false} QuotedLineOf(b: string, y: string) returns (l: Line)
    requires AllBlank(b)
    ensures WellSpaced(l) && Render(l) == b + ([QUOTE] + y)
    decreases |y|, 0
  {
    var n := Span(y, true);
    if n == |y| {
      l := Open(b, y);
    } else {
      var rest := EveryLineRenders(y[n + 1..]);
      l := Item(b, Quoted(y[..n]), rest);
      QuotedParts(b, y, n);
    }
  }

  lemma {:induction false} BareLineOf(b: string, x: string) returns (l: Line)
    requires AllBlank(b) && x != "" && x[0] != QUOTE && !Blank(x[0])
    ensures WellSpaced(l) && Render(l) == b + x
    decreases |x|, 0
  {
    var n := Span(x, false);
    var rest := EveryLineRenders(x[n..]);
    if rest.blanks == "" && !rest.End? { SolidFront(rest); }
    l := Item(b, Bare(x[..n]), rest);
    BareParts(b, x, n);
  }

  lemma QuotedParts(b: string, y: string, n: nat)
    requires n < |y| && y[n] == QUOTE
    ensures b + ([QUOTE] + y[..n] + [QUOTE]) + y[n + 1..] == b + ([QUOTE] + y)
  {
  }

  lemma BareParts(b: string, x: string, n: nat)
    requires n <= |x|
    ensures b + x[..n] + x[n..] == b + x
  {
  }

  lemma SolidFront(l: Line)
    requires WellSpaced(l) && l.blanks == "" && !l.End?
    ensures Render(l) != "" && !Blank(Render(l)[0])
  {
    if l.Item? { assert Render(l)[0] == Written(l.piece)[0]; }
  }

  // ---------------------------------------------------------------- words

  // Stated in characters, without the notions the tokens are defined by.

  predicate SpaceTabOrNewline(c: char) { c == ' ' || c == '\t' || c == '\n' || c == '\r' }

  ghost predicate IsWord(w: string) {
    w != "" && w[0] != '"' && forall i :: 0 <= i < |w| ==> !SpaceTabOrNewline(w[i])
  }

  ghost predicate IsGap(g: string) {
    forall i :: 0 <= i < |g| ==> SpaceTabOrNewline(g[i])
  }

  /** Words, each with a gap after it, which only the last may lack. */
  ghost predicate WordsAndGaps(words: seq<string>, gaps: seq<string>) {
    && |gaps| == |words|
    && (forall i :: 0 <= i < |words| ==> IsWord(words[i]) && IsGap(gaps[i]))
    && (forall i :: 0 <= i < |words| - 1 ==> gaps[i] != "")
  }

  function Spaced(words: seq<string>, gaps: seq<string>): (s: string)
    requires |gaps| == |words|
  {
    if words == [] then "" else words[0] + (gaps[0] + Spaced(words[1..], gaps[1..]))
  }

  function WordLine(first: string, words: seq<string>, gaps: seq<string>): (l: Line)
    requires |gaps| == |words|
    decreases |words|
  {
    if words == [] then End(first) else Item(first, Bare(words[0]), WordLine(gaps[0], words[1..], gaps[1..]))
  }

  lemma FewerWords(words: seq<string>, gaps: seq<string>)
    requires WordsAndGaps(words, gaps) && words != []
    ensures WordsAndGaps(words[1..], gaps[1..]) && IsWord(words[0]) && IsGap(gaps[0])
    ensures |words| > 1 ==> gaps[0] != ""
  {
  }

  lemma {:induction false} WordLineSpaced(first: string, words: seq<string>, gaps: seq<string>)
    requires IsGap(first) && WordsAndGaps(words, gaps)
    ensures WellSpaced(WordLine(first, words, gaps))
    decreases |words|
  {
    if words != [] {
      FewerWords(words, gaps);
      WordLineSpaced(gaps[0], words[1..], gaps[1..]);
    }
  }

  lemma {:induction false} WordLineReads(first: string, words: seq<string>, gaps: seq<string>)
    requires |gaps| == |words|
    ensures Render(WordLine(first, words, gaps)) == first + Spaced(words, gaps)
    ensures Texts(WordLine(first, words, gaps)) == words
    decreases |words|
  {
    if words == [] {
      assert first + "" == first;
    } else {
      WordLineReads(gaps[0], words[1..], gaps[1..]);
      Regrouped(first, words[0], gaps[0] + Spaced(words[1..], gaps[1..]));
      assert words == [words[0]] + words[1..];
    }
  }

  lemma Regrouped(a: string, b: string, c: string)
    ensures a + b + c == a + (b + c)
  {
  }

  /** Bare words, however many blanks of whichever kind come before them, between them (at least one) and after
      them, are split into exactly these words, as many as there is room for. */
  lemma WordsSplit(first: string, words: seq<string>, gaps: seq<string>, room: nat)
    requires IsGap(first) && WordsAndGaps(words, gaps)
    ensures Tokens(first + Spaced(words, gaps), room) == if |words| <= room then words else words[..room]
  {
    WordLineSpaced(first, words, gaps);
    WordLineReads(first, words, gaps);
    TokensOfRender(WordLine(first, words, gaps), room);
  }

  /** At most 15 words are all arguments of the line. */
  lemma LineOfWords(first: string, words: seq<string>, gaps: seq<string>)
    requires IsGap(first) && WordsAndGaps(words, gaps) && |words| <= 15
    ensures Tokens(first + Spaced(words, gaps), MAX_ARGS - 1) == words
  {
    WordsSplit(first, words, gaps, MAX_ARGS - 1);
  }

  // ---------------------------------------------------------------- quoting every argument

  /** Each argument in quotes, one space between neighbours. */
  function QuoteAll(args: seq<string>): (s: string) {
    if args == [] then ""
    else if |args| == 1 then Written(Quoted(args[0]))
    else Written(Quoted(args[0])) + " " + QuoteAll(args[1..])
  }

  function QuotedLine(args: seq<string>, blanks: string): (l: Line) {
    if args == [] then End("") else Item(blanks, Quoted(args[0]), QuotedLine(args[1..], " "))
  }

  lemma Joined(blanks: string, first: string, rest: string)
    ensures blanks + first + (" " + rest) == blanks + (first + " " + rest)
    ensures blanks + first + "" == blanks + first
  {
  }

  lemma {:induction false} QuotedLineRenders(args: seq<string>, blanks: string)
    requires AllBlank(blanks)
    requires forall i, j :: 0 <= i < |args| && 0 <= j < |args[i]| ==> args[i][j] != QUOTE
    ensures WellSpaced(QuotedLine(args, blanks)) && Texts(QuotedLine(args, blanks)) == args
    ensures Render(QuotedLine(args, blanks)) == if args == [] then "" else blanks + QuoteAll(args)
  {
    if args != [] {
      QuotedLineRenders(args[1..], " ");
      assert args == [args[0]] + args[1..];
      Joined(blanks, Written(Quoted(args[0])), QuoteAll(args[1..]));
    }
  }

  /** Quoting arguments and splitting the line gives the arguments back. */
  lemma QuoteRoundTrip(args: seq<string>)
    requires |args| <= MAX_ARGS - 1
    requires forall i, j :: 0 <= i < |args| && 0 <= j < |args[i]| ==> args[i][j] != QUOTE
    ensures Tokens(QuoteAll(args), MAX_ARGS - 1) == args
  {
    QuotedLineRenders(args, "");
    assert "" + QuoteAll(args) == QuoteAll(args);
    TokensOfRender(QuotedLine(args, ""), MAX_ARGS - 1);
  }

  /** The quoted line holds no NUL of its own, so a NUL put after it is the first. */
  lemma {:induction false} QuotedLineTerminated(args: seq<string>)
    requires forall i, j :: 0 <= i < |args| && 0 <= j < |args[i]| ==> args[i][j] != NUL
    ensures Terminated(QuoteAll(args) + [NUL], |QuoteAll(args)|)
  {
    if |args| == 1 {
      assert forall j :: 0 <= j < |args[0]| ==> args[0][j] != NUL;
    } else if |args| > 1 {
      assert forall j :: 0 <= j < |args[0]| ==> args[0][j] != NUL;
      var rest := QuoteAll(args[1..]);
      QuotedLineTerminated(args[1..]);
      forall i | 0 <= i < |rest| ensures rest[i] != NUL { assert (rest + [NUL])[i] != NUL; }
    }
  }

  // ---------------------------------------------------------------- the code

  /** The first z characters hold no NUL and the next one is NUL. */
  ghost predicate Terminated(l: seq<char>, z: nat) {
    z < |l| && l[z] == NUL && forall i :: 0 <= i < z ==> l[i] != NUL
  }

  method SkipBlanks(line: array<char>, from: nat, ghost z: nat) returns (p: nat)
    requires from <= z < line.Length && line[z] == NUL
    ensures from <= p <= z && line[..][p..z] == Skip(line[..][from..z])
    ensures p < z ==> !Blank(line[p])
  {
    p := from;
    ghost var l := line[..];
    while line[p] == ' ' || line[p] == '\t' || line[p] == '\n' || line[p] == '\r'
      invariant from <= p <= z && Skip(l[p..z]) == Skip(l[from..z])
      decreases z - p
    {
      assert l[p..z][1..] == l[p + 1..z];
      p := p + 1;
    }
  }

  /** The walk over a token's characters. */
  method FindEnd(line: array<char>, from: nat, quoted: bool, ghost z: nat) returns (p: nat)
    requires from <= z < line.Length && line[z] == NUL && forall i :: from <= i < z ==> line[i] != NUL
    ensures from <= p <= z && p == from + Span(line[..][from..z], quoted)
    ensures p < z <==> line[p] != NUL
  {
    p := from;
    ghost var l := line[..];
    while line[p] != NUL && !BlankOrQuote(line[p], quoted)
      invariant from <= p <= z && p + Span(l[p..z], quoted) == from + Span(l[from..z], quoted)
      decreases z - p
    {
      assert l[p..z][1..] == l[p + 1..z];
      p := p + 1;
    }
  }

  /** The C string at a is t. */
  ghost predicate StringAt(l: seq<char>, a: int, t: string) {
    0 <= a && a + |t| < |l| && l[a..a + |t|] == t && l[a + |t|] == NUL
  }

  /** The tokens stand in the line as C strings, in order and apart, all before p; only the last can end
      at p, and then the line ends there. */
  ghost predicate Placed(l: seq<char>, args: seq<int>, toks: seq<string>, p: nat, z: nat) {
    && |toks| <= |args|
    && (forall k :: 0 <= k < |toks| ==> StringAt(l, args[k], toks[k]) && args[k] + |toks[k]| <= p)
    && (forall k :: 0 <= k < |toks| && args[k] + |toks[k]| == p ==> p == z)
    && (forall j, k :: 0 <= j < k < |toks| ==> args[j] + |toks[j]| < args[k])
  }

  /** From p on the line is as it was, and before p it changed only where a token ends. */
  ghost predicate OnlyEnds(l0: seq<char>, l: seq<char>, args: seq<int>, toks: seq<string>, p: nat)
    requires |toks| <= |args|
  {
    && |l| == |l0|
    && (forall i :: p <= i < |l| ==> l[i] == l0[i])
    && (forall i :: 0 <= i < |l| ==> Explained(l0, l, args, toks, i))
  }

  ghost predicate Explained(l0: seq<char>, l: seq<char>, args: seq<int>, toks: seq<string>, i: nat)
    requires i < |l| == |l0| && |toks| <= |args|
  {
    l[i] == l0[i] || (l[i] == NUL && EndOf(args, toks, i))
  }

  ghost predicate EndOf(args: seq<int>, toks: seq<string>, i: int)
    requires |toks| <= |args|
  {
    exists k :: 0 <= k < |toks| && i == args[k] + |toks[k]|
  }

  function CutAt(l: seq<char>, end: nat, z: nat): (r: seq<char>)
    requires end <= z < |l|
  {
    if end < z then l[end := NUL] else l
  }

  /** Cutting the token from start to end keeps the earlier ones in place. */
  lemma PlacedNext(l: seq<char>, args: seq<int>, z: nat, p: nat, toks: seq<string>, start: nat, end: nat, t: string)
    requires Placed(l, args, toks, p, z) && |toks| < |args|
    requires p < z < |l| && p <= start <= end <= z && l[z] == NUL && t == l[start..end]
    ensures Placed(CutAt(l, end, z), args[|toks| := start], toks + [t], if end < z then end + 1 else z, z)
  {
    var n, r := |toks|, CutAt(l, end, z);
    var args', toks' := args[n := start], toks + [t];
    forall k | 0 <= k < n ensures StringAt(r, args'[k], toks'[k]) && args'[k] + |toks'[k]| < p {
      assert StringAt(l, args[k], toks[k]) && args[k] + |toks[k]| < p;
      assert r[args[k]..args[k] + |toks[k]|] == l[args[k]..args[k] + |toks[k]|];
    }
    assert r[start..end] == t;
    assert StringAt(r, args'[n], toks'[n]);
  }

  lemma OnlyEndsNext(l0: seq<char>, l: seq<char>, args: seq<int>, z: nat, p: nat, toks: seq<string>, start: nat,
                     end: nat, t: string)
    requires |toks| < |args| && OnlyEnds(l0, l, args, toks, p)
    requires p <= start <= end <= z < |l| && |t| == end - start
    ensures OnlyEnds(l0, CutAt(l, end, z), args[|toks| := start], toks + [t], if end < z then end + 1 else z)
  {
    var n, r := |toks|, CutAt(l, end, z);
    var args', toks' := args[n := start], toks + [t];
    forall i | 0 <= i < |l| ensures Explained(l0, r, args', toks', i) {
      assert Explained(l0, l, args, toks, i);
      if r[i] != l0[i] {
        if i == end {
          assert args'[n] + |toks'[n]| == i;
        } else {
          var k :| 0 <= k < n && i == args[k] + |toks[k]|;
          assert args'[k] + |toks'[k]| == i;
        }
      }
    }
  }

  /** The tokens still to come from p on. */
  ghost predicate StillToCome(l0: seq<char>, z: nat, p: nat, room: nat, more: seq<string>) {
    p <= z <= |l0| && more == Tokens(l0[p..z], room)
  }

  lemma Regroup(toks: seq<string>, t: string, more: seq<string>)
    ensures toks + ([t] + more) == toks + [t] + more
  {
  }

  lemma TakeInLine(l: seq<char>, z: nat, quoted: bool, start: nat, end: nat)
    requires start <= z <= |l| && end == start + Span(l[start..z], quoted)
    ensures Take(l[start..z], quoted) == Split(l[start..end], l[if end < z then end + 1 else z..z])
  {
    var y := l[start..z];
    assert y[..end - start] == l[start..end];
    if end < z { assert y[end - start + 1..] == l[end + 1..z]; }
  }

  /** The next token of the line from p on, found at q. */
  lemma NextInLine(l: seq<char>, z: nat, p: nat, q: nat, start: nat, end: nat, room: nat)
    requires p <= q < z <= |l| && l[q..z] == Skip(l[p..z]) && room > 0
    requires start == (if l[q] == QUOTE then q + 1 else q) && end == start + Span(l[start..z], l[q] == QUOTE)
    ensures Tokens(l[p..z], room) == [l[start..end]] + Tokens(l[if end < z then end + 1 else z..z], room - 1)
  {
    var x := l[q..z];
    assert x[0] == l[q] && x[1..] == l[q + 1..z];
    TakeInLine(l, z, l[q] == QUOTE, start, end);
    assert Next(x) == Take(l[start..z], l[q] == QUOTE);
  }

  /** What parse_args leaves: the tokens of the line, each a C string of the line in its place, a null
      pointer after the last, and no other change to the line. */
  ghost predicate Parsed(l0: seq<char>, l: seq<char>, args: seq<int>, z: nat, toks: seq<string>) {
    && |toks| < |args| && args[|toks|] == NULL
    && Placed(l, args, toks, z, z) && OnlyEnds(l0, l, args, toks, z)
  }

  /** The line's end moves from p to z for what is placed. */
  lemma ParsedAtEnd(l0: seq<char>, l: seq<char>, args: seq<int>, z: nat, p: nat, toks: seq<string>)
    requires Terminated(l0, z) && p <= z && |toks| < |args|
    requires Placed(l, args, toks, p, z) && OnlyEnds(l0, l, args, toks, p)
    ensures Parsed(l0, l, args[|toks| := NULL], z, toks)
  {
    var args' := args[|toks| := NULL];
    forall i | 0 <= i < |l| ensures Explained(l0, l, args', toks, i) {
      assert Explained(l0, l, args, toks, i);
      if l[i] != l0[i] {
        var k :| 0 <= k < |toks| && i == args[k] + |toks[k]|;
        assert i == args'[k] + |toks[k]|;
      }
    }
  }

  lemma SliceSame(l0: seq<char>, l: seq<char>, a: nat, b: nat)
    requires |l| == |l0| && a <= b <= |l| && forall i :: a <= i < b ==> l[i] == l0[i]
    ensures l[a..b] == l0[a..b]
  {
  }

  /** The body of parse_args' loop once a token starts at q. */
  method TakeToken(line: array<char>, args: array<int>, count: nat, q: nat, ghost z: nat)
    returns (p: nat, ghost start: nat, ghost end: nat)
    requires count < args.Length && q < z < line.Length && line[z] == NUL
    requires forall i :: q <= i < z ==> line[i] != NUL
    modifies line, args
    ensures start == if old(line[q]) == QUOTE then q + 1 else q
    ensures start <= end <= z && end == start + Span(old(line[..])[start..z], old(line[q]) == QUOTE)
    ensures p == if end < z then end + 1 else z
    ensures line[..] == CutAt(old(line[..]), end, z) && args[..] == old(args[..])[count := start]
  {
    var quoted := line[q] == QUOTE;
    p := if quoted then q + 1 else q;
    start := p;
    args[count] := p;
    p := FindEnd(line, p, quoted, z);
    end := p;
    if line[p] != NUL {
      line[p] := NUL;
      p := p + 1;
    }
  }

  /** The next token, when the line from p on is still as it was. */
  lemma NextAlong(l0: seq<char>, l: seq<char>, z: nat, p: nat, room: nat, q: nat, start: nat, end: nat)
    requires room > 0 && p <= q < z < |l| == |l0| && forall i :: p <= i < |l| ==> l[i] == l0[i]
    requires l[q..z] == Skip(l[p..z])
    requires start == (if l[q] == QUOTE then q + 1 else q) && start <= end <= z
    requires end == start + Span(l[start..z], l[q] == QUOTE)
    ensures Tokens(l0[p..z], room) == [l[start..end]] + Tokens(l0[if end < z then end + 1 else z..z], room - 1)
  {
    SliceSame(l0, l, p, z);
    SliceSame(l0, l, q, z);
    SliceSame(l0, l, start, z);
    SliceSame(l0, l, start, end);
    NextInLine(l0, z, p, q, start, end, room);
  }

  /** The state of the loop: toks are cut off before p, and with the tokens still to come they make up all. */
  ghost predicate Inv(l0: seq<char>, l: seq<char>, args: seq<int>, z: nat, p: nat, toks: seq<string>, room: nat,
                      all: seq<string>)
  {
    exists more :: StillToCome(l0, z, p, room, more) && toks + more == all && Body(l0, l, args, z, p, toks, room)
  }

  ghost predicate Body(l0: seq<char>, l: seq<char>, args: seq<int>, z: nat, p: nat, toks: seq<string>, room: nat) {
    && Terminated(l0, z) && p <= z && |toks| + room == MAX_ARGS - 1 < |args| && |l| == |l0|
    && Placed(l, args, toks, p, z) && OnlyEnds(l0, l, args, toks, p)
  }

  lemma InvNext(l0: seq<char>, l: seq<char>, r: seq<char>, args: seq<int>, args': seq<int>, z: nat, p: nat, p': nat,
                toks: seq<string>, toks': seq<string>, room: nat, all: seq<string>, q: nat, start: nat, end: nat)
    requires Inv(l0, l, args, z, p, toks, room, all) && room > 0
    requires z < |l| && |toks| < |args| && p <= q < z && l[q..z] == Skip(l[p..z])
    requires start == (if l[q] == QUOTE then q + 1 else q) && start <= end <= z
    requires end == start + Span(l[start..z], l[q] == QUOTE)
    requires r == CutAt(l, end, z) && args' == args[|toks| := start] && p' == (if end < z then end + 1 else z)
    requires toks' == toks + [l[start..end]]
    ensures Inv(l0, r, args', z, p', toks', room - 1, all)
  {
    NextAlong(l0, l, z, p, room, q, start, end);
    PlacedNext(l, args, z, p, toks, start, end, l[start..end]);
    OnlyEndsNext(l0, l, args, z, p, toks, start, end, l[start..end]);
    var more := Tokens(l0[p'..z], room - 1);
    Regroup(toks, l[start..end], more);
    assert StillToCome(l0, z, p', room - 1, more) && Body(l0, r, args', z, p', toks', room - 1);
  }

  /** Nothing is left when the room is used up or only blanks remain. */
  lemma InvDone(l0: seq<char>, l: seq<char>, args: seq<int>, z: nat, p: nat, toks: seq<string>, room: nat,
                all: seq<string>)
    requires Inv(l0, l, args, z, p, toks, room, all)
    requires p <= z <= |l| && (room == 0 || Skip(l[p..z]) == "")
    ensures |toks| < |args| && toks == all && Parsed(l0, l, args[|toks| := NULL], z, toks)
  {
    var more :| StillToCome(l0, z, p, room, more) && toks + more == all && Body(l0, l, args, z, p, toks, room);
    SliceSame(l0, l, p, z);
    assert more == [] && toks + [] == toks;
    ParsedAtEnd(l0, l, args, z, p, toks);
  }

  /** One round of the loop: skip blanks, and cut the token that follows, if any. */
  method Round(line: array<char>, args: array<int>, count: nat, p: nat, ghost z: nat, ghost l0: seq<char>,
               ghost toks: seq<string>, ghost room: nat, ghost all: seq<string>)
    returns (found: bool, p': nat, ghost toks': seq<string>)
    requires MAX_ARGS <= args.Length && count == |toks| && count + room == MAX_ARGS - 1 && room > 0
    requires Inv(l0, line[..], args[..], z, p, toks, room, all)
    modifies line, args
    ensures z < line.Length && line[z] == NUL && p <= z
    ensures !found ==> line[..] == old(line[..]) && args[..] == old(args[..]) && Skip(line[..][p..z]) == ""
    ensures found ==> |toks'| == count + 1 && p < p' <= z && Inv(l0, line[..], args[..], z, p', toks', room - 1, all)
  {
    ghost var l, a := line[..], args[..];
    var q := SkipBlanks(line, p, z);
    if line[q] == NUL { return false, q, toks; }
    ghost var start, end;
    p', start, end := TakeToken(line, args, count, q, z);
    toks' := toks + [l[start..end]];
    found := true;
    InvNext(l0, l, line[..], a, args[..], z, p, p', toks, toks', room, all, q, start, end);
  }

  lemma InvStart(l0: seq<char>, args: seq<int>, z: nat, room: nat)
    requires Terminated(l0, z) && room == MAX_ARGS - 1 < |args|
    ensures Inv(l0, l0, args, z, 0, [], room, Tokens(l0[0..z], room))
  {
    var all := Tokens(l0[0..z], room);
    assert StillToCome(l0, z, 0, room, all) && [] + all == all && Body(l0, l0, args, z, 0, [], room);
  }

  /** parse_args' loop. */
  method CutTokens(line: array<char>, args: array<int>, ghost z: nat, ghost l0: seq<char>, ghost all: seq<string>)
    returns (count: nat, ghost p: nat, ghost toks: seq<string>, ghost room: nat)
    requires z < line.Length && line[z] == NUL && MAX_ARGS <= args.Length
    requires Inv(l0, line[..], args[..], z, 0, [], MAX_ARGS - 1, all)
    modifies line, args
    ensures count == |toks| && p <= z && Inv(l0, line[..], args[..], z, p, toks, room, all)
    ensures room == 0 || Skip(line[..][p..z]) == ""
  {
    toks, room := [], MAX_ARGS - 1;
    count := 0;
    var at := 0;
    while line[at] != NUL && count < MAX_ARGS - 1
      invariant count == |toks| && count + room == MAX_ARGS - 1 && at <= z < line.Length && line[z] == NUL
      invariant Inv(l0, line[..], args[..], z, at, toks, room, all)
      decreases z - at
    {
      var found, next;
      ghost var more;
      found, next, more := Round(line, args, count, at, z, l0, toks, room, all);
      if !found { break; }
      toks, room, at, count := more, room - 1, next, count + 1;
    }
    p := at;
    AtEnd(l0, line[..], args[..], z, p, toks, room, all);
  }

  /** parse_args, on a line whose first NUL is at z. */
  method Parse(line: array<char>, args: array<int>, ghost z: nat) returns (count: nat)
    requires Terminated(line[..], z) && MAX_ARGS <= args.Length
    modifies line, args
    ensures count == |Tokens(old(line[..])[0..z], MAX_ARGS - 1)|
    ensures Parsed(old(line[..]), line[..], args[..], z, Tokens(old(line[..])[0..z], MAX_ARGS - 1))
  {
    ghost var l0, all := line[..], Tokens(line[..][0..z], MAX_ARGS - 1);
    InvStart(l0, args[..], z, MAX_ARGS - 1);
    ghost var p, toks, room;
    count, p, toks, room := CutTokens(line, args, z, l0, all);
    InvDone(l0, line[..], args[..], z, p, toks, room, all);
    ghost var a := args[..];
    args[count] := NULL;
    assert args[..] == a[count := NULL];
  }

  /** A NUL at p is the end of the line. */
  lemma AtEnd(l0: seq<char>, l: seq<char>, args: seq<int>, z: nat, p: nat, toks: seq<string>, room: nat,
              all: seq<string>)
    requires Inv(l0, l, args, z, p, toks, room, all) && p < |l|
    ensures l[p] == NUL ==> p == z && Skip(l[p..z]) == ""
  {
  }

  /** Quoted arguments come back as they were, through the array and its pointers. */
  method ParseQuoted(line: array<char>, args: array<int>, ghost texts: seq<string>) returns (count: nat)
    requires line[..] == QuoteAll(texts) + [NUL] && MAX_ARGS <= args.Length && |texts| <= MAX_ARGS - 1
    requires forall i, j :: 0 <= i < |texts| && 0 <= j < |texts[i]| ==> texts[i][j] != QUOTE && texts[i][j] != NUL
    modifies line, args
    ensures count == |texts| && Parsed(old(line[..]), line[..], args[..], |QuoteAll(texts)|, texts)
  {
    QuotedLineTerminated(texts);
    QuoteRoundTrip(texts);
    assert line[..][0..|QuoteAll(texts)|] == QuoteAll(texts);
    count := Parse(line, args, |QuoteAll(texts)|);
  }
}
