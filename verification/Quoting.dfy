/** Two quotings: mountinfo's octal escapes (internal/clients/hostfs/mounts.go) and POSIX shell words
    (internal/checks/mounts/mount_race.go). */
module Quoting {
  import opened Text

  // ----- mountinfo -----

  const BACKSLASH: Byte := 92

  predicate OctalDigit(b: Byte) { 48 <= b <= 55 }

  /** strconv.ParseUint(s, 8, 8) on three bytes: octal digits with a value below 256. */
  function ParseOctal(a: Byte, b: Byte, c: Byte): Option<Byte> {
    if OctalDigit(a) && OctalDigit(b) && OctalDigit(c) && (a - 48) * 64 + (b - 48) * 8 + (c - 48) < 256
    then Some((a - 48) * 64 + (b - 48) * 8 + (c - 48)) else None
  }

  /** The digits 0 to 7 in ASCII, where 0 is 48. */
  predicate DigitsAre(a: Byte, b: Byte, c: Byte, x: int, y: int, z: int) {
    0 <= x < 8 && 0 <= y < 8 && 0 <= z < 8 && a == 48 + x && b == 48 + y && c == 48 + z
  }

  /** Three bytes are an escape's digits exactly when each is one of 0 to 7 and their value fits a byte. */
  lemma OctalExactly(a: Byte, b: Byte, c: Byte, v: Byte)
    ensures ParseOctal(a, b, c) == Some(v) <==>
            exists x, y, z :: DigitsAre(a, b, c, x, y, z) && 64 * x + 8 * y + z == v
  {
    if ParseOctal(a, b, c) == Some(v) {
      var x: int, y: int, z: int := a - 48, b - 48, c - 48;
      assert DigitsAre(a, b, c, x, y, z) && 64 * x + 8 * y + z == v;
    }
  }

  function Unescape(s: seq<Byte>): seq<Byte> {
    if s == [] then []
    else if s[0] == BACKSLASH && |s| >= 4 && ParseOctal(s[1], s[2], s[3]).Some?
    then [ParseOctal(s[1], s[2], s[3]).value] + Unescape(s[4..])
    else [s[0]] + Unescape(s[1..])
  }

  lemma {:induction false} UnescapePlain(s: seq<Byte>)
    requires BACKSLASH !in s
    ensures Unescape(s) == s
  {
    if s != [] { UnescapePlain(s[1..]); }
  }

  /** unescapeOctal, with its shortcut and its index that skips ahead. */
  method UnescapeOctal(s: seq<Byte>) returns (out: seq<Byte>)
    ensures out == Unescape(s)
  {
    if BACKSLASH !in s {
      UnescapePlain(s);
      return s;
    }
    out := [];
    var i := 0;
    while i < |s|
      invariant 0 <= i <= |s|
      invariant out + Unescape(s[i..]) == Unescape(s)
    {
      UnescapeStep(s, i);
      if s[i] == BACKSLASH && i + 3 < |s| {
        var v := ParseOctal(s[i + 1], s[i + 2], s[i + 3]);
        if v.Some? {
          Reassociate(out, [v.value], Unescape(s[i + 4..]));
          out := out + [v.value];
          i := i + 4;
          continue;
        }
      }
      Reassociate(out, [s[i]], Unescape(s[i + 1..]));
      out := out + [s[i]];
      i := i + 1;
    }
  }

  lemma Reassociate(a: seq<Byte>, b: seq<Byte>, c: seq<Byte>)
    ensures a + (b + c) == (a + b) + c
  {
  }

  /** One step of the decoder at position i. */
  lemma UnescapeStep(s: seq<Byte>, i: nat)
    requires i < |s|
    ensures Unescape(s[i..]) ==
            if s[i] == BACKSLASH && i + 3 < |s| && ParseOctal(s[i + 1], s[i + 2], s[i + 3]).Some?
            then [ParseOctal(s[i + 1], s[i + 2], s[i + 3]).value] + Unescape(s[i + 4..])
            else [s[i]] + Unescape(s[i + 1..])
  {
    var rest := s[i..];
    assert rest[1..] == s[i + 1..];
    if i + 3 < |s| { assert rest[4..] == s[i + 4..]; }
  }

  /** The kernel's escaping: every byte of the set becomes a backslash and three octal digits. */
  function Escape(which: set<Byte>, s: seq<Byte>): seq<Byte> {
    if s == [] then [] else EscapeByte(which, s[0]) + Escape(which, s[1..])
  }

  function EscapeByte(which: set<Byte>, b: Byte): seq<Byte> {
    if b in which then [BACKSLASH, 48 + b / 64, 48 + b / 8 % 8, 48 + b % 8] else [b]
  }

  /** Which sets of escaped bytes keep a raw backslash from being read as an escape: those with the backslash,
      or with every digit an escape can start with (0 to 3, as the value stays below 256). */
  predicate Unambiguous(which: set<Byte>) { BACKSLASH in which || {48, 49, 50, 51} <= which }

  lemma OctalDigits(b: Byte)
    ensures ParseOctal(48 + b / 64, 48 + b / 8 % 8, 48 + b % 8) == Some(b)
  {
    assert b / 8 == b / 64 * 8 + b / 8 % 8;
  }

  lemma UnescapeEscape(x: Byte, y: Byte, z: Byte, v: Byte, rest: seq<Byte>)
    requires ParseOctal(x, y, z) == Some(v)
    ensures Unescape([BACKSLASH, x, y, z] + rest) == [v] + Unescape(rest)
  {
    var e := [BACKSLASH, x, y, z] + rest;
    assert e[0] == BACKSLASH && e[1] == x && e[2] == y && e[3] == z && e[4..] == rest;
  }

  lemma UnescapeRaw(b: Byte, rest: seq<Byte>)
    requires b != BACKSLASH || rest == [] || !(48 <= rest[0] <= 51)
    ensures Unescape([b] + rest) == [b] + Unescape(rest)
  {
    var e := [b] + rest;
    assert e[1..] == rest;
    if rest != [] { assert e[1] == rest[0]; }
  }

  /** One byte, escaped or not, in front of escaped text. */
  lemma UnescapeByte(which: set<Byte>, b: Byte, rest: seq<Byte>)
    requires Unambiguous(which)
    requires rest != [] ==> rest[0] == BACKSLASH || rest[0] !in which
    ensures Unescape(EscapeByte(which, b) + rest) == [b] + Unescape(rest)
  {
    if b in which {
      OctalDigits(b);
      UnescapeEscape(48 + b / 64, 48 + b / 8 % 8, 48 + b % 8, b, rest);
    } else {
      UnescapeRaw(b, rest);
    }
  }

  /** With such a set, unescaping inverts the escaping on all byte strings. */
  lemma {:induction false} UnescapeInvertsEscape(which: set<Byte>, s: seq<Byte>)
    requires Unambiguous(which)
    ensures Unescape(Escape(which, s)) == s
  {
    if s != [] {
      UnescapeInvertsEscape(which, s[1..]);
      UnescapeByte(which, s[0], Escape(which, s[1..]));
    }
  }

  /** And with no other: the round trip holds on all byte strings if and only if the set is Unambiguous. */
  lemma RoundTripExactly(which: set<Byte>)
    ensures (forall s :: Unescape(Escape(which, s)) == s) <==> Unambiguous(which)
  {
    if Unambiguous(which) {
      forall s ensures Unescape(Escape(which, s)) == s { UnescapeInvertsEscape(which, s); }
    } else {
      var b: Byte :| b in {48, 49, 50, 51} && b !in which;
      RawEscapeDecoded(which, b);
    }
  }

  /** A name that spells an escape with raw bytes is decoded. */
  lemma RawEscapeDecoded(which: set<Byte>, b: Byte)
    requires BACKSLASH !in which && b !in which && 48 <= b <= 51
    ensures var s := [BACKSLASH, b, b, b]; Escape(which, s) == s && Unescape(s) != s
  {
    var s := [BACKSLASH, b, b, b];
    EscapeNothing(which, s);
    assert Unescape(s) == [ParseOctal(b, b, b).value] + Unescape(s[4..]) && s[4..] == [];
  }

  lemma {:induction false} EscapeNothing(which: set<Byte>, s: seq<Byte>)
    requires forall i :: 0 <= i < |s| ==> s[i] !in which
    ensures Escape(which, s) == s
  {
    if s != [] { EscapeNothing(which, s[1..]); }
  }

  // ----- Shell words -----

  datatype Token = Word(s: string) | IoNumber(s: string) | Op(c: char)

  predicate IsOp(c: char) {
    c == ';' || c == '&' || c == '|' || c == '(' || c == ')' || c == '<' || c == '>' || c == '\n'
  }

  predicate IsBlank(c: char) { c == ' ' || c == '\t' }

  /** Characters whose unquoted use this reader does not interpret: expansions, comments and double quotes. */
  predicate Unsupported(c: char) { c == '"' || c == '$' || c == '`' || c == '#' }

  /** Outside quotes with nothing quoted in the current word so far, or behind a quoted part of it, or right behind
      an operator; inside quotes; behind a backslash (partly is whether something was quoted before it). */
  datatype Mode = Bare | Partly | AfterOp | Quoted | Escaped(partly: bool)

  predicate Unquoted(m: Mode) { m.Bare? || m.Partly? || m.AfterOp? }

  /** The reader so far: the finished tokens, how the next character is taken, and the word under
      construction (None between words). */
  datatype State = Stuck | State(out: seq<Token>, mode: Mode, acc: Option<string>)

  function Flush(acc: Option<string>): seq<Token> { match acc case None => [] case Some(w) => [Word(w)] }

  /** The word an operator ends: digits alone, none of them quoted, in front of a redirection are an IO_NUMBER
      (section 2.10.1). */
  function EndedBy(st: State, c: char): seq<Token>
    requires st.State?
  {
    match st.acc
    case None => []
    case Some(w) =>
      if st.mode.Bare? && (c == '<' || c == '>') && w != "" && AllDigits(w) then [IoNumber(w)] else [Word(w)]
  }

  /** One character more of the current word. */
  function Add(st: State, c: char, mode: Mode): State
    requires st.State?
  {
    State(st.out, mode, Some((match st.acc case None => "" case Some(w) => w) + [c]))
  }

  /** A reader of shell tokens after sections 2.2.1 (escape character), 2.2.2 (single quotes) and 2.10.1 (token
      classification) of the POSIX.1-2017 Shell Command Language. Operators of two characters are not interpreted. */
  function Feed(st: State, c: char): State {
    if st.Stuck? then Stuck
    else match st.mode
      case Quoted => if c == '\'' then st.(mode := Partly) else Add(st, c, Quoted)
      case Escaped(partly) => if c == '\n' then st.(mode := if partly then Partly else Bare) else Add(st, c, Partly)
      case _ =>
        if c == '\'' then State(st.out, Quoted, Some(match st.acc case None => "" case Some(w) => w))
        else if c == '\\' then st.(mode := Escaped(st.mode.Partly?))
        else if IsBlank(c) then State(st.out + Flush(st.acc), Bare, None)
        else if IsOp(c) then
          if st.mode.AfterOp? then Stuck else State(st.out + EndedBy(st, c) + [Op(c)], AfterOp, None)
        else if Unsupported(c) then Stuck
        else Add(st, c, if st.mode.Partly? then Partly else Bare)
  }

  function Scan(s: string, st: State): State {
    if s == [] then st else Scan(s[1..], Feed(st, s[0]))
  }

  /** The tokens of a complete command; None for an open quote, a dangling backslash or an unsupported character. */
  function Read(s: string): Option<seq<Token>> {
    match Scan(s, State([], Bare, None))
    case Stuck => None
    case State(out, mode, acc) => if Unquoted(mode) then Some(out + Flush(acc)) else None
  }

  lemma {:induction false} ScanConcat(a: string, b: string, st: State)
    ensures Scan(a + b, st) == Scan(b, Scan(a, st))
  {
    if a == [] {
      assert a + b == b;
    } else {
      assert (a + b)[0] == a[0] && (a + b)[1..] == a[1..] + b;
      ScanConcat(a[1..], b, Feed(st, a[0]));
    }
  }

  /** strings.ReplaceAll(s, "'", `'\''`). */
  function ReplaceQuotes(s: string): string {
    if s == [] then [] else (if s[0] == '\'' then ['\'', '\\', '\'', '\''] else [s[0]]) + ReplaceQuotes(s[1..])
  }

  /** shellQuote. */
  function ShellQuote(s: string): string { ['\''] + ReplaceQuotes(s) + ['\''] }

  /** Close, escaped quote, reopen: one literal quote, still inside quotes. */
  lemma ScanEscapedQuote(st: State)
    requires st.State? && st.mode.Quoted? && st.acc.Some?
    ensures Scan(['\'', '\\', '\'', '\''], st) == State(st.out, Quoted, Some(st.acc.value + ['\'']))
  {
    var s := ['\'', '\\', '\'', '\''];
    var a := Feed(st, s[0]);
    var b := Feed(a, s[1]);
    var c := Feed(b, s[2]);
    assert Scan(s[3..], c) == Scan(s[3..][1..], Feed(c, s[3]));
    assert s[2..][1..] == s[3..] && s[1..][1..] == s[2..] && s[3..][1..] == [];
    assert Scan(s[2..], b) == Scan(s[3..], c);
    assert Scan(s[1..], a) == Scan(s[2..], b);
  }

  lemma {:induction false} ScanReplaced(s: string, st: State)
    requires st.State? && st.mode.Quoted? && st.acc.Some?
    ensures Scan(ReplaceQuotes(s), st) == State(st.out, Quoted, Some(st.acc.value + s))
    decreases |s|
  {
    if s == [] {
      assert st.acc.value + s == st.acc.value;
    } else {
      var head := if s[0] == '\'' then ['\'', '\\', '\'', '\''] else [s[0]];
      var st' := State(st.out, Quoted, Some(st.acc.value + [s[0]]));
      ScanConcat(head, ReplaceQuotes(s[1..]), st);
      if s[0] == '\'' { ScanEscapedQuote(st); } else { assert Scan([s[0]], st) == Scan([s[0]][1..], Feed(st, s[0])); }
      ScanReplaced(s[1..], st');
      assert st.acc.value + [s[0]] + s[1..] == st.acc.value + s;
    }
  }

  function Cur(acc: Option<string>): string { match acc case None => "" case Some(w) => w }

  /** Wherever a quoted string starts outside quotes, the reader takes it as exactly its characters, as part
      of the current word, and is outside quotes again behind it. */
  lemma QuotedIsLiteral(s: string, st: State)
    requires st.State? && Unquoted(st.mode)
    ensures Scan(ShellQuote(s), st) == State(st.out, Partly, Some(Cur(st.acc) + s))
  {
    var inside := State(st.out, Quoted, Some(Cur(st.acc)));
    ScanConcat(['\''] + ReplaceQuotes(s), ['\''], st);
    ScanConcat(['\''], ReplaceQuotes(s), st);
    assert Scan(['\''], st) == Scan(['\''][1..], Feed(st, '\''));
    ScanReplaced(s, inside);
    var filled := State(st.out, Quoted, Some(Cur(st.acc) + s));
    assert Scan(['\''], filled) == Scan(['\''][1..], Feed(filled, '\''));
  }

  /** On its own, a quoted string is the single word it was made from. */
  lemma QuoteRoundTrip(s: string)
    ensures Read(ShellQuote(s)) == Some([Word(s)])
  {
    QuotedIsLiteral(s, State([], Bare, None));
    assert "" + s == s && [] + [Word(s)] == [Word(s)];
  }

  /** probeCmd. */
  function ProbeCmd(path: string): string {
    "( stat -c %d / " + ShellQuote(path) + "; ls -A " + ShellQuote(path) + " | wc -l ) 2>/dev/null"
  }

  predicate Plain(c: char) { c != '\'' && c != '\\' && !IsBlank(c) && !IsOp(c) && !Unsupported(c) }

  predicate PlainWord(w: string) { w != [] && forall i :: 0 <= i < |w| ==> Plain(w[i]) }

  lemma {:induction false} ScanPlain(w: string, st: State)
    requires PlainWord(w) && st.State? && (st.mode.Bare? || st.mode.AfterOp?)
    ensures Scan(w, st) == State(st.out, Bare, Some(Cur(st.acc) + w))
    decreases |w|
  {
    var st' := Feed(st, w[0]);
    assert Plain(w[0]);
    assert st' == State(st.out, Bare, Some(Cur(st.acc) + [w[0]]));
    if |w| == 1 {
      assert w == [w[0]] && w[1..] == [];
    } else {
      ScanPlain(w[1..], st');
      assert Cur(st.acc) + [w[0]] + w[1..] == Cur(st.acc) + w;
    }
  }

  lemma ScanOne(c: char, st: State)
    ensures Scan([c], st) == Feed(st, c)
  {
    assert [c][1..] == [];
  }

  /** One part of a command: a plain word and a blank, or an operator and a blank. */
  datatype Part = W(w: string) | O(c: char)

  predicate GoodPart(p: Part) { match p case W(w) => PlainWord(w) case O(c) => IsOp(c) }

  function PartText(p: Part): string { match p case W(w) => w + " " case O(c) => [c] + " " }

  function PartToken(p: Part): Token { match p case W(w) => Word(w) case O(c) => Op(c) }

  lemma ScanPart(p: Part, out: seq<Token>)
    requires GoodPart(p)
    ensures Scan(PartText(p), State(out, Bare, None)) == State(out + [PartToken(p)], Bare, None)
  {
    var st := State(out, Bare, None);
    match p
    case W(w) =>
      ScanConcat(w, " ", st);
      ScanPlain(w, st);
      assert "" + w == w;
      ScanOne(' ', State(out, Bare, Some(w)));
    case O(c) =>
      ScanConcat([c], " ", st);
      ScanOne(c, st);
      assert out + [] == out && out + [Op(c)] + [] == out + [Op(c)];
      ScanOne(' ', State(out + [Op(c)], AfterOp, None));
  }

  function Spelled(ps: seq<Part>): string { if ps == [] then "" else PartText(ps[0]) + Spelled(ps[1..]) }

  function Tokens(ps: seq<Part>): seq<Token> { if ps == [] then [] else [PartToken(ps[0])] + Tokens(ps[1..]) }

  lemma TokensCons(ps: seq<Part>, out: seq<Token>)
    requires ps != []
    ensures out + [PartToken(ps[0])] + Tokens(ps[1..]) == out + Tokens(ps)
  {
  }

  /** A run of parts separated by blanks yields its tokens. */
  lemma {:induction false} ScanParts(ps: seq<Part>, out: seq<Token>)
    requires forall i :: 0 <= i < |ps| ==> GoodPart(ps[i])
    ensures Scan(Spelled(ps), State(out, Bare, None)) == State(out + Tokens(ps), Bare, None)
    decreases |ps|
  {
    if ps == [] {
      assert out + [] == out;
    } else {
      ScanConcat(PartText(ps[0]), Spelled(ps[1..]), State(out, Bare, None));
      ScanPart(ps[0], out);
      ScanParts(ps[1..], out + [PartToken(ps[0])]);
      TokensCons(ps, out);
    }
  }

  /** A blank or semicolon that ends a word with a quoted part, then a run of parts. */
  lemma ScanBehindWord(w: string, sep: string, ps: seq<Part>, out: seq<Token>)
    requires forall i :: 0 <= i < |ps| ==> GoodPart(ps[i])
    requires sep == " " || sep == "; "
    ensures Scan(sep + Spelled(ps), State(out, Partly, Some(w))) ==
            State(out + [Word(w)] + (if sep == " " then [] else [Op(';')]) + Tokens(ps), Bare, None)
  {
    var st := State(out, Partly, Some(w));
    ScanConcat(sep, Spelled(ps), st);
    if sep == " " {
      ScanOne(' ', st);
      ScanParts(ps, out + [Word(w)]);
      assert out + [Word(w)] + [] == out + [Word(w)];
    } else {
      ScanConcat([';'], " ", st);
      ScanOne(';', st);
      var mid := State(out + [Word(w)] + [Op(';')], AfterOp, None);
      ScanOne(' ', mid);
      assert mid.out + [] == mid.out;
      assert [';'] + " " == "; ";
      ScanParts(ps, mid.out);
    }
  }

  /** The redirection that ends the command. */
  lemma ScanRedirection(fd: string, file: string, out: seq<Token>)
    requires PlainWord(fd) && AllDigits(fd) && PlainWord(file)
    ensures Scan(fd + ['>'] + file, State(out, Bare, None)) ==
            State(out + [IoNumber(fd)] + [Op('>')], Bare, Some(file))
  {
    var st := State(out, Bare, None);
    ScanConcat(fd + ['>'], file, st);
    ScanConcat(fd, ['>'], st);
    ScanPlain(fd, st);
    assert "" + fd == fd && "" + file == file;
    ScanOne('>', State(out, Bare, Some(fd)));
    ScanPlain(file, State(out + [IoNumber(fd)] + [Op('>')], AfterOp, None));
  }

  const HEAD: seq<Part> := [O('('), W("stat"), W("-c"), W("%d"), W("/")]
  const MIDDLE: seq<Part> := [W("ls"), W("-A")]
  const TAIL: seq<Part> := [O('|'), W("wc"), W("-l"), O(')')]

  /** Reading a command of this shape, with the quoted path in both places. */
  lemma ScanProbe(path: string, cmd: string, a: seq<Part>, b: seq<Part>, c: seq<Part>, fd: string, file: string)
    requires cmd == Spelled(a)
        + (ShellQuote(path) + (("; " + Spelled(b)) + (ShellQuote(path) + ((" " + Spelled(c)) + (fd + ['>'] + file)))))
    requires (forall i :: 0 <= i < |a| ==> GoodPart(a[i])) && (forall i :: 0 <= i < |b| ==> GoodPart(b[i]))
    requires (forall i :: 0 <= i < |c| ==> GoodPart(c[i])) && PlainWord(file)
    requires PlainWord(fd) && AllDigits(fd)
    ensures Read(cmd) ==
            Some(Tokens(a) + [Word(path)] + [Op(';')] + Tokens(b) + [Word(path)] + Tokens(c) + [IoNumber(fd)]
                 + [Op('>')] + [Word(file)])
  {
    var q, e := ShellQuote(path), fd + ['>'] + file;
    var s5 := (" " + Spelled(c)) + e;
    var s4 := q + s5;
    var s3 := ("; " + Spelled(b)) + s4;
    var s2 := q + s3;
    assert "" + path == path;
    var st0 := State([], Bare, None);
    ScanConcat(Spelled(a), s2, st0);
    ScanParts(a, []);
    assert [] + Tokens(a) == Tokens(a);
    var st1 := State(Tokens(a), Bare, None);
    ScanConcat(q, s3, st1);
    QuotedIsLiteral(path, st1);
    var st2 := State(Tokens(a), Partly, Some(path));
    ScanConcat("; " + Spelled(b), s4, st2);
    ScanBehindWord(path, "; ", b, Tokens(a));
    var st3 := State(Tokens(a) + [Word(path)] + [Op(';')] + Tokens(b), Bare, None);
    ScanConcat(q, s5, st3);
    QuotedIsLiteral(path, st3);
    var st4 := State(st3.out, Partly, Some(path));
    ScanConcat(" " + Spelled(c), e, st4);
    ScanBehindWord(path, " ", c, st3.out);
    assert st3.out + [Word(path)] + [] == st3.out + [Word(path)];
    ScanRedirection(fd, file, st3.out + [Word(path)] + Tokens(c));
  }

  lemma ProbeTexts()
    ensures Spelled(HEAD) == "( stat -c %d / " && Spelled(MIDDLE) == "ls -A " && Spelled(TAIL) == "| wc -l ) "
    ensures Tokens(HEAD) == [Op('('), Word("stat"), Word("-c"), Word("%d"), Word("/")]
    ensures Tokens(MIDDLE) == [Word("ls"), Word("-A")]
    ensures Tokens(TAIL) == [Op('|'), Word("wc"), Word("-l"), Op(')')]
  {
    HeadText();
    MiddleText();
    TailText();
  }

  lemma HeadText()
    ensures Spelled(HEAD) == "( stat -c %d / "
    ensures Tokens(HEAD) == [Op('('), Word("stat"), Word("-c"), Word("%d"), Word("/")]
  {
  }

  lemma MiddleText()
    ensures Spelled(MIDDLE) == "ls -A " && Tokens(MIDDLE) == [Word("ls"), Word("-A")]
  {
  }

  lemma TailText()
    ensures Spelled(TAIL) == "| wc -l ) " && Tokens(TAIL) == [Op('|'), Word("wc"), Word("-l"), Op(')')]
  {
  }

  /** For every path, the probe command is the same sequence of words and operators (ProbeTexts spells them
      out) with the path as one argument in two places: nothing in the path can end the word or start a command. */
  lemma ProbeTokens(path: string)
    ensures Read(ProbeCmd(path)) ==
            Some(Tokens(HEAD) + [Word(path)] + [Op(';')] + Tokens(MIDDLE) + [Word(path)] + Tokens(TAIL)
                 + [IoNumber("2")] + [Op('>')] + [Word("/dev/null")])
  {
    ProbeRead(path, ProbeCmd(path), HEAD, MIDDLE, TAIL);
  }

  lemma ProbeRead(path: string, cmd: string, a: seq<Part>, b: seq<Part>, c: seq<Part>)
    requires a == HEAD && b == MIDDLE && c == TAIL && cmd == ProbeCmd(path)
    ensures Read(cmd) == Some(Tokens(a) + [Word(path)] + [Op(';')] + Tokens(b) + [Word(path)] + Tokens(c)
                              + [IoNumber("2")] + [Op('>')] + [Word("/dev/null")])
  {
    assert cmd == Spelled(a)
        + (ShellQuote(path) + (("; " + Spelled(b))
            + (ShellQuote(path) + ((" " + Spelled(c)) + ("2" + ['>'] + "/dev/null"))))) by {
      ProbeTexts();
      ProbeParts(ShellQuote(path), Spelled(a), Spelled(b), Spelled(c));
    }
    GoodProbe();
    ScanProbe(path, cmd, a, b, c, "2", "/dev/null");
  }

  lemma GoodProbe()
    ensures forall i :: 0 <= i < |HEAD| ==> GoodPart(HEAD[i])
    ensures forall i :: 0 <= i < |MIDDLE| ==> GoodPart(MIDDLE[i])
    ensures forall i :: 0 <= i < |TAIL| ==> GoodPart(TAIL[i])
    ensures PlainWord("2") && AllDigits("2") && PlainWord("/dev/null")
  {
  }

  lemma ProbeParts(q: string, h: string, m: string, t: string)
    requires h == "( stat -c %d / " && m == "ls -A " && t == "| wc -l ) "
    ensures "( stat -c %d / " + q + "; ls -A " + q + " | wc -l ) 2>/dev/null" ==
            h + (q + (("; " + m) + (q + ((" " + t) + ("2" + ['>'] + "/dev/null")))))
  {
    var e := (" " + t) + ("2" + ['>'] + "/dev/null");
    assert "; ls -A " == "; " + m;
    assert " | wc -l ) 2>/dev/null" == e;
    Regroup(h, q, "; " + m, e);
  }

  lemma Regroup(h: string, q: string, m: string, e: string)
    ensures h + q + m + q + e == h + (q + (m + (q + e)))
  {
  }
}
