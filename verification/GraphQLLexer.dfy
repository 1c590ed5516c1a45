/** The tokenizer of src/graphql/parser.go and the lexical grammar it implements.

    A byte of the input is a `char`; nothing below depends on its being less than 256. */
module GraphQLLexer {
  import opened Wrappers
  import opened Decimal

  datatype Token =
    | Punct(c: char)
    | Str(val: string)
    | Name(val: string)
    | IntLit(val: string)
    | FloatLit(val: string)
    | Eof

  predicate IsPunct(c: char) {
    || c == '{' || c == '}' || c == '(' || c == ')' || c == ':' || c == '$'
    || c == '!' || c == '=' || c == '[' || c == ']' || c == '@'
  }

  predicate IsBlank(c: char) {
    c == ' ' || c == '\t' || c == '\n' || c == '\r' || c == ','
  }

  predicate IsNameStart(c: char) {
    c == '_' || 'a' <= c <= 'z' || 'A' <= c <= 'Z'
  }

  predicate IsNameCont(c: char) {
    IsNameStart(c) || IsDigit(c)
  }

  /** May `c` continue a numeric literal whose last byte so far is `prev`? */
  predicate IsNumberCont(prev: char, c: char) {
    || IsDigit(c)
    || c == '.' || c == 'e' || c == 'E'
    || ((c == '+' || c == '-') && (prev == 'e' || prev == 'E'))
  }

  predicate IsFloatMark(c: char) {
    c == '.' || c == 'e' || c == 'E'
  }

  // ---------------------------------------------------------------------------
  // The lexical grammar: a document is a list of pieces, each ended by maximal munch.
  // ---------------------------------------------------------------------------

  datatype Piece =
    | Blank(c: char)
    | Comment(text: string)   // without the leading '#'
    | PunctPiece(c: char)
    | StringPiece(body: string)   // the raw bytes between the quotes
    | NamePiece(s: string)
    | NumberPiece(s: string)

  function Text(p: Piece): (t: string)
    ensures p.Comment? || p.StringPiece? ==> t != []
  {
    match p
    case Blank(c) => [c]
    case Comment(text) => "#" + text
    case PunctPiece(c) => [c]
    case StringPiece(body) => "\"" + body + "\""
    case NamePiece(s) => s
    case NumberPiece(s) => s
  }

  /** Every '"' in the body is escaped, and every backslash escapes some byte. */
  predicate WellEscaped(body: string) {
    if body == [] then true
    else if body[0] == '\\' then |body| > 1 && WellEscaped(body[2..])
    else body[0] != '"' && WellEscaped(body[1..])
  }

  function UnescapeByte(c: char): char {
    match c
    case 'n' => '\n'
    case 't' => '\t'
    case '"' => '"'
    case '\\' => '\\'
    case '/' => '/'
    case _ => c
  }

  /** The value of a string literal, given its raw body. */
  function Unescape(body: string): string {
    if body == [] then []
    else if body[0] == '\\' && |body| > 1 then [UnescapeByte(body[1])] + Unescape(body[2..])
    else [body[0]] + Unescape(body[1..])
  }

  ghost predicate IsName(s: string) {
    s != [] && IsNameStart(s[0]) && forall i :: 0 <= i < |s| ==> IsNameCont(s[i])
  }

  ghost predicate IsNumber(s: string) {
    s != [] && (s[0] == '-' || IsDigit(s[0])) && NumberRun(s[0], s[1..])
  }

  /** Every byte of `s` continues the number read so far, which ends in `prev`. */
  ghost predicate NumberRun(prev: char, s: string)
    decreases |s|
  {
    s == [] || (IsNumberCont(prev, s[0]) && NumberRun(s[0], s[1..]))
  }

  function LastOr(prev: char, s: string): char {
    if s == [] then prev else s[|s| - 1]
  }

  predicate HasFloatMark(s: string) {
    exists i :: 0 <= i < |s| && IsFloatMark(s[i])
  }

  ghost predicate PieceOk(p: Piece) {
    match p
    case Blank(c) => IsBlank(c)
    case Comment(text) => '\n' !in text
    case PunctPiece(c) => IsPunct(c)
    case StringPiece(body) => WellEscaped(body)
    case NamePiece(s) => IsName(s)
    case NumberPiece(s) => IsNumber(s)
  }

  /** The piece cannot be extended by the first byte of what follows it. */
  predicate Ends(p: Piece, rest: string) {
    rest == [] ||
    match p
    case Comment(_) => rest[0] == '\n'
    case NamePiece(_) => !IsNameCont(rest[0])
    case NumberPiece(s) => s != [] ==> !IsNumberCont(s[|s| - 1], rest[0])
    case _ => true
  }

  function TextOf(ps: seq<Piece>): string {
    if ps == [] then [] else Text(ps[0]) + TextOf(ps[1..])
  }

  ghost predicate Lexical(ps: seq<Piece>) {
    ps == [] || (PieceOk(ps[0]) && Ends(ps[0], TextOf(ps[1..])) && Lexical(ps[1..]))
  }

  function TokensOfPiece(p: Piece): seq<Token> {
    match p
    case Blank(_) => []
    case Comment(_) => []
    case PunctPiece(c) => [Punct(c)]
    case StringPiece(body) => [Str(Unescape(body))]
    case NamePiece(s) => [Name(s)]
    case NumberPiece(s) => [if HasFloatMark(s) then FloatLit(s) else IntLit(s)]
  }

  function TokensOf(ps: seq<Piece>): seq<Token> {
    if ps == [] then [] else TokensOfPiece(ps[0]) + TokensOf(ps[1..])
  }

  // ---------------------------------------------------------------------------
  // The scanner, as a function of the remaining input
  // ---------------------------------------------------------------------------

  /** Length of the longest prefix made of bytes that satisfy `ok`. */
  function Munch(s: string, ok: char -> bool): (n: nat)
    ensures n <= |s|
    ensures forall i :: 0 <= i < n ==> ok(s[i])
    ensures n < |s| ==> !ok(s[n])
  {
    if s != [] && ok(s[0]) then 1 + Munch(s[1..], ok) else 0
  }

  predicate NotNewline(c: char) {
    c != '\n'
  }

  /** How many bytes of `s` continue a number that ends in `prev`. */
  function NumberTail(prev: char, s: string): (n: nat)
    ensures n <= |s| && NumberRun(prev, s[..n])
    ensures n < |s| ==> !IsNumberCont(LastOr(prev, s[..n]), s[n])
    decreases |s|
  {
    if s != [] && IsNumberCont(prev, s[0]) then
      var n := NumberTail(s[0], s[1..]);
      assert s[..1 + n][1..] == s[1..][..n];
      1 + n
    else 0
  }

  /** Length of the body of a string literal whose opening quote has been read; None if it never closes. */
  function BodyLen(s: string): (r: Option<nat>)
    ensures r.Some? ==> r.value < |s| && s[r.value] == '"' && WellEscaped(s[..r.value])
  {
    if s == [] then None
    else if s[0] == '"' then Some(0)
    else
      var step := if s[0] == '\\' && |s| > 1 then 2 else 1;
      match BodyLen(s[step..])
      case None => None
      case Some(n) =>
        assert s[..step + n][step..] == s[step..][..n];
        Some(step + n)
  }

  /** The first piece of a non-empty input. */
  function ScanPiece(s: string): (r: Option<Piece>)
    requires s != []
    ensures r.Some? ==> 0 < |Text(r.value)| <= |s| && Text(r.value) == s[..|Text(r.value)|]
  {
    var c := s[0];
    if IsBlank(c) then Some(Blank(c))
    else if c == '#' then
      var n := Munch(s[1..], NotNewline);
      assert s[..1 + n] == "#" + s[1..][..n];
      Some(Comment(s[1..][..n]))
    else if IsPunct(c) then Some(PunctPiece(c))
    else if c == '"' then
      match BodyLen(s[1..]) {
        case None => None
        case Some(n) =>
          assert s[..n + 2] == "\"" + s[1..][..n] + "\"";
          Some(StringPiece(s[1..][..n]))
      }
    else if IsNameStart(c) then
      assert Munch(s, IsNameCont) > 0;
      Some(NamePiece(s[..Munch(s, IsNameCont)]))
    else if c == '-' || IsDigit(c) then Some(NumberPiece(s[..1 + NumberTail(c, s[1..])]))
    else None
  }

  function Scan(s: string): Option<seq<Piece>> {
    if s == [] then Some([])
    else
      match ScanPiece(s)
      case None => None
      case Some(p) =>
        match Scan(s[|Text(p)|..])
        case None => None
        case Some(ps) => Some([p] + ps)
  }

  /** The token list of a document: the tokens of its pieces and one end marker. */
  function Lex(s: string): Option<seq<Token>> {
    match Scan(s)
    case None => None
    case Some(ps) => Some(TokensOf(ps) + [Eof])
  }

  // ---------------------------------------------------------------------------
  // The scanner accepts exactly the lexical grammar
  // ---------------------------------------------------------------------------

  lemma ScanPieceSound(s: string)
    requires s != [] && ScanPiece(s).Some?
    ensures var p := ScanPiece(s).value; PieceOk(p) && Ends(p, s[|Text(p)|..])
  {
    var p := ScanPiece(s).value;
    var rest := s[|Text(p)|..];
    match p
    case Comment(text) => assert rest != [] ==> rest[0] == s[1..][|text|];
    case NumberPiece(t) => NumberSound(s);
    case _ =>
  }

  lemma NumberSound(s: string)
    requires s != [] && (s[0] == '-' || IsDigit(s[0]))
    ensures var n := 1 + NumberTail(s[0], s[1..]);
            IsNumber(s[..n]) && (n < |s| ==> !IsNumberCont(s[n - 1], s[n]))
  {
    var n := 1 + NumberTail(s[0], s[1..]);
    assert s[..n][1..] == s[1..][..n - 1];
  }

  lemma {:induction false} MunchExact(s: string, rest: string, ok: char -> bool)
    requires (forall i :: 0 <= i < |s| ==> ok(s[i])) && (rest != [] ==> !ok(rest[0]))
    ensures Munch(s + rest, ok) == |s|
  {
    if s == [] {
      assert s + rest == rest;
    } else {
      MunchExact(s[1..], rest, ok);
      assert (s + rest)[1..] == s[1..] + rest;
    }
  }

  lemma {:induction false} NumberTailExact(prev: char, s: string, rest: string)
    requires NumberRun(prev, s) && (rest != [] ==> !IsNumberCont(LastOr(prev, s), rest[0]))
    ensures NumberTail(prev, s + rest) == |s|
    decreases |s|
  {
    if s == [] {
      assert s + rest == rest;
    } else {
      NumberTailExact(s[0], s[1..], rest);
      assert (s + rest)[1..] == s[1..] + rest;
    }
  }

  lemma {:induction false} BodyLenExact(body: string, rest: string)
    requires WellEscaped(body)
    ensures BodyLen(body + "\"" + rest) == Some(|body|)
  {
    var s := body + "\"" + rest;
    if body != [] {
      var step := if body[0] == '\\' then 2 else 1;
      BodyLenExact(body[step..], rest);
      assert s[step..] == body[step..] + "\"" + rest;
    }
  }

  lemma ScanStringComplete(body: string, rest: string)
    requires WellEscaped(body)
    ensures ScanPiece("\"" + body + "\"" + rest) == Some(StringPiece(body))
  {
    hide Munch, NumberTail, BodyLen, WellEscaped;
    var s := "\"" + body + "\"" + rest;
    BodyLenExact(body, rest);
    assert s[1..] == body + "\"" + rest;
    assert s[1..][..|body|] == body;
  }

  lemma ScanCommentComplete(text: string, rest: string)
    requires '\n' !in text && (rest != [] ==> rest[0] == '\n')
    ensures ScanPiece("#" + text + rest) == Some(Comment(text))
  {
    hide Munch, NumberTail, BodyLen, WellEscaped;
    var s := "#" + text + rest;
    MunchExact(text, rest, NotNewline);
    assert s[1..] == text + rest;
    assert s[1..][..|text|] == text;
  }

  lemma ScanNameComplete(t: string, rest: string)
    requires IsName(t) && (rest != [] ==> !IsNameCont(rest[0]))
    ensures ScanPiece(t + rest) == Some(NamePiece(t))
  {
    hide Munch, NumberTail, BodyLen, WellEscaped;
    MunchExact(t, rest, IsNameCont);
    assert (t + rest)[0] == t[0] && (t + rest)[..|t|] == t;
  }

  lemma ScanNumberComplete(t: string, rest: string)
    requires IsNumber(t) && (rest != [] ==> !IsNumberCont(t[|t| - 1], rest[0]))
    ensures ScanPiece(t + rest) == Some(NumberPiece(t))
  {
    hide Munch, NumberTail, BodyLen, WellEscaped, NumberRun, IsNumberCont;
    var s := t + rest;
    NumberTailExact(t[0], t[1..], rest);
    assert s[1..] == t[1..] + rest;
    assert s[0] == t[0] && s[..|t|] == t;
  }

  lemma ScanPieceComplete(p: Piece, rest: string)
    requires PieceOk(p) && Ends(p, rest)
    ensures Text(p) != [] && ScanPiece(Text(p) + rest) == Some(p)
  {
    match p
    case Blank(_) =>
    case PunctPiece(_) =>
    case Comment(text) => ScanCommentComplete(text, rest);
    case StringPiece(body) => ScanStringComplete(body, rest);
    case NamePiece(t) => ScanNameComplete(t, rest);
    case NumberPiece(t) => ScanNumberComplete(t, rest);
  }

  lemma Cons(p: Piece, ps: seq<Piece>)
    ensures TextOf([p] + ps) == Text(p) + TextOf(ps)
    ensures TokensOf([p] + ps) == TokensOfPiece(p) + TokensOf(ps)
    ensures Lexical([p] + ps) <==> PieceOk(p) && Ends(p, TextOf(ps)) && Lexical(ps)
  {
    assert ([p] + ps)[1..] == ps;
  }

  /** A scan is a first piece and the scan of the rest. */
  lemma ScanSplit(s: string) returns (p: Piece, rest: string)
    requires s != [] && Scan(s).Some?
    ensures Text(p) != [] && s == Text(p) + rest && PieceOk(p) && Ends(p, rest)
    ensures Scan(rest).Some? && Scan(s).value == [p] + Scan(rest).value
  {
    hide ScanPiece, PieceOk, Ends, Text;
    p := ScanPiece(s).value;
    rest := s[|Text(p)|..];
    ScanPieceSound(s);
  }

  lemma {:induction false} ScanSound(s: string)
    requires Scan(s).Some?
    ensures Lexical(Scan(s).value) && TextOf(Scan(s).value) == s
    decreases |s|
  {
    if s != [] {
      hide Scan, ScanPiece, PieceOk, Ends, Text, Lexical, TextOf, TokensOf;
      var p, rest := ScanSplit(s);
      ScanSound(rest);
      Cons(p, Scan(rest).value);
    }
  }

  lemma {:induction false} ScanComplete(ps: seq<Piece>)
    requires Lexical(ps)
    ensures Scan(TextOf(ps)) == Some(ps)
  {
    if ps != [] {
      var rest := TextOf(ps[1..]);
      ScanPieceComplete(ps[0], rest);
      ScanComplete(ps[1..]);
      assert TextOf(ps)[|Text(ps[0])|..] == rest;
      assert ps == [ps[0]] + ps[1..];
    }
  }

  /** The scanner splits `s` into `ps` exactly when `ps` is a lexical derivation of `s`;
      in particular a document has at most one derivation. */
  lemma ScanExact(s: string, ps: seq<Piece>)
    ensures Scan(s) == Some(ps) <==> Lexical(ps) && TextOf(ps) == s
  {
    if Scan(s).Some? {
      ScanSound(s);
    }
    if Lexical(ps) {
      ScanComplete(ps);
    }
  }

  // ---------------------------------------------------------------------------
  // Tokens a document can produce
  // ---------------------------------------------------------------------------

  /** Tokens that some text spells: the tokens of pieces. */
  ghost predicate Spellable(t: Token) {
    match t
    case Punct(c) => IsPunct(c)
    case Str(_) => true
    case Name(s) => IsName(s)
    case IntLit(s) => IsNumber(s) && !HasFloatMark(s)
    case FloatLit(s) => IsNumber(s) && HasFloatMark(s)
    case Eof => false
  }

  ghost predicate AllSpellable(ts: seq<Token>) {
    forall i :: 0 <= i < |ts| ==> Spellable(ts[i])
  }

  lemma {:induction false} LexicalSpellable(ps: seq<Piece>)
    requires Lexical(ps)
    ensures AllSpellable(TokensOf(ps))
  {
    if ps != [] {
      LexicalSpellable(ps[1..]);
    }
  }

  /** The list ends in the only end marker it holds. */
  ghost predicate OneEof(ts: seq<Token>) {
    |ts| > 0 && ts[|ts| - 1] == Eof && forall i :: 0 <= i < |ts| - 1 ==> ts[i] != Eof
  }

  /** Lexing never fails to end in one end marker, and everything before it is a real token. */
  lemma LexOneEof(s: string)
    requires Lex(s).Some?
    ensures var ts := Lex(s).value;
            OneEof(ts) && AllSpellable(ts[..|ts| - 1])
  {
    ScanSound(s);
    LexicalSpellable(Scan(s).value);
    var ts := Lex(s).value;
    assert ts[..|ts| - 1] == TokensOf(Scan(s).value);
    assert forall i :: 0 <= i < |ts| - 1 ==> ts[i] == ts[..|ts| - 1][i];
  }

  // ---------------------------------------------------------------------------
  // Spelling tokens as bytes
  // ---------------------------------------------------------------------------

  function Escape(s: string): string {
    if s == [] then []
    else (if s[0] == '"' || s[0] == '\\' then ['\\', s[0]] else [s[0]]) + Escape(s[1..])
  }

  lemma {:induction false} EscapeExact(s: string)
    ensures WellEscaped(Escape(s)) && Unescape(Escape(s)) == s
  {
    if s != [] {
      EscapeExact(s[1..]);
      var e := Escape(s);
      var step := if s[0] == '"' || s[0] == '\\' then 2 else 1;
      assert e[step..] == Escape(s[1..]);
      assert s == [s[0]] + s[1..];
    }
  }

  function PieceOf(t: Token): Piece {
    match t
    case Punct(c) => PunctPiece(c)
    case Str(s) => StringPiece(Escape(s))
    case Name(s) => NamePiece(s)
    case IntLit(s) => NumberPiece(s)
    case FloatLit(s) => NumberPiece(s)
    case Eof => Blank(' ')
  }

  lemma PieceOfExact(t: Token, rest: string)
    requires Spellable(t)
    ensures PieceOk(PieceOf(t)) && TokensOfPiece(PieceOf(t)) == [t] && Ends(PieceOf(t), " " + rest)
  {
    if t.Str? { EscapeExact(t.val); }
  }

  /** Each token followed by one space. */
  function Spell(ts: seq<Token>): string {
    if ts == [] then [] else Text(PieceOf(ts[0])) + (" " + Spell(ts[1..]))
  }

  function SpellPieces(ts: seq<Token>): seq<Piece> {
    if ts == [] then [] else [PieceOf(ts[0])] + ([Blank(' ')] + SpellPieces(ts[1..]))
  }

  lemma {:induction false} SpellPiecesExact(ts: seq<Token>)
    requires AllSpellable(ts)
    ensures Lexical(SpellPieces(ts)) && TextOf(SpellPieces(ts)) == Spell(ts) && TokensOf(SpellPieces(ts)) == ts
  {
    if ts != [] {
      var p, rest := PieceOf(ts[0]), SpellPieces(ts[1..]);
      SpellPiecesExact(ts[1..]);
      PieceOfExact(ts[0], Spell(ts[1..]));
      Cons(Blank(' '), rest);
      Cons(p, [Blank(' ')] + rest);
      assert [ts[0]] + ([] + ts[1..]) == ts;
    }
  }

  /** Spelling any list of tokens and lexing the bytes gives the tokens back. */
  lemma LexSpell(ts: seq<Token>)
    requires AllSpellable(ts)
    ensures Lex(Spell(ts)) == Some(ts + [Eof])
  {
    SpellPiecesExact(ts);
    ScanExact(Spell(ts), SpellPieces(ts));
  }

  // ---------------------------------------------------------------------------
  // The scanning loops of the source
  // ---------------------------------------------------------------------------

  /** The result when `acc` has been produced and `s` is left to scan. */
  function LexFrom(acc: seq<Token>, s: string): Option<seq<Token>> {
    match Scan(s)
    case None => None
    case Some(ps) => Some(acc + TokensOf(ps) + [Eof])
  }

  lemma LexStep(acc: seq<Token>, input: string, i: nat, p: Piece)
    requires i < |input| && ScanPiece(input[i..]) == Some(p)
    ensures i + |Text(p)| <= |input|
    ensures LexFrom(acc, input[i..]) == LexFrom(acc + TokensOfPiece(p), input[i + |Text(p)|..])
  {
    ScanStep(input, i, p);
    var rest := Scan(input[i + |Text(p)|..]);
    if rest.Some? {
      AppendPiece(acc, p, rest.value);
    }
  }

  lemma ScanStep(input: string, i: nat, p: Piece)
    requires i < |input| && ScanPiece(input[i..]) == Some(p)
    ensures i + |Text(p)| <= |input|
    ensures Scan(input[i..]) == match Scan(input[i + |Text(p)|..]) case None => None case Some(ps) => Some([p] + ps)
  {
    assert input[i..][|Text(p)|..] == input[i + |Text(p)|..];
  }

  lemma AppendPiece(acc: seq<Token>, p: Piece, ps: seq<Piece>)
    ensures acc + TokensOf([p] + ps) == acc + TokensOfPiece(p) + TokensOf(ps)
  {
    Cons(p, ps);
    assert acc + (TokensOfPiece(p) + TokensOf(ps)) == acc + TokensOfPiece(p) + TokensOf(ps);
  }

  lemma UnescapePlain(c: char, s: string)
    requires c != '\\'
    ensures Unescape([c] + s) == [c] + Unescape(s)
  {
    assert ([c] + s)[1..] == s;
  }

  lemma UnescapeEscaped(c: char, s: string)
    ensures Unescape(['\\', c] + s) == [UnescapeByte(c)] + Unescape(s)
  {
    assert (['\\', c] + s)[2..] == s;
  }

  lemma Assoc(a: string, b: string, c: string)
    ensures a + b + c == a + (b + c)
  {
  }

  lemma AppendPlain(c: char, t: string, b: string)
    requires c != '\\' && Unescape(t + b) == Unescape(t) + Unescape(b)
    ensures Unescape([c] + t + b) == Unescape([c] + t) + Unescape(b)
  {
    UnescapePlain(c, t);
    UnescapePlain(c, t + b);
    hide Unescape;
    Assoc([c], t, b);
    Assoc([c], Unescape(t), Unescape(b));
  }

  lemma AppendEscaped(c: char, t: string, b: string)
    requires Unescape(t + b) == Unescape(t) + Unescape(b)
    ensures Unescape(['\\', c] + t + b) == Unescape(['\\', c] + t) + Unescape(b)
  {
    UnescapeEscaped(c, t);
    UnescapeEscaped(c, t + b);
    hide Unescape, UnescapeByte;
    Assoc(['\\', c], t, b);
    Assoc([UnescapeByte(c)], Unescape(t), Unescape(b));
  }

  lemma {:induction false} UnescapeAppend(a: string, b: string)
    requires WellEscaped(a)
    ensures Unescape(a + b) == Unescape(a) + Unescape(b)
  {
    if a == [] {
      assert a + b == b;
    } else if a[0] == '\\' {
      UnescapeAppend(a[2..], b);
      AppendEscaped(a[1], a[2..], b);
      assert a == ['\\', a[1]] + a[2..];
    } else {
      UnescapeAppend(a[1..], b);
      AppendPlain(a[0], a[1..], b);
      assert a == [a[0]] + a[1..];
    }
  }

  lemma {:induction false} WellEscapedAppend(a: string, b: string)
    requires WellEscaped(a) && WellEscaped(b)
    ensures WellEscaped(a + b)
  {
    if a == [] {
      assert a + b == b;
    } else if a[0] == '\\' {
      WellEscapedAppend(a[2..], b);
      assert (a + b)[2..] == a[2..] + b;
    } else {
      WellEscapedAppend(a[1..], b);
      assert (a + b)[1..] == a[1..] + b;
    }
  }

  /** Extending a body by a plain byte. */
  lemma PlainByte(body: string, c: char)
    requires WellEscaped(body) && c != '"' && c != '\\'
    ensures WellEscaped(body + [c]) && Unescape(body + [c]) == Unescape(body) + [c]
  {
    var unit := [c];
    assert unit[1..] == [];
    WellEscapedAppend(body, unit);
    UnescapeAppend(body, unit);
  }

  /** Extending a body by an escaped byte. */
  lemma EscapedByte(body: string, c: char)
    requires WellEscaped(body)
    ensures WellEscaped(body + ['\\', c]) && Unescape(body + ['\\', c]) == Unescape(body) + [UnescapeByte(c)]
  {
    var unit := ['\\', c];
    assert unit[2..] == [];
    WellEscapedAppend(body, unit);
    UnescapeAppend(body, unit);
  }

  lemma {:induction false} NumberRunSnoc(prev: char, s: string, c: char)
    requires NumberRun(prev, s) && IsNumberCont(LastOr(prev, s), c)
    ensures NumberRun(prev, s + [c])
    decreases |s|
  {
    if s != [] {
      NumberRunSnoc(s[0], s[1..], c);
      assert (s + [c])[1..] == s[1..] + [c];
    }
  }

  /** Where the string literal opened at `i` closes, seen from inside it at `j`. */
  function CloseFrom(input: string, j: nat): Option<nat>
    requires j <= |input|
  {
    match BodyLen(input[j..])
    case None => None
    case Some(k) => Some(j + k)
  }

  lemma CloseAt(input: string, j: nat)
    requires j <= |input|
    ensures j == |input| ==> CloseFrom(input, j) == None
    ensures j < |input| && input[j] == '"' ==> CloseFrom(input, j) == Some(j)
  {
  }

  lemma CloseStep(input: string, j: nat)
    requires j < |input| && input[j] != '"'
    ensures CloseFrom(input, j) == CloseFrom(input, if input[j] == '\\' && j + 1 < |input| then j + 2 else j + 1)
  {
    var step := if input[j] == '\\' && j + 1 < |input| then 2 else 1;
    assert input[j..][step..] == input[j + step..];
  }

  lemma LongerSlice(s: string, a: nat, b: nat)
    requires a <= b < |s|
    ensures s[a..b + 1] == s[a..b] + [s[b]]
  {
  }

  /** Reads a string literal whose opening quote is at `i`; None if it never closes. */
  method LexString(input: string, i: nat) returns (r: Option<(string, nat)>)
    requires i < |input| && input[i] == '"'
    ensures r.None? ==> CloseFrom(input, i + 1).None?
    ensures r.Some? ==> i < r.value.1 < |input| && CloseFrom(input, i + 1) == Some(r.value.1) &&
                        r.value.0 == Unescape(input[i + 1..r.value.1])
  {
    hide CloseFrom, UnescapeByte;
    var n := |input|;
    var j, sb := i + 1, "";
    CloseAt(input, j);
    while j < n && input[j] != '"'
      invariant i < j <= n
      invariant CloseFrom(input, i + 1) == CloseFrom(input, j)
      invariant j < n ==> WellEscaped(input[i + 1..j]) && sb == Unescape(input[i + 1..j])
    {
      CloseStep(input, j);
      if input[j] == '\\' && j + 1 < n {
        EscapedByte(input[i + 1..j], input[j + 1]);
        LongerSlice(input, i + 1, j);
        LongerSlice(input, i + 1, j + 1);
        assert input[i + 1..j + 2] == input[i + 1..j] + ['\\', input[j + 1]];
        j := j + 1;
        sb := sb + [UnescapeByte(input[j])];
        j := j + 1;
        continue;
      }
      if j + 1 < n {
        PlainByte(input[i + 1..j], input[j]);
        LongerSlice(input, i + 1, j);
      }
      sb := sb + [input[j]];
      j := j + 1;
    }
    CloseAt(input, j);
    if j >= n {
      return None;
    }
    return Some((sb, j));
  }

  predicate StartsLiteral(c: char) {
    c == '"' || IsNameStart(c) || c == '-' || IsDigit(c)
  }

  /** What one turn of the main switch must do at `i`: the tokens to append and where to go on; None on an error. */
  function TurnAt(input: string, i: nat): Option<(seq<Token>, nat)>
    requires i < |input|
  {
    match ScanPiece(input[i..])
    case None => None
    case Some(p) => Some((TokensOfPiece(p), i + |Text(p)|))
  }

  /** The branches of the switch that look at one byte only. */
  lemma SingleByteTurn(input: string, i: nat)
    requires i < |input|
    ensures IsBlank(input[i]) ==> TurnAt(input, i) == Some(([], i + 1))
    ensures IsPunct(input[i]) ==> TurnAt(input, i) == Some(([Punct(input[i])], i + 1))
    ensures !IsBlank(input[i]) && input[i] != '#' && !IsPunct(input[i]) && !StartsLiteral(input[i]) ==>
              TurnAt(input, i) == None
  {
    hide Munch, NumberTail, BodyLen;
  }

  lemma StringPieceAt(input: string, i: nat)
    requires i < |input| && input[i] == '"'
    ensures match CloseFrom(input, i + 1)
            case None => TurnAt(input, i) == None
            case Some(j) => i < j < |input| && TurnAt(input, i) == Some(([Str(Unescape(input[i + 1..j]))], j + 1))
  {
    hide ScanPiece, BodyLen, Unescape, WellEscaped;
    var close := CloseFrom(input, i + 1);
    assert input[i..][1..] == input[i + 1..];
    QuoteScans(input[i..]);
    if close.Some? {
      assert input[i + 1..][..close.value - i - 1] == input[i + 1..close.value];
    }
  }

  lemma QuoteScans(s: string)
    requires s != [] && s[0] == '"'
    ensures BodyLen(s[1..]).None? ==> ScanPiece(s) == None
    ensures BodyLen(s[1..]).Some? ==> ScanPiece(s) == Some(StringPiece(s[1..][..BodyLen(s[1..]).value]))
  {
    hide Munch, NumberTail, BodyLen, WellEscaped;
  }

  /** The end of the name that starts at `i`. */
  method LexName(input: string, i: nat) returns (j: nat)
    requires i < |input| && IsNameStart(input[i])
    ensures i < j <= |input| && TurnAt(input, i) == Some(([Name(input[i..j])], j))
  {
    j := i;
    while j < |input| && IsNameCont(input[j])
      invariant i <= j <= |input|
      invariant forall k :: i <= k < j ==> IsNameCont(input[k])
    {
      j := j + 1;
    }
    ScanNameComplete(input[i..j], input[j..]);
    assert input[i..j] + input[j..] == input[i..];
  }

  /** The end of the number that starts at `i`, and whether it is a float. */
  method LexNumber(input: string, i: nat) returns (j: nat, isFloat: bool)
    requires i < |input| && (input[i] == '-' || IsDigit(input[i]))
    ensures i < j <= |input|
    ensures TurnAt(input, i) == Some(([if isFloat then FloatLit(input[i..j]) else IntLit(input[i..j])], j))
  {
    hide TurnAt, ScanPiece, IsNumberCont, NumberRun, HasFloatMark;
    NumberBegins(input, i);
    j, isFloat := i + 1, false;
    while j < |input| && IsNumberCont(input[j - 1], input[j])
      invariant i < j <= |input|
      invariant NumberRun(input[i], input[i + 1..j])
      invariant isFloat == HasFloatMark(input[i..j])
    {
      if input[j] == '.' || input[j] == 'e' || input[j] == 'E' {
        isFloat := true;
      }
      NumberRunSnoc(input[i], input[i + 1..j], input[j]);
      assert input[i + 1..j + 1] == input[i + 1..j] + [input[j]];
      assert input[i..j + 1] == input[i..j] + [input[j]];
      FloatMarkSnoc(input[i..j], input[j]);
      j := j + 1;
    }
    var s := input[i..j];
    assert s[1..] == input[i + 1..j];
    assert s + input[j..] == input[i..];
    NumberTurn(input, i, j);
  }

  lemma NumberTurn(input: string, i: nat, j: nat)
    requires i < j <= |input| && IsNumber(input[i..j])
    requires j < |input| ==> !IsNumberCont(input[j - 1], input[j])
    ensures var s := input[i..j];
            TurnAt(input, i) == Some(([if HasFloatMark(s) then FloatLit(s) else IntLit(s)], j))
  {
    hide ScanPiece, IsNumberCont, NumberRun, HasFloatMark;
    var s := input[i..j];
    assert s + input[j..] == input[i..];
    ScanNumberComplete(s, input[j..]);
  }

  lemma NumberBegins(input: string, i: nat)
    requires i < |input| && (input[i] == '-' || IsDigit(input[i]))
    ensures NumberRun(input[i], input[i + 1..i + 1]) && !HasFloatMark(input[i..i + 1])
  {
  }

  lemma FloatMarkSnoc(s: string, c: char)
    ensures HasFloatMark(s + [c]) <==> HasFloatMark(s) || IsFloatMark(c)
  {
    var t := s + [c];
    assert t[|s|] == c;
    if HasFloatMark(s) {
      var i :| 0 <= i < |s| && IsFloatMark(s[i]);
      assert IsFloatMark(t[i]);
    }
    if HasFloatMark(t) {
      var i :| 0 <= i < |t| && IsFloatMark(t[i]);
      assert i < |s| ==> IsFloatMark(s[i]);
    }
  }

  /** The end of the comment that starts at `i`. */
  method LexComment(input: string, i: nat) returns (j: nat)
    requires i < |input| && input[i] == '#'
    ensures i < j <= |input| && TurnAt(input, i) == Some(([], j))
  {
    j := i;
    while j < |input| && input[j] != '\n'
      invariant i <= j <= |input|
      invariant forall k :: i <= k < j ==> input[k] != '\n'
    {
      j := j + 1;
    }
    ScanCommentComplete(input[i + 1..j], input[j..]);
    assert "#" + input[i + 1..j] + input[j..] == input[i..];
  }

  /** The branches of the switch that read a string, a name or a number. */
  method LexLiteral(input: string, i: nat) returns (r: Option<(seq<Token>, nat)>)
    requires i < |input| && StartsLiteral(input[i])
    ensures r == TurnAt(input, i)
  {
    hide TurnAt, CloseFrom, IsNameStart, IsDigit, Unescape;
    var c := input[i];
    if c == '"' {
      var lit := LexString(input, i);
      StringPieceAt(input, i);
      r := if lit.None? then None else Some(([Str(lit.value.0)], lit.value.1 + 1));
    } else if IsNameStart(c) {
      var j := LexName(input, i);
      r := Some(([Name(input[i..j])], j));
    } else {
      var j, isFloat := LexNumber(input, i);
      r := Some(([if isFloat then FloatLit(input[i..j]) else IntLit(input[i..j])], j));
    }
  }

  /** One turn of the main switch. */
  method LexPiece(input: string, i: nat) returns (r: Option<(seq<Token>, nat)>)
    requires i < |input|
    ensures r == TurnAt(input, i)
  {
    hide TurnAt, IsBlank, IsPunct, StartsLiteral;
    SingleByteTurn(input, i);
    var c := input[i];
    if IsBlank(c) {
      r := Some(([], i + 1));
    } else if c == '#' {
      var j := LexComment(input, i);
      r := Some(([], j));
    } else if IsPunct(c) {
      r := Some(([Punct(c)], i + 1));
    } else if StartsLiteral(c) {
      r := LexLiteral(input, i);
    } else {
      r := None;
    }
  }

  /** Tokenizes a document: it fails exactly when the document has no lexical derivation. */
  method LexGraphQL(input: string) returns (r: Result<seq<Token>>)
    ensures match Lex(input) case None => r.Err? case Some(ts) => r == Ok(ts)
  {
    hide ScanPiece, TokensOfPiece, Text;
    var toks: seq<Token> := [];
    var n := |input|;
    var i := 0;
    LexStart(input);
    while i < n
      invariant 0 <= i <= n
      invariant LexFrom(toks, input[i..]) == Lex(input)
    {
      var piece := LexPiece(input, i);
      if piece.None? {
        return Err;
      }
      LexStep(toks, input, i, ScanPiece(input[i..]).value);
      toks := toks + piece.value.0;
      i := piece.value.1;
    }
    assert input[n..] == [] && toks + TokensOf([]) == toks;
    toks := toks + [Eof];
    return Ok(toks);
  }

  lemma LexStart(input: string)
    ensures LexFrom([], input[0..]) == Lex(input)
  {
    assert input[0..] == input;
    if Scan(input).Some? {
      assert [] + TokensOf(Scan(input).value) == TokensOf(Scan(input).value);
    }
  }
}
