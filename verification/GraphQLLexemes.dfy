/** What lexing makes of texts: the alphabet byte by byte, numbers, comments, and every way of spelling a string. */
module GraphQLLexemes {
  import opened Wrappers
  import opened Decimal
  import opened GraphQLLexer

  /** A first piece that what follows does not extend gives its tokens first. */
  lemma LexCons(p: Piece, rest: string)
    requires PieceOk(p) && Ends(p, rest)
    ensures Lex(Text(p) + rest) == match Lex(rest) case None => None case Some(ts) => Some(TokensOfPiece(p) + ts)
  {
    ScanPieceComplete(p, rest);
    var s := Text(p) + rest;
    assert s[|Text(p)|..] == rest;
    hide ScanPiece, PieceOk, Ends, Text, TokensOfPiece;
    if Scan(rest).Some? {
      var ps := Scan(rest).value;
      assert ([p] + ps)[1..] == ps;
      assert TokensOfPiece(p) + TokensOf(ps) + [Eof] == TokensOfPiece(p) + (TokensOf(ps) + [Eof]);
    }
  }

  lemma LexNothing()
    ensures Lex("") == Some([Eof])
  {
    var none: seq<Piece> := [];
    assert Scan("") == Some(none) && TokensOf(none) + [Eof] == [Eof];
  }

  /** A text that is one piece. */
  lemma LexOne(p: Piece)
    requires PieceOk(p)
    ensures TokensOfPiece(p) == [] ==> Lex(Text(p)) == Some([Eof])
    ensures forall t :: TokensOfPiece(p) == [t] ==> Lex(Text(p)) == Some([t, Eof])
  {
    LexCons(p, "");
    LexNothing();
    hide Lex, PieceOk, Text, TokensOfPiece;
    assert Text(p) + "" == Text(p);
    var none: seq<Token> := [];
    assert none + [Eof] == [Eof];
    assert forall t :: [t] + [Eof] == [t, Eof];
  }

  /** A text that begins with one piece. */
  lemma LexFirst(p: Piece, t: Token, rest: string)
    requires PieceOk(p) && Ends(p, rest) && TokensOfPiece(p) == [t]
    ensures Lex(Text(p) + rest).Some? <==> Lex(rest).Some?
    ensures Lex(rest).Some? ==> Lex(Text(p) + rest).value == [t] + Lex(rest).value
    ensures forall u, ts :: Lex(Text(p) + rest) == Some([u] + ts) ==> u == t
    ensures forall u :: Lex(Text(p) + rest) == Some([u, Eof]) ==> u == t
  {
    LexCons(p, rest);
    hide Lex;
    forall u, ts | Lex(Text(p) + rest) == Some([u] + ts)
      ensures u == t
    {
      assert ([u] + ts)[0] == u;
    }
    forall u | Lex(Text(p) + rest) == Some([u, Eof])
      ensures u == t
    {
      assert [u, Eof][0] == u;
    }
  }

  // ---------------------------------------------------------------------------
  // The alphabet
  // ---------------------------------------------------------------------------

  lemma BadByte(s: string)
    requires s != "" && ScanPiece(s) == None
    ensures Lex(s) == None
  {
  }

  /** Every document of one byte. */
  lemma OneByte(c: char)
    ensures Lex([c]) ==
            if c in " \t\n\r," || c == '#' then Some([Eof])
            else if c in "{}():$!=[]@" then Some([Punct(c), Eof])
            else if c == '_' || 'a' <= c <= 'z' || 'A' <= c <= 'Z' then Some([Name([c]), Eof])
            else if c == '-' || '0' <= c <= '9' then Some([IntLit([c]), Eof])
            else None
  {
    if ScanPiece([c]) == None {
      BadByte([c]);
    } else {
      OneByteScans(c);
      hide Lex, ScanPiece, Text;
      LexOne(OneBytePiece(c));
    }
  }

  function OneBytePiece(c: char): Piece {
    if IsBlank(c) then Blank(c)
    else if c == '#' then Comment("")
    else if IsPunct(c) then PunctPiece(c)
    else if IsNameStart(c) then NamePiece([c])
    else NumberPiece([c])
  }

  lemma OneByteScans(c: char)
    requires ScanPiece([c]) != None
    ensures var p := OneBytePiece(c);
            PieceOk(p) && Text(p) == [c] && (p.NumberPiece? ==> !HasFloatMark([c]) && (c == '-' || IsDigit(c)))
  {
    assert [c][1..] == "" && "#" + "" == "#";
  }

  /** A letter goes on with letters, digits and underscores, and with nothing else. */
  lemma AfterLetter(c: char)
    ensures Lex("a" + [c]) == Some([Name("a" + [c]), Eof]) <==>
            c == '_' || 'a' <= c <= 'z' || 'A' <= c <= 'Z' || '0' <= c <= '9'
  {
    hide Lex;
    if IsNameCont(c) {
      LexOne(NamePiece("a" + [c]));
      assert TokensOfPiece(NamePiece("a" + [c])) == [Name("a" + [c])];
    } else {
      LexFirst(NamePiece("a"), Name("a"), [c]);
      assert |"a" + [c]| == 2;
    }
  }

  /** A digit goes on with digits to an integer, and with a dot or an exponent to a float. */
  lemma AfterDigit(c: char)
    ensures Lex("1" + [c]) == Some([IntLit("1" + [c]), Eof]) <==> '0' <= c <= '9'
    ensures Lex("1" + [c]) == Some([FloatLit("1" + [c]), Eof]) <==> c == '.' || c == 'e' || c == 'E'
    ensures Lex("1-") == Some([IntLit("1"), IntLit("-"), Eof])
  {
    OneMoreByte("1", c);
    hide Lex;
    assert "1"[1..] == "" && !HasFloatMark("1");
    assert HasFloatMark("1" + [c]) <==> IsFloatMark(c) by { FloatMarkSnoc("1", c); }
    assert ("1" + [c])[..1] == "1";
    TwoNumbers();
  }

  lemma TwoNumbers()
    ensures Lex("1-") == Some([IntLit("1"), IntLit("-"), Eof])
  {
    OneByte('-');
    hide Lex;
    assert "1"[1..] == "" && !HasFloatMark("1");
    LexFirst(NumberPiece("1"), IntLit("1"), ['-']);
    assert "1" + ['-'] == "1-";
    assert [IntLit("1")] + [IntLit("-"), Eof] == [IntLit("1"), IntLit("-"), Eof];
  }

  /** A sign continues a number only after an exponent mark. */
  lemma AfterExponent(e: char, c: char)
    requires e == 'e' || e == 'E'
    ensures Lex(['1', e] + [c]) == Some([FloatLit(['1', e, c]), Eof]) <==>
            '0' <= c <= '9' || c == '.' || c == 'e' || c == 'E' || c == '+' || c == '-'
  {
    assert ['1', e][1..] == [e] && [e][1..] == "" && NumberRun('1', [e]) && NumberRun(e, "");
    OneMoreByte(['1', e], c);
    hide Lex;
    assert IsFloatMark(['1', e, c][1]);
    assert ['1', e] + [c] == ['1', e, c];
  }

  /** The byte `c` after the number `s`: it goes on, or `s` alone is the first token. */
  lemma OneMoreByte(s: string, c: char)
    requires IsNumber(s)
    ensures var t := s + [c];
            if IsNumberCont(s[|s| - 1], c)
            then Lex(t) == Some([if HasFloatMark(t) then FloatLit(t) else IntLit(t), Eof])
            else Lex(t) != Some([FloatLit(t), Eof]) && Lex(t) != Some([IntLit(t), Eof])
  {
    hide Lex;
    var t := s + [c];
    if IsNumberCont(s[|s| - 1], c) {
      NumberRunSnoc(s[0], s[1..], c);
      assert t[1..] == s[1..] + [c] && t[0] == s[0];
      var token := if HasFloatMark(t) then FloatLit(t) else IntLit(t);
      assert TokensOfPiece(NumberPiece(t)) == [token];
      LexOne(NumberPiece(t));
    } else {
      LexFirst(NumberPiece(s), if HasFloatMark(s) then FloatLit(s) else IntLit(s), [c]);
      assert |t| != |s|;
    }
  }

  // ---------------------------------------------------------------------------
  // What is ignored
  // ---------------------------------------------------------------------------

  /** Blanks, line ends and commas between tokens are nothing. */
  lemma BlankIsNothing(c: char, rest: string)
    requires c in " \t\n\r,"
    ensures Lex([c] + rest) == Lex(rest)
  {
    hide Lex;
    LexCons(Blank(c), rest);
    if Lex(rest).Some? { assert [] + Lex(rest).value == Lex(rest).value; }
  }

  /** Neither is a comment up to the end of its line, whatever is in it. */
  lemma CommentIsNothing(text: string, rest: string)
    requires '\n' !in text
    ensures Lex("#" + text + "\n" + rest) == Lex(rest)
  {
    hide Lex;
    LexCons(Comment(text), "\n" + rest);
    assert "#" + text + "\n" + rest == "#" + text + ("\n" + rest);
    assert "\n" + rest == ['\n'] + rest;
    BlankIsNothing('\n', rest);
    if Lex(rest).Some? { assert [] + Lex(rest).value == Lex(rest).value; }
  }

  // ---------------------------------------------------------------------------
  // Strings
  // ---------------------------------------------------------------------------

  /** `t` is a way to write `c` in a string literal: itself unless it is a quote or a backslash, backslash n for a
      newline, backslash t for a tab, and backslash and itself for anything but n and t. */
  predicate Spells(t: string, c: char) {
    || (t == [c] && c != '"' && c != '\\')
    || (t == "\\n" && c == '\n') || (t == "\\t" && c == '\t')
    || (t == ['\\', c] && c != 'n' && c != 't')
  }

  /** The body is a concatenation of spellings of the bytes of `s`. */
  ghost predicate Spelled(body: string, s: string) {
    if s == "" then body == ""
    else exists k: nat :: k <= |body| && Spells(body[..k], s[0]) && Spelled(body[k..], s[1..])
  }

  lemma SpellingLength(t: string, c: char)
    requires Spells(t, c)
    ensures |t| == 1 || (|t| == 2 && t[0] == '\\')
  {
  }

  lemma FirstSpelling(body: string, s: string)
    requires WellEscaped(body) && Unescape(body) == s && s != ""
    ensures var k := if body != "" && body[0] == '\\' then 2 else 1;
            k <= |body| && Spells(body[..k], s[0]) && WellEscaped(body[k..]) && Unescape(body[k..]) == s[1..]
  {
    if body[0] == '\\' {
      assert body[..2] == ['\\', body[1]];
    } else {
      assert body[..1] == [body[0]];
    }
  }

  /** A body stands for `s` if and only if it is a concatenation of spellings of `s`. */
  lemma {:induction false} UnescapeExactly(body: string, s: string)
    ensures WellEscaped(body) && Unescape(body) == s <==> Spelled(body, s)
    decreases |s|, |body|
  {
    if WellEscaped(body) && Unescape(body) == s && s != "" {
      FirstSpelling(body, s);
      var k := if body[0] == '\\' then 2 else 1;
      UnescapeExactly(body[k..], s[1..]);
    }
    if s != "" && Spelled(body, s) {
      var k: nat :| k <= |body| && Spells(body[..k], s[0]) && Spelled(body[k..], s[1..]);
      SpellingLength(body[..k], s[0]);
      UnescapeExactly(body[k..], s[1..]);
      assert body[..k][0] == body[0];
      if k == 2 { assert body[..k][1] == body[1]; }
      assert s == [s[0]] + s[1..];
    }
  }

  /** A literal lexes to the string that its body spells, and to nothing else. */
  lemma StringMeans(body: string, s: string)
    requires Spelled(body, s)
    ensures Lex("\"" + body + "\"") == Some([Str(s), Eof])
  {
    hide Lex, Unescape, WellEscaped, Spelled;
    UnescapeExactly(body, s);
    assert TokensOfPiece(StringPiece(body)) == [Str(s)];
    LexOne(StringPiece(body));
  }

  /** A literal of one byte or one escape. */
  lemma OneCharacter(c: char)
    ensures Lex(['"', '\\', c, '"']) == Some([Str([if c == 'n' then '\n' else if c == 't' then '\t' else c]), Eof])
    ensures c != '"' && c != '\\' ==> Lex(['"', c, '"']) == Some([Str([c]), Eof])
  {
    var v := if c == 'n' then '\n' else if c == 't' then '\t' else c;
    OneSpelled(['\\', c], v);
    StringMeans(['\\', c], [v]);
    assert "\"" + ['\\', c] + "\"" == ['"', '\\', c, '"'];
    if c != '"' && c != '\\' {
      OneSpelled([c], c);
      StringMeans([c], [c]);
      assert "\"" + [c] + "\"" == ['"', c, '"'];
    }
  }

  lemma OneSpelled(t: string, c: char)
    requires Spells(t, c)
    ensures Spelled(t, [c])
  {
    assert t[..|t|] == t && t[|t|..] == "" && [c][1..] == "";
    assert Spelled("", "");
  }
}
