/** The recursive-descent parser of src/graphql/parser.go as the source writes it: a token list, a
    mutable position, and methods that move it. Each method is proved to return what the grammar's
    parser returns for the tokens left, and to leave the position where that parser stops. */
module GraphQLParser {
  import opened Wrappers
  import opened Decimal
  import opened GraphQLLexer
  import opened GraphQLSyntax
  import opened GraphQLDocument

  /** What is left to parse after `xs` has been read from the front. */
  function Prepend<T>(xs: seq<T>, p: Parse<seq<T>>): Parse<seq<T>> {
    match p
    case Fail => Fail
    case Done(ys, rest) => Done(xs + ys, rest)
  }

  lemma PrependStep<T>(xs: seq<T>, x: T, p: Parse<seq<T>>)
    ensures Prepend(xs, Prepend([x], p)) == Prepend(xs + [x], p)
  {
    if p.Done? {
      assert xs + ([x] + p.value) == xs + [x] + p.value;
    }
  }

  lemma PrependNothing<T>(p: Parse<seq<T>>)
    ensures Prepend([], p) == p
  {
    if p.Done? {
      assert [] + p.value == p.value;
    }
  }

  lemma {:induction false} ToValuesSnoc(vs: seq<CValue>, v: CValue)
    ensures ToValues(vs + [v]) == ToValues(vs) + [ToValue(v)]
  {
    if vs != [] {
      ToValuesSnoc(vs[1..], v);
      assert (vs + [v])[1..] == vs[1..] + [v];
    }
  }

  lemma MergeUpdate(a: map<string, Value>, b: map<string, Value>, k: string, v: Value)
    ensures (a + b)[k := v] == a + b[k := v]
  {
  }

  lemma {:induction false} ToMapSnoc(es: seq<CEntry>, e: CEntry)
    ensures ToMap(es + [e]) == ToMap(es)[e.key := ToValue(e.value)]
  {
    hide ToValue;
    if es == [] {
      assert es + [e] == [e] && [e][1..] == [];
      assert ToMap([e]) == map[e.key := ToValue(e.value)] + ToMap([]);
    } else {
      ToMapSnoc(es[1..], e);
      assert (es + [e])[1..] == es[1..] + [e];
      MergeUpdate(map[es[0].key := ToValue(es[0].value)], ToMap(es[1..]), e.key, ToValue(e.value));
    }
  }

  lemma {:induction false} ToFieldsSnoc(fs: seq<CField>, f: CField)
    ensures ToFields(fs + [f]) == ToFields(fs) + [ToField(f)]
  {
    if fs != [] {
      ToFieldsSnoc(fs[1..], f);
      assert (fs + [f])[1..] == fs[1..] + [f];
    }
  }

  // The loops of the parser, one turn at a time: `read` has been read since `start`, `here` is left.

  lemma ItemsTurn(start: seq<Token>, read: seq<CValue>, here: seq<Token>, okFloat: string -> bool)
    requires PItems(start, okFloat) == Prepend(read, PItems(here, okFloat))
    ensures Starts(here, Punct(']')) ==> PItems(start, okFloat) == Done(read, here[1..])
    ensures !Starts(here, Punct(']')) && PValue(here, okFloat).Fail? ==> PItems(start, okFloat) == Fail
    ensures !Starts(here, Punct(']')) && PValue(here, okFloat).Done? ==>
              var r := PValue(here, okFloat);
              PItems(start, okFloat) == Prepend(read + [r.value], PItems(r.rest, okFloat))
    ensures PValue(here, okFloat).Done? ==>
              var v := PValue(here, okFloat).value; ToValues(read + [v]) == ToValues(read) + [ToValue(v)]
  {
    hide PValue, ToValues;
    assert read + [] == read;
    if PValue(here, okFloat).Done? {
      var v, rest := PValue(here, okFloat).value, PValue(here, okFloat).rest;
      PrependStep(read, v, PItems(rest, okFloat));
      ToValuesSnoc(read, v);
    }
  }

  lemma EntriesTurn(start: seq<Token>, read: seq<CEntry>, here: seq<Token>, close: char, okFloat: string -> bool)
    requires PEntries(start, close, okFloat) == Prepend(read, PEntries(here, close, okFloat))
    ensures Starts(here, Punct(close)) ==> PEntries(start, close, okFloat) == Done(read, here[1..])
    ensures !Starts(here, Punct(close)) && !EntryAt(here, okFloat).Done? ==> PEntries(start, close, okFloat) == Fail
    ensures !Starts(here, Punct(close)) && EntryAt(here, okFloat).Done? ==>
              var r := EntryAt(here, okFloat);
              PEntries(start, close, okFloat) == Prepend(read + [r.value], PEntries(r.rest, close, okFloat))
    ensures EntryAt(here, okFloat).Done? ==>
              var e := EntryAt(here, okFloat).value; ToMap(read + [e]) == ToMap(read)[e.key := ToValue(e.value)]
  {
    hide PValue, ToMap;
    assert read + [] == read;
    if EntryAt(here, okFloat).Done? {
      var r := EntryAt(here, okFloat);
      PrependStep(read, r.value, PEntries(r.rest, close, okFloat));
      ToMapSnoc(read, r.value);
    }
  }

  lemma FieldsTurn(start: seq<Token>, read: seq<CField>, here: seq<Token>, okFloat: string -> bool)
    requires PFields(start, okFloat) == Prepend(read, PFields(here, okFloat))
    ensures Starts(here, Punct('}')) ==> PFields(start, okFloat) == Done(read, here[1..])
    ensures !Starts(here, Punct('}')) && PField(here, okFloat).Fail? ==> PFields(start, okFloat) == Fail
    ensures !Starts(here, Punct('}')) && PField(here, okFloat).Done? ==>
              var r := PField(here, okFloat);
              PFields(start, okFloat) == Prepend(read + [r.value], PFields(r.rest, okFloat))
    ensures PField(here, okFloat).Done? ==>
              var f := PField(here, okFloat).value; ToFields(read + [f]) == ToFields(read) + [ToField(f)]
  {
    hide PField, ToFields;
    assert read + [] == read;
    if PField(here, okFloat).Done? {
      var f, rest := PField(here, okFloat).value, PField(here, okFloat).rest;
      PrependStep(read, f, PFields(rest, okFloat));
      ToFieldsSnoc(read, f);
    }
  }

  lemma NoFieldAtEof(here: seq<Token>, okFloat: string -> bool)
    requires Starts(here, Eof)
    ensures PField(here, okFloat) == Fail
  {
  }

  /** The strings a field keeps of its header. */
  function HeaderNames(header: (Option<string>, string)): (string, string) {
    (if header.0.Some? then header.0.value else "", header.1)
  }

  /** One `key: value` pair. */
  function EntryAt(ts: seq<Token>, okFloat: string -> bool): Parse<CEntry> {
    if StartsName(ts) && Starts(ts[1..], Punct(':')) then
      match PValue(ts[1..][1..], okFloat)
      case Fail => Fail
      case Done(v, rest) => Done(CEntry(ts[0].val, v), rest)
    else Fail
  }

  class Parser {
    const toks: seq<Token>
    const okFloat: string -> bool
    var pos: nat

    /** The only end marker is the last token, and the position is on a token. */
    ghost predicate Valid()
      reads this
    {
      pos < |toks| && OneEof(toks)
    }

    ghost function Rest(): seq<Token>
      requires pos <= |toks|
      reads this
    {
      toks[pos..]
    }

    constructor (toks: seq<Token>, okFloat: string -> bool)
      requires OneEof(toks)
      ensures Valid() && this.toks == toks && this.okFloat == okFloat && Rest() == toks
    {
      this.toks := toks;
      this.okFloat := okFloat;
      this.pos := 0;
    }

    /** The current token; never past the end. */
    function Peek(): (t: Token)
      requires Valid()
      reads this
      ensures Starts(Rest(), t) && (t == Eof <==> Rest() == [Eof])
    {
      toks[pos]
    }

    /** Takes the current token; the end marker is never consumed. */
    method Next() returns (t: Token)
      requires Valid()
      modifies this`pos
      ensures Valid() && t == old(Peek())
      ensures t != Eof ==> Rest() == old(Rest())[1..] && pos == old(pos) + 1
      ensures t == Eof ==> pos == old(pos)
    {
      t := Peek();
      if pos < |toks| - 1 {
        pos := pos + 1;
      }
    }

    /** Takes the current token; whether it was the punctuator `c`. */
    method ExpectPunct(c: char) returns (ok: bool)
      requires Valid()
      modifies this`pos
      ensures Valid() && ok == Starts(old(Rest()), Punct(c))
      ensures ok ==> Rest() == old(Rest())[1..] && pos == old(pos) + 1
    {
      var t := Next();
      ok := t == Punct(c);
    }

    /** The values that are one token long. */
    method ParseLiteral() returns (r: Result<Value>)
      requires Valid() && !Peek().Punct?
      modifies this`pos
      ensures Valid() && (r.Ok? <==> PValue(old(Rest()), okFloat).Done?)
      ensures r.Ok? ==> r.value == ToValue(PValue(old(Rest()), okFloat).value)
      ensures r.Ok? ==> Rest() == PValue(old(Rest()), okFloat).rest
    {
      var t := Next();
      if t.Str? {
        return Ok(String(t.val));
      } else if t.IntLit? {
        var n := ParseInt64(t.val);
        if n.None? {
          return Err;
        }
        return Ok(Int(n.value));
      } else if t.FloatLit? {
        if !okFloat(t.val) {
          return Err;
        }
        return Ok(Float(t.val));
      } else if t == Name("true") {
        return Ok(Bool(true));
      } else if t == Name("false") {
        return Ok(Bool(false));
      } else if t == Name("null") {
        return Ok(Null);
      } else {
        return Err;
      }
    }

    method ParseValue() returns (r: Result<Value>)
      requires Valid()
      modifies this`pos
      ensures Valid() && (r.Ok? <==> PValue(old(Rest()), okFloat).Done?)
      ensures r.Ok? ==> r.value == ToValue(PValue(old(Rest()), okFloat).value)
      ensures r.Ok? ==> Rest() == PValue(old(Rest()), okFloat).rest
      decreases |toks| - pos, 0
    {
      hide PItems, PEntries, ToValues, ToMap, ParseInt64;
      var t := Peek();
      if !t.Punct? {
        r := ParseLiteral();
      } else if t == Punct('$') {
        var _ := Next();
        if !Peek().Name? {
          return Err;
        }
        var name := Next();
        r := Ok(Var(name.val));
      } else if t == Punct('[') {
        var _ := Next();
        var items := ParseItems();
        r := if items.Ok? then Ok(List(items.value)) else Err;
      } else if t == Punct('{') {
        var _ := Next();
        var fields := ParseEntries('}');
        r := if fields.Ok? then Ok(Object(fields.value)) else Err;
      } else {
        r := Err;
      }
    }

    /** The values of a list, after its '['. */
    method ParseItems() returns (r: Result<seq<Value>>)
      requires Valid()
      modifies this`pos
      ensures Valid() && (r.Ok? <==> PItems(old(Rest()), okFloat).Done?)
      ensures r.Ok? ==> r.value == ToValues(PItems(old(Rest()), okFloat).value)
      ensures r.Ok? ==> Rest() == PItems(old(Rest()), okFloat).rest
      decreases |toks| - pos, 1
    {
      hide PValue, PItems, Prepend, ToValue;
      ghost var start, read: seq<CValue> := Rest(), [];
      var list := [];
      PrependNothing(PItems(start, okFloat));
      while Peek() != Punct(']')
        invariant Valid() && old(pos) <= pos
        invariant PItems(start, okFloat) == Prepend(read, PItems(Rest(), okFloat))
        invariant list == ToValues(read)
        decreases |toks| - pos
      {
        ghost var here := Rest();
        ItemsTurn(start, read, here, okFloat);
        var v := ParseValue();
        if v.Err? {
          return Err;
        }
        list, read := list + [v.value], read + [PValue(here, okFloat).value];
      }
      ItemsTurn(start, read, Rest(), okFloat);
      var _ := Next();
      return Ok(list);
    }

    /** `key: value` pairs up to `close`; a repeated key keeps its last value. */
    method ParseEntries(close: char) returns (r: Result<map<string, Value>>)
      requires Valid()
      modifies this`pos
      ensures Valid() && (r.Ok? <==> PEntries(old(Rest()), close, okFloat).Done?)
      ensures r.Ok? ==> r.value == ToMap(PEntries(old(Rest()), close, okFloat).value)
      ensures r.Ok? ==> Rest() == PEntries(old(Rest()), close, okFloat).rest
      decreases |toks| - pos, 1
    {
      hide PValue, PEntries, Prepend, ToValue;
      ghost var start, read: seq<CEntry> := Rest(), [];
      var obj: map<string, Value> := map[];
      PrependNothing(PEntries(start, close, okFloat));
      while Peek() != Punct(close)
        invariant Valid() && old(pos) <= pos
        invariant PEntries(start, close, okFloat) == Prepend(read, PEntries(Rest(), close, okFloat))
        invariant obj == ToMap(read)
        decreases |toks| - pos
      {
        ghost var here := Rest();
        EntriesTurn(start, read, here, close, okFloat);
        if !Peek().Name? {
          return Err;
        }
        var key := Next();
        var ok := ExpectPunct(':');
        if !ok {
          return Err;
        }
        var v := ParseValue();
        if v.Err? {
          return Err;
        }
        ghost var e := CEntry(key.val, PValue(here[1..][1..], okFloat).value);
        obj, read := obj[key.val := v.value], read + [e];
      }
      EntriesTurn(start, read, Rest(), close, okFloat);
      var _ := Next();
      return Ok(obj);
    }
  
    method ParseArguments() returns (r: Result<map<string, Value>>)
      requires Valid() && Starts(Rest(), Punct('('))
      modifies this`pos
      ensures Valid() && (r.Ok? <==> PArgs(old(Rest()), okFloat).Done?)
      ensures r.Ok? ==> r.value == ToArgs(PArgs(old(Rest()), okFloat).value)
      ensures r.Ok? ==> Rest() == PArgs(old(Rest()), okFloat).rest
      decreases |toks| - pos, 2
    {
      hide PEntries, ToMap;
      var ok := ExpectPunct('(');
      r := ParseEntries(')');
    }

    /** An optional argument list. */
    method ParseOptArguments() returns (r: Result<map<string, Value>>)
      requires Valid()
      modifies this`pos
      ensures Valid() && (r.Ok? <==> PArgs(old(Rest()), okFloat).Done?)
      ensures r.Ok? ==> r.value == ToArgs(PArgs(old(Rest()), okFloat).value)
      ensures r.Ok? ==> Rest() == PArgs(old(Rest()), okFloat).rest
      decreases |toks| - pos, 3
    {
      if Peek() == Punct('(') {
        r := ParseArguments();
      } else {
        r := Ok(map[]);
      }
    }

    /** Skips `@name(...)` any number of times. */
    method SkipDirectives() returns (ok: bool)
      requires Valid()
      modifies this`pos
      ensures Valid()
      ensures ok == PDirectives(old(Rest()), okFloat).Done?
      ensures ok ==> Rest() == PDirectives(old(Rest()), okFloat).rest
      decreases |toks| - pos, 4
    {
      hide PArgs, ToArgs;
      ghost var start := Rest();
      while Peek() == Punct('@')
        invariant Valid() && old(pos) <= pos
        invariant PDirectives(start, okFloat).Done? == PDirectives(Rest(), okFloat).Done?
        invariant PDirectives(start, okFloat).Done? ==>
                    PDirectives(start, okFloat).rest == PDirectives(Rest(), okFloat).rest
        decreases |toks| - pos
      {
        var _ := Next();
        if !Peek().Name? {
          return false;
        }
        var _ := Next();
        var args := ParseOptArguments();
        if args.Err? {
          return false;
        }
      }
      return true;
    }

    /** `name` or `alias: name`. */
    method ParseHeader() returns (r: Result<(string, string)>)
      requires Valid()
      modifies this`pos
      ensures Valid() && (r.Ok? <==> PHeader(old(Rest())).Done?)
      ensures r.Ok? ==> r.value == HeaderNames(PHeader(old(Rest())).value) && Rest() == PHeader(old(Rest())).rest
      ensures r.Ok? ==> old(pos) < pos
    {
      if !Peek().Name? {
        return Err;
      }
      var first := Next();
      if Peek() == Punct(':') {
        var _ := Next();
        if !Peek().Name? {
          return Err;
        }
        var name := Next();
        return Ok((first.val, name.val));
      }
      return Ok(("", first.val));
    }

    method ParseField() returns (r: Result<Field>)
      requires Valid()
      modifies this`pos
      ensures Valid() && (r.Ok? <==> PField(old(Rest()), okFloat).Done?)
      ensures r.Ok? ==> r.value == ToField(PField(old(Rest()), okFloat).value)
      ensures r.Ok? ==> Rest() == PField(old(Rest()), okFloat).rest
      decreases |toks| - pos, 0
    {
      hide PHeader, PArgs, PDirectives, PFields, ToArgs, ToFields;
      ghost var start := Rest();
      var header := ParseHeader();
      if header.Err? {
        return Err;
      }
      var args := ParseOptArguments();
      if args.Err? {
        return Err;
      }
      var skipped := SkipDirectives();
      if !skipped {
        return Err;
      }
      var selection: seq<Field> := [];
      if Peek() == Punct('{') {
        var sel := ParseSelectionSet();
        if sel.Err? {
          return Err;
        }
        selection := sel.value;
      }
      return Ok(Field(header.value.0, header.value.1, args.value, selection));
    }

    method ParseSelectionSet() returns (r: Result<seq<Field>>)
      requires Valid()
      modifies this`pos
      ensures Valid() && (r.Ok? <==> PSelectionSet(old(Rest()), okFloat).Done?)
      ensures r.Ok? ==> r.value == ToFields(PSelectionSet(old(Rest()), okFloat).value)
      ensures r.Ok? ==> Rest() == PSelectionSet(old(Rest()), okFloat).rest
      decreases |toks| - pos, 1
    {
      hide PFields, PField, Prepend, ToField;
      var ok := ExpectPunct('{');
      if !ok {
        return Err;
      }
      ghost var start, read: seq<CField> := Rest(), [];
      var fields := [];
      PrependNothing(PFields(start, okFloat));
      while Peek() != Punct('}')
        invariant Valid() && old(pos) < pos
        invariant PFields(start, okFloat) == Prepend(read, PFields(Rest(), okFloat))
        invariant fields == ToFields(read)
        decreases |toks| - pos
      {
        ghost var here := Rest();
        FieldsTurn(start, read, here, okFloat);
        if Peek() == Eof {
          NoFieldAtEof(here, okFloat);
          return Err;
        }
        var f := ParseField();
        if f.Err? {
          return Err;
        }
        fields, read := fields + [f.value], read + [PField(here, okFloat).value];
      }
      FieldsTurn(start, read, Rest(), okFloat);
      var _ := Next();
      return Ok(fields);
    }
  
    method SkipType() returns (ok: bool)
      requires Valid()
      modifies this`pos
      ensures Valid() && ok == PType(old(Rest())).Done?
      ensures ok ==> Rest() == PType(old(Rest())).rest
      decreases |toks| - pos
    {
      if Peek() == Punct('[') {
        var _ := Next();
        ok := SkipType();
        if !ok {
          return false;
        }
        ok := ExpectPunct(']');
        if !ok {
          return false;
        }
      } else if Peek().Name? {
        var _ := Next();
      } else {
        return false;
      }
      if Peek() == Punct('!') {
        var _ := Next();
      }
      return true;
    }

    /** Skips `$name: Type = default`. */
    method SkipVariableDefinition() returns (ok: bool)
      requires Valid()
      modifies this`pos
      ensures Valid() && ok == PVarDef(old(Rest()), okFloat).Done?
      ensures ok ==> Rest() == PVarDef(old(Rest()), okFloat).rest
    {
      hide PType, PValue, ToValue;
      ok := ExpectPunct('$');
      if !ok {
        return false;
      }
      if !Peek().Name? {
        return false;
      }
      var _ := Next();
      ok := ExpectPunct(':');
      if !ok {
        return false;
      }
      ok := SkipType();
      if !ok {
        return false;
      }
      if Peek() == Punct('=') {
        var _ := Next();
        var v := ParseValue();
        if v.Err? {
          return false;
        }
      }
      return true;
    }

    /** Skips a parenthesised list of variable definitions. */
    method SkipVariableDefinitions() returns (ok: bool)
      requires Valid() && Starts(Rest(), Punct('('))
      modifies this`pos
      ensures Valid() && ok == POptVarDefs(old(Rest()), okFloat).Done?
      ensures ok ==> Rest() == POptVarDefs(old(Rest()), okFloat).rest
    {
      hide PVarDef;
      ok := ExpectPunct('(');
      ghost var start := Rest();
      while Peek() != Punct(')')
        invariant Valid()
        invariant PVarDefs(start, okFloat).Done? == PVarDefs(Rest(), okFloat).Done?
        invariant PVarDefs(start, okFloat).Done? ==> PVarDefs(start, okFloat).rest == PVarDefs(Rest(), okFloat).rest
        decreases |toks| - pos
      {
        ok := SkipVariableDefinition();
        if !ok {
          return false;
        }
      }
      var _ := Next();
      return true;
    }

    /** One operation. */
    method ParseOperation() returns (r: Result<Document>)
      requires Valid()
      modifies this`pos
      ensures Valid() && (r.Ok? <==> POperation(old(Rest()), okFloat).Done?)
      ensures r.Ok? ==> r.value == ToDocument(POperation(old(Rest()), okFloat).value)
      ensures r.Ok? ==> Rest() == POperation(old(Rest()), okFloat).rest
    {
      hide PSelectionSet, POptVarDefs, ToFields;
      var t := Peek();
      if t == Punct('{') {
        var sel := ParseSelectionSet();
        if sel.Err? {
          return Err;
        }
        return Ok(Document("query", sel.value));
      }
      if t != Name("query") && t != Name("mutation") && t != Name("subscription") {
        return Err;
      }
      var _ := Next();
      if t.val == "subscription" {
        return Err;
      }
      if Peek().Name? {
        var _ := Next();
      }
      if Peek() == Punct('(') {
        var ok := SkipVariableDefinitions();
        if !ok {
          return Err;
        }
      } else {
        NoVarDefs(Rest(), okFloat);
      }
      var sel := ParseSelectionSet();
      if sel.Err? {
        return Err;
      }
      return Ok(Document(t.val, sel.value));
    }
  
    /** One operation and nothing after it. */
    method ParseAll() returns (r: Result<Document>)
      requires Valid()
      modifies this`pos
      ensures r.Ok? <==> PDocument(old(Rest()), okFloat).Some?
      ensures r.Ok? ==> r.value == ToDocument(PDocument(old(Rest()), okFloat).value)
    {
      hide POperation, ToDocument, OneEof;
      r := ParseOperation();
      if r.Ok? && Peek() != Eof {
        r := Err;
      }
    }
  }

  lemma NoVarDefs(ts: seq<Token>, okFloat: string -> bool)
    requires !Starts(ts, Punct('('))
    ensures POptVarDefs(ts, okFloat) == Done(None, ts)
  {
  }

  lemma LexEnds(query: string)
    requires Lex(query).Some?
    ensures OneEof(Lex(query).value)
  {
    LexOneEof(query);
  }

  /** Parses a token list that ends in its only end marker. */
  method ParseTokens(toks: seq<Token>, okFloat: string -> bool) returns (r: Result<Document>)
    requires OneEof(toks)
    ensures r.Ok? <==> PDocument(toks, okFloat).Some?
    ensures r.Ok? ==> r.value == ToDocument(PDocument(toks, okFloat).value)
  {
    hide PDocument, ToDocument, OneEof;
    var p := new Parser(toks, okFloat);
    r := p.ParseAll();
  }

  /** Lexes and parses a query: the result is exactly the one the grammar prescribes. */
  method ParseDocument(query: string, okFloat: string -> bool) returns (r: Result<Document>)
    ensures r == ParseQuery(query, okFloat)
  {
    hide Lex, PDocument, ToDocument;
    var toks := LexGraphQL(query);
    if toks.Err? {
      return Err;
    }
    LexEnds(query);
    r := ParseTokens(toks.value, okFloat);
  }
}
