/** From concrete syntax to the documents src/graphql/parser.go returns, and back.

    The main results are about whole queries as bytes: which byte strings parse and to what, that
    every well-formed document is the parse of its printed form, and that parses are well-formed. */
module GraphQLDocument {
  import opened Wrappers
  import opened Decimal
  import opened GraphQLLexer
  import opened GraphQLSyntax

  // ---------------------------------------------------------------------------
  // What a concrete tree means
  // ---------------------------------------------------------------------------

  function ToValue(v: CValue): Value
    decreases v
  {
    match v
    case CVar(n) => Var(n)
    case CInt(s) => Int(var n := ParseInt64(s); if n.Some? then n.value else 0)
    case CFloat(s) => Float(s)
    case CString(s) => String(s)
    case CBool(b) => Bool(b)
    case CNull => Null
    case CList(items) => List(ToValues(items))
    case CObject(entries) => Object(ToMap(entries))
  }

  function ToValues(items: seq<CValue>): seq<Value>
    decreases items
  {
    if items == [] then [] else [ToValue(items[0])] + ToValues(items[1..])
  }

  /** Later entries win. */
  function ToMap(es: seq<CEntry>): map<string, Value>
    decreases es
  {
    if es == [] then map[] else map[es[0].key := ToValue(es[0].value)] + ToMap(es[1..])
  }

  function ToArgs(args: Option<seq<CEntry>>): map<string, Value> {
    if args.Some? then ToMap(args.value) else map[]
  }

  function ToField(f: CField): Field
    decreases f
  {
    Field(if f.alias.Some? then f.alias.value else "", f.name, ToArgs(f.args), ToSelection(f.selection))
  }

  function ToSelection(sel: CSelection): seq<Field>
    decreases sel
  {
    match sel
    case NoSelection => []
    case Selection(fs) => ToFields(fs)
  }

  function ToFields(fs: seq<CField>): seq<Field>
    decreases fs
  {
    if fs == [] then [] else [ToField(fs[0])] + ToFields(fs[1..])
  }

  function ToDocument(d: CDocument): Document {
    Document(if d.COperation? then d.kind else "query", ToFields(d.selection))
  }

  /** The result of parseDocument on a query, as a function of its bytes. */
  function ParseQuery(query: string, okFloat: string -> bool): Result<Document> {
    match Lex(query)
    case None => Err
    case Some(ts) =>
      match PDocument(ts, okFloat)
      case None => Err
      case Some(d) => Ok(ToDocument(d))
  }

  /** A query parses to `d` exactly when its bytes are a lexical derivation of tokens that
      derive, in the grammar, some tree that means `d`. */
  lemma ParseQueryExact(query: string, okFloat: string -> bool, d: Document)
    ensures ParseQuery(query, okFloat) == Ok(d) <==>
            exists ps, c :: Derives(query, ps, c, okFloat) && ToDocument(c) == d
  {
    if ParseQuery(query, okFloat) == Ok(d) {
      var ps, c := Scan(query).value, PDocument(Lex(query).value, okFloat).value;
      ScanExact(query, ps);
      ParserExact(Lex(query).value, c, okFloat);
      assert Derives(query, ps, c, okFloat);
    }
    if ps, c :| Derives(query, ps, c, okFloat) && ToDocument(c) == d {
      ScanExact(query, ps);
      ParserExact(TokensOf(ps) + [Eof], c, okFloat);
    }
  }

  ghost predicate Derives(query: string, ps: seq<Piece>, c: CDocument, okFloat: string -> bool) {
    && Lexical(ps) && TextOf(ps) == query
    && DocumentOk(c, okFloat) && DocumentTokens(c) == TokensOf(ps) + [Eof]
  }

  // ---------------------------------------------------------------------------
  // Directives, variable definitions and the operation name are erased
  // ---------------------------------------------------------------------------

  function StripField(f: CField): CField
    decreases f
  {
    CField(f.alias, f.name, f.args, [], match f.selection
                                        case NoSelection => NoSelection
                                        case Selection(fs) => Selection(StripFields(fs)))
  }

  function StripFields(fs: seq<CField>): (r: seq<CField>)
    ensures |r| == |fs|
    decreases fs
  {
    if fs == [] then [] else [StripField(fs[0])] + StripFields(fs[1..])
  }

  /** The document without directives, variable definitions and operation name; the shorthand
      `{ ... }` is the query it abbreviates. */
  function Strip(d: CDocument): CDocument {
    match d
    case CShorthand(fs) => COperation("query", None, None, StripFields(fs))
    case COperation(kind, _, _, fs) => COperation(kind, None, None, StripFields(fs))
  }

  /** The literals of all directives of a field, at any depth, are accepted. */
  ghost predicate ErasedFieldOk(f: CField, okFloat: string -> bool)
    decreases f
  {
    DirectivesOk(f.directives, okFloat) && (f.selection.Selection? ==> ErasedFieldsOk(f.selection.fields, okFloat))
  }

  ghost predicate ErasedFieldsOk(fs: seq<CField>, okFloat: string -> bool)
    decreases fs
  {
    forall i :: 0 <= i < |fs| ==> ErasedFieldOk(fs[i], okFloat)
  }

  /** The literals of everything that is erased are accepted: directives and default values. */
  ghost predicate ErasedOk(d: CDocument, okFloat: string -> bool) {
    && ErasedFieldsOk(d.selection, okFloat)
    && (d.COperation? && d.vars.Some? ==> VarDefsOk(d.vars.value, okFloat))
  }

  lemma {:induction false} StripFieldSame(f: CField, okFloat: string -> bool)
    ensures ToField(StripField(f)) == ToField(f)
    ensures FieldOk(f, okFloat) <==> FieldOk(StripField(f), okFloat) && ErasedFieldOk(f, okFloat)
    decreases f
  {
    match f.selection
    case NoSelection =>
    case Selection(fs) =>
      StripFieldsSame(fs, okFloat);
      assert SelectionOk(f.selection, okFloat) <==> FieldsOk(fs, okFloat);
      assert SelectionOk(Selection(StripFields(fs)), okFloat) <==> FieldsOk(StripFields(fs), okFloat);
  }

  lemma {:induction false} StripFieldsSame(fs: seq<CField>, okFloat: string -> bool)
    ensures ToFields(StripFields(fs)) == ToFields(fs)
    ensures FieldsOk(fs, okFloat) <==> FieldsOk(StripFields(fs), okFloat) && ErasedFieldsOk(fs, okFloat)
    decreases fs
  {
    if fs != [] {
      hide FieldOk, StripField, ToField, ErasedFieldOk;
      StripFieldSame(fs[0], okFloat);
      StripFieldsSame(fs[1..], okFloat);
      assert StripFields(fs)[1..] == StripFields(fs[1..]);
      FieldsOkCons(fs, okFloat);
      FieldsOkCons(StripFields(fs), okFloat);
    }
  }

  lemma FieldsOkCons(fs: seq<CField>, okFloat: string -> bool)
    requires fs != []
    ensures FieldsOk(fs, okFloat) <==> FieldOk(fs[0], okFloat) && FieldsOk(fs[1..], okFloat)
    ensures ErasedFieldsOk(fs, okFloat) <==> ErasedFieldOk(fs[0], okFloat) && ErasedFieldsOk(fs[1..], okFloat)
  {
    hide FieldOk, ErasedFieldOk;
    assert forall i :: 1 <= i < |fs| ==> fs[i] == fs[1..][i - 1];
  }

  /** A document is accepted exactly when it is without directives, variable definitions and operation name
      and the literals in these are accepted. */
  lemma StripAccepted(c: CDocument, okFloat: string -> bool)
    ensures DocumentOk(c, okFloat) <==> DocumentOk(Strip(c), okFloat) && ErasedOk(c, okFloat)
    ensures ToDocument(c) == ToDocument(Strip(c))
  {
    hide FieldsOk, ErasedFieldsOk, VarDefsOk;
    StripFieldsSame(c.selection, okFloat);
  }

  /** Directives, variable definitions, the operation name and the shorthand are invisible in the result: the
      tokens of a tree parse to it exactly when those of the tree without them do and the literals in them are
      accepted, and two trees that are the same without them mean the same document. */
  lemma ErasureInvisible(c1: CDocument, c2: CDocument, okFloat: string -> bool)
    requires Strip(c1) == Strip(c2)
    ensures PDocument(DocumentTokens(c1), okFloat) == Some(c1) <==>
            PDocument(DocumentTokens(Strip(c1)), okFloat) == Some(Strip(c1)) && ErasedOk(c1, okFloat)
    ensures ErasedOk(c1, okFloat) && ErasedOk(c2, okFloat) ==>
              (PDocument(DocumentTokens(c1), okFloat) == Some(c1) <==>
               PDocument(DocumentTokens(c2), okFloat) == Some(c2))
    ensures ToDocument(c1) == ToDocument(c2) == ToDocument(Strip(c1))
  {
    hide DocumentOk, ErasedOk, PDocument, ToDocument, Strip;
    StripAccepted(c1, okFloat);
    StripAccepted(c2, okFloat);
    ParserExact(DocumentTokens(c1), c1, okFloat);
    ParserExact(DocumentTokens(c2), c2, okFloat);
    ParserExact(DocumentTokens(Strip(c1)), Strip(c1), okFloat);
  }

  // ---------------------------------------------------------------------------
  // Well-formed documents and their printed form
  // ---------------------------------------------------------------------------

  ghost predicate WfValue(v: Value, okFloat: string -> bool)
    decreases v
  {
    match v
    case Var(n) => IsName(n)
    case Int(n) => MIN_INT64 <= n <= MAX_INT64
    case Float(s) => IsNumber(s) && HasFloatMark(s) && okFloat(s)
    case List(items) => forall i :: 0 <= i < |items| ==> WfValue(items[i], okFloat)
    case Object(fields) => forall k :: k in fields ==> IsName(k) && WfValue(fields[k], okFloat)
    case _ => true
  }

  ghost predicate WfMap(m: map<string, Value>, okFloat: string -> bool) {
    forall k :: k in m ==> IsName(k) && WfValue(m[k], okFloat)
  }

  ghost predicate WfField(f: Field, okFloat: string -> bool)
    decreases f
  {
    && (f.alias == "" || IsName(f.alias)) && IsName(f.name) && WfMap(f.args, okFloat)
    && forall i :: 0 <= i < |f.selection| ==> WfField(f.selection[i], okFloat)
  }

  ghost predicate WfFields(fs: seq<Field>, okFloat: string -> bool) {
    forall i :: 0 <= i < |fs| ==> WfField(fs[i], okFloat)
  }

  ghost predicate WfDocument(d: Document, okFloat: string -> bool) {
    (d.operation == "query" || d.operation == "mutation") && WfFields(d.selection, okFloat)
  }

  /** A concrete tree for a value; the entries of an object come in some order. */
  ghost function FromValue(v: Value): CValue
    decreases v, 0
  {
    match v
    case Var(n) => CVar(n)
    case Int(n) => CInt(PrintInt(n))
    case Float(s) => CFloat(s)
    case String(s) => CString(s)
    case Bool(b) => CBool(b)
    case Null => CNull
    case List(items) => CList(FromValues(items))
    case Object(fields) => CObject(FromObject(v, fields.Keys))
  }

  ghost function FromValues(items: seq<Value>): seq<CValue>
    decreases items
  {
    if items == [] then [] else [FromValue(items[0])] + FromValues(items[1..])
  }

  ghost function FromObject(v: Value, keys: set<string>): seq<CEntry>
    requires v.Object? && keys <= v.fields.Keys
    decreases v, 0, |keys|
  {
    if keys == {} then []
    else
      var k :| k in keys;
      [CEntry(k, FromValue(v.fields[k]))] + FromObject(v, keys - {k})
  }

  ghost function FromMap(m: map<string, Value>): seq<CEntry> {
    FromObject(Object(m), m.Keys)
  }

  ghost function FromField(f: Field): CField
    decreases f
  {
    CField(if f.alias == "" then None else Some(f.alias), f.name,
           if f.args == map[] then None else Some(FromMap(f.args)), [],
           if f.selection == [] then NoSelection else Selection(FromFields(f.selection)))
  }

  ghost function FromFields(fs: seq<Field>): seq<CField>
    decreases fs
  {
    if fs == [] then [] else [FromField(fs[0])] + FromFields(fs[1..])
  }

  ghost function FromDocument(d: Document): CDocument {
    COperation(d.operation, None, None, FromFields(d.selection))
  }

  /** A document as bytes: its tokens, without the end marker, spelled out. */
  ghost function PrintDocument(d: Document): string {
    var ts := DocumentTokens(FromDocument(d));
    if ts == [] then "" else Spell(ts[..|ts| - 1])
  }

  // ---------------------------------------------------------------------------
  // Trees whose tokens can be spelled
  // ---------------------------------------------------------------------------

  ghost predicate ValueSpells(v: CValue)
    decreases v
  {
    match v
    case CVar(n) => IsName(n)
    case CInt(s) => Spellable(IntLit(s))
    case CFloat(s) => Spellable(FloatLit(s))
    case CList(items) => forall i :: 0 <= i < |items| ==> ValueSpells(items[i])
    case CObject(es) => forall i :: 0 <= i < |es| ==> IsName(es[i].key) && ValueSpells(es[i].value)
    case _ => true
  }

  ghost predicate EntriesSpell(es: seq<CEntry>) {
    forall i :: 0 <= i < |es| ==> IsName(es[i].key) && ValueSpells(es[i].value)
  }

  ghost predicate FieldSpells(f: CField)
    decreases f
  {
    && (f.alias.Some? ==> IsName(f.alias.value)) && IsName(f.name)
    && ArgsSpell(f.args) && DirectivesSpell(f.directives)
    && SelectionSpells(f.selection)
  }

  ghost predicate ArgsSpell(args: Option<seq<CEntry>>) {
    args.Some? ==> EntriesSpell(args.value)
  }

  ghost predicate DirectivesSpell(ds: seq<CDirective>) {
    forall i :: 0 <= i < |ds| ==> IsName(ds[i].name) && ArgsSpell(ds[i].args)
  }

  ghost predicate SelectionSpells(sel: CSelection)
    decreases sel
  {
    sel.Selection? ==> forall i :: 0 <= i < |sel.fields| ==> FieldSpells(sel.fields[i])
  }

  ghost predicate FieldsSpell(fs: seq<CField>) {
    forall i :: 0 <= i < |fs| ==> FieldSpells(fs[i])
  }

  /** Spellable tokens and then one end marker: what lexing returns. */
  ghost predicate Closed(ts: seq<Token>) {
    ts != [] && ts[|ts| - 1] == Eof && AllSpellable(ts[..|ts| - 1])
  }

  lemma ClosedCons(t: Token, rest: seq<Token>)
    requires t != Eof
    ensures Closed([t] + rest) <==> Spellable(t) && Closed(rest)
  {
    var ts := [t] + rest;
    if rest != [] {
      assert ts[..|ts| - 1] == [t] + rest[..|rest| - 1];
      var init := ts[..|ts| - 1];
      assert init[0] == t && init[1..] == rest[..|rest| - 1];
      assert AllSpellable(init) ==> Spellable(init[0]) && AllSpellable(init[1..]) by {
        assert forall i :: 0 <= i < |init| - 1 ==> init[1..][i] == init[i + 1];
      }
    }
  }

  lemma BoolSpells()
    ensures IsName("true") && IsName("false") && IsName("null") && IsName("query") && IsName("mutation")
  {
  }

  lemma {:induction false} ValueClosed(v: CValue, rest: seq<Token>)
    ensures Closed(ValueTokens(v, rest)) <==> ValueSpells(v) && Closed(rest)
    decreases v
  {
    hide Closed, ItemsTokens, EntriesTokens, IsName, IsNumber, HasFloatMark;
    BoolSpells();
    match v
    case CVar(n) =>
      ClosedCons(Punct('$'), [Name(n)] + rest);
      ClosedCons(Name(n), rest);
    case CList(items) =>
      ClosedCons(Punct('['), ItemsTokens(items, rest));
      ItemsClosed(items, rest);
    case CObject(entries) =>
      ClosedCons(Punct('{'), EntriesTokens(entries, '}', rest));
      EntriesClosed(entries, '}', rest);
    case CInt(s) => ClosedCons(IntLit(s), rest);
    case CFloat(s) => ClosedCons(FloatLit(s), rest);
    case CString(s) => ClosedCons(Str(s), rest);
    case CBool(b) => ClosedCons(Name(if b then "true" else "false"), rest);
    case CNull => ClosedCons(Name("null"), rest);
  }

  lemma {:induction false} ItemsClosed(items: seq<CValue>, rest: seq<Token>)
    ensures Closed(ItemsTokens(items, rest)) <==>
            (forall i :: 0 <= i < |items| ==> ValueSpells(items[i])) && Closed(rest)
    decreases items
  {
    hide Closed, ValueTokens, ValueSpells;
    if items == [] {
      ClosedCons(Punct(']'), rest);
    } else {
      ValueClosed(items[0], ItemsTokens(items[1..], rest));
      ItemsClosed(items[1..], rest);
      assert (forall i :: 0 <= i < |items| ==> ValueSpells(items[i])) <==>
             ValueSpells(items[0]) && forall i :: 0 <= i < |items[1..]| ==> ValueSpells(items[1..][i]) by {
        assert forall i :: 1 <= i < |items| ==> items[i] == items[1..][i - 1];
      }
    }
  }

  lemma EntriesSpellCons(es: seq<CEntry>)
    requires es != []
    ensures EntriesSpell(es) <==> IsName(es[0].key) && ValueSpells(es[0].value) && EntriesSpell(es[1..])
  {
    hide IsName, ValueSpells;
    assert forall i :: 1 <= i < |es| ==> es[i] == es[1..][i - 1];
  }

  lemma {:induction false} EntriesClosed(es: seq<CEntry>, close: char, rest: seq<Token>)
    requires IsPunct(close)
    ensures Closed(EntriesTokens(es, close, rest)) <==> EntriesSpell(es) && Closed(rest)
    decreases es
  {
    hide Closed, ValueTokens, ValueSpells, IsName;
    if es == [] {
      ClosedCons(Punct(close), rest);
    } else {
      var tail := ValueTokens(es[0].value, EntriesTokens(es[1..], close, rest));
      ClosedCons(Name(es[0].key), [Punct(':')] + tail);
      ClosedCons(Punct(':'), tail);
      ValueClosed(es[0].value, EntriesTokens(es[1..], close, rest));
      EntriesClosed(es[1..], close, rest);
      EntriesSpellCons(es);
    }
  }

  lemma ArgsClosed(args: Option<seq<CEntry>>, rest: seq<Token>)
    ensures Closed(ArgsTokens(args, rest)) <==> ArgsSpell(args) && Closed(rest)
  {
    hide Closed, EntriesTokens, EntriesSpell;
    if args.Some? {
      ClosedCons(Punct('('), EntriesTokens(args.value, ')', rest));
      EntriesClosed(args.value, ')', rest);
    }
  }

  lemma {:induction false} DirectivesClosed(ds: seq<CDirective>, rest: seq<Token>)
    ensures Closed(DirectivesTokens(ds, rest)) <==> DirectivesSpell(ds) && Closed(rest)
  {
    hide Closed, ArgsTokens, ArgsSpell, IsName;
    if ds != [] {
      var tail := DirectivesTokens(ds[1..], rest);
      ClosedCons(Punct('@'), [Name(ds[0].name)] + ArgsTokens(ds[0].args, tail));
      ClosedCons(Name(ds[0].name), ArgsTokens(ds[0].args, tail));
      ArgsClosed(ds[0].args, tail);
      DirectivesClosed(ds[1..], rest);
      assert forall i :: 1 <= i < |ds| ==> ds[i] == ds[1..][i - 1];
    }
  }

  lemma HeaderClosed(alias: Option<string>, name: string, rest: seq<Token>)
    ensures Closed(HeaderTokens(alias, name, rest)) <==>
            (alias.Some? ==> IsName(alias.value)) && IsName(name) && Closed(rest)
  {
    hide Closed, IsName;
    ClosedCons(Name(name), rest);
    if alias.Some? {
      ClosedCons(Name(alias.value), [Punct(':')] + ([Name(name)] + rest));
      ClosedCons(Punct(':'), [Name(name)] + rest);
    }
  }

  lemma {:induction false} FieldClosed(f: CField, rest: seq<Token>)
    ensures Closed(FieldTokens(f, rest)) <==> FieldSpells(f) && Closed(rest)
    decreases f
  {
    hide Closed, SelectionTokens, DirectivesTokens, ArgsTokens, HeaderTokens, ArgsSpell, DirectivesSpell, IsName;
    var s3 := SelectionTokens(f.selection, rest);
    var s2 := DirectivesTokens(f.directives, s3);
    SelectionClosed(f.selection, rest);
    DirectivesClosed(f.directives, s3);
    ArgsClosed(f.args, s2);
    HeaderClosed(f.alias, f.name, ArgsTokens(f.args, s2));
  }

  lemma {:induction false} SelectionClosed(sel: CSelection, rest: seq<Token>)
    ensures Closed(SelectionTokens(sel, rest)) <==> SelectionSpells(sel) && Closed(rest)
    decreases sel
  {
    hide Closed, FieldsTokens;
    if sel.Selection? {
      ClosedCons(Punct('{'), FieldsTokens(sel.fields, rest));
      FieldsClosed(sel.fields, rest);
    }
  }

  lemma {:induction false} FieldsClosed(fs: seq<CField>, rest: seq<Token>)
    ensures Closed(FieldsTokens(fs, rest)) <==> FieldsSpell(fs) && Closed(rest)
    decreases fs
  {
    hide Closed, FieldTokens, FieldSpells;
    if fs == [] {
      ClosedCons(Punct('}'), rest);
    } else {
      FieldClosed(fs[0], FieldsTokens(fs[1..], rest));
      FieldsClosed(fs[1..], rest);
      assert forall i :: 1 <= i < |fs| ==> fs[i] == fs[1..][i - 1];
    }
  }

  lemma BangClosed(bang: bool, rest: seq<Token>)
    ensures Closed(BangTokens(bang, rest)) ==> Closed(rest)
  {
    hide Closed;
    if bang { ClosedCons(Punct('!'), rest); }
  }

  lemma {:induction false} TypeClosed(t: CType, rest: seq<Token>)
    ensures Closed(TypeTokens(t, rest)) ==> Closed(rest)
    decreases t
  {
    hide Closed, BangTokens;
    var tail := BangTokens(t.bang, rest);
    BangClosed(t.bang, rest);
    match t
    case CNamed(n, _) => ClosedCons(Name(n), tail);
    case CListOf(elem, _) =>
      ClosedCons(Punct('['), TypeTokens(elem, [Punct(']')] + tail));
      TypeClosed(elem, [Punct(']')] + tail);
      ClosedCons(Punct(']'), tail);
  }

  lemma DefaultClosed(default: Option<CValue>, rest: seq<Token>)
    ensures Closed(DefaultTokens(default, rest)) ==> Closed(rest)
  {
    hide Closed, ValueTokens;
    if default.Some? {
      ClosedCons(Punct('='), ValueTokens(default.value, rest));
      ValueClosed(default.value, rest);
    }
  }

  lemma {:induction false} VarDefsClosed(defs: seq<CVarDef>, rest: seq<Token>)
    ensures Closed(VarDefsTokens(defs, rest)) ==> Closed(rest)
  {
    hide Closed, TypeTokens, DefaultTokens;
    if defs == [] {
      ClosedCons(Punct(')'), rest);
    } else {
      var tail := VarDefsTokens(defs[1..], rest);
      var s2 := DefaultTokens(defs[0].default, tail);
      var s1 := TypeTokens(defs[0].varType, s2);
      ClosedCons(Punct('$'), [Name(defs[0].name)] + ([Punct(':')] + s1));
      ClosedCons(Name(defs[0].name), [Punct(':')] + s1);
      ClosedCons(Punct(':'), s1);
      TypeClosed(defs[0].varType, s2);
      DefaultClosed(defs[0].default, tail);
      VarDefsClosed(defs[1..], rest);
    }
  }

  lemma EofClosed()
    ensures Closed([Eof])
  {
  }

  lemma DocumentSpells(c: CDocument)
    requires Closed(DocumentTokens(c))
    ensures FieldsSpell(c.selection)
  {
    hide Closed, FieldsTokens, FieldsSpell, VarDefsTokens;
    var fields := FieldsTokens(c.selection, [Eof]);
    FieldsClosed(c.selection, [Eof]);
    ClosedCons(Punct('{'), fields);
    if c.COperation? {
      var body := [Punct('{')] + fields;
      var s2 := OptVarDefsTokens(c.vars, body);
      ClosedCons(Name(c.kind), OpNameTokens(c.name, s2));
      if c.name.Some? { ClosedCons(Name(c.name.value), s2); }
      if c.vars.Some? {
        ClosedCons(Punct('('), VarDefsTokens(c.vars.value, body));
        VarDefsClosed(c.vars.value, body);
      }
    }
  }

  // ---------------------------------------------------------------------------
  // From documents to trees and back
  // ---------------------------------------------------------------------------

  lemma {:induction false} DigitsRun(prev: char, s: string)
    requires AllDigits(s)
    ensures NumberRun(prev, s) && !HasFloatMark(s)
    decreases |s|
  {
    if s != [] { DigitsRun(s[0], s[1..]); }
  }

  lemma PrintIntSpells(n: int)
    ensures Spellable(IntLit(PrintInt(n)))
  {
    var s := PrintInt(n);
    if n < 0 {
      var d := PrintNat(-n);
      assert s[1..] == d;
      DigitsRun('-', d);
      assert forall i :: 0 < i < |s| ==> s[i] == d[i - 1];
    } else {
      DigitsRun(s[0], s);
      DigitsRun(s[0], s[1..]);
    }
  }

  lemma {:induction false} FromValueExact(v: Value, okFloat: string -> bool)
    requires WfValue(v, okFloat)
    ensures ValueSpells(FromValue(v)) && ValueOk(FromValue(v), okFloat) && ToValue(FromValue(v)) == v
    decreases v, 1
  {
    match v
    case Int(n) =>
      ParsePrintInt(n);
      PrintIntSpells(n);
    case List(items) => FromValuesExact(items, okFloat);
    case Object(fields) =>
      FromObjectExact(v, fields.Keys, okFloat);
      assert (map k | k in fields.Keys :: fields[k]) == fields;
    case _ =>
  }

  lemma {:induction false} FromValuesExact(items: seq<Value>, okFloat: string -> bool)
    requires forall i :: 0 <= i < |items| ==> WfValue(items[i], okFloat)
    ensures var cs := FromValues(items);
            (forall i :: 0 <= i < |cs| ==> ValueSpells(cs[i]) && ValueOk(cs[i], okFloat)) && ToValues(cs) == items
    decreases items
  {
    if items != [] {
      hide WfValue, ValueSpells, ValueOk, ToValue, FromValue;
      FromValueExact(items[0], okFloat);
      FromValuesExact(items[1..], okFloat);
      assert FromValues(items)[1..] == FromValues(items[1..]);
      Uncons(items);
    }
  }

  lemma {:induction false} FromObjectExact(v: Value, keys: set<string>, okFloat: string -> bool)
    requires v.Object? && keys <= v.fields.Keys && WfValue(v, okFloat)
    ensures var es := FromObject(v, keys);
            EntriesSpell(es) && EntriesOk(es, okFloat) && ToMap(es) == map k | k in keys :: v.fields[k]
    decreases v, 0, |keys|
  {
    if keys != {} {
      var k := FromObject(v, keys)[0].key;
      assert k in keys && FromObject(v, keys) == [CEntry(k, FromValue(v.fields[k]))] + FromObject(v, keys - {k});
      FromValueExact(v.fields[k], okFloat);
      FromObjectExact(v, keys - {k}, okFloat);
      EntryStep(v, keys, k, FromValue(v.fields[k]), FromObject(v, keys - {k}), okFloat);
    }
  }

  lemma EntryStep(v: Value, keys: set<string>, k: string, c: CValue, rest: seq<CEntry>, okFloat: string -> bool)
    requires v.Object? && keys <= v.fields.Keys && k in keys && IsName(k)
    requires ValueSpells(c) && ValueOk(c, okFloat) && ToValue(c) == v.fields[k]
    requires EntriesSpell(rest) && EntriesOk(rest, okFloat)
    requires ToMap(rest) == map j | j in keys - {k} :: v.fields[j]
    ensures var es := [CEntry(k, c)] + rest;
            EntriesSpell(es) && EntriesOk(es, okFloat) && ToMap(es) == map j | j in keys :: v.fields[j]
  {
    hide ValueSpells, ValueOk, ToValue, IsName;
    var es := [CEntry(k, c)] + rest;
    assert es[1..] == rest;
    EntriesSpellCons(es);
  }

  lemma FromMapExact(m: map<string, Value>, okFloat: string -> bool)
    requires WfMap(m, okFloat)
    ensures EntriesSpell(FromMap(m)) && EntriesOk(FromMap(m), okFloat) && ToMap(FromMap(m)) == m
  {
    assert WfValue(Object(m), okFloat);
    FromObjectExact(Object(m), m.Keys, okFloat);
    assert (map k | k in m.Keys :: m[k]) == m;
  }

  lemma {:induction false} FromFieldExact(f: Field, okFloat: string -> bool)
    requires WfField(f, okFloat)
    ensures FieldSpells(FromField(f)) && FieldOk(FromField(f), okFloat) && ToField(FromField(f)) == f
    decreases f
  {
    hide WfMap, FromMap, EntriesSpell, EntriesOk, IsName;
    var c := FromField(f);
    FromMapExact(f.args, okFloat);
    FromFieldsExact(f.selection, okFloat);
    assert SelectionSpells(c.selection) && SelectionOk(c.selection, okFloat) && ToSelection(c.selection) == f.selection;
    assert ArgsSpell(c.args) && ArgsOk(c.args, okFloat) && ToArgs(c.args) == f.args;
    assert f.alias != "" ==> IsName(f.alias);
  }

  lemma {:induction false} FromFieldsExact(fs: seq<Field>, okFloat: string -> bool)
    requires WfFields(fs, okFloat)
    ensures FieldsSpell(FromFields(fs)) && FieldsOk(FromFields(fs), okFloat) && ToFields(FromFields(fs)) == fs
    decreases fs
  {
    if fs != [] {
      hide WfField, FieldSpells, FieldOk, ToField, FromField;
      FromFieldExact(fs[0], okFloat);
      FromFieldsExact(fs[1..], okFloat);
      assert FromFields(fs)[1..] == FromFields(fs[1..]);
      Uncons(fs);
    }
  }

  lemma {:induction false} ToValueWf(c: CValue, okFloat: string -> bool)
    requires ValueSpells(c) && ValueOk(c, okFloat)
    ensures WfValue(ToValue(c), okFloat)
    decreases c
  {
    match c
    case CList(items) => ToValuesWf(items, okFloat);
    case CObject(es) => ToMapWf(es, okFloat);
    case _ =>
  }

  lemma {:induction false} ToValuesWf(cs: seq<CValue>, okFloat: string -> bool)
    requires forall i :: 0 <= i < |cs| ==> ValueSpells(cs[i]) && ValueOk(cs[i], okFloat)
    ensures forall i :: 0 <= i < |ToValues(cs)| ==> WfValue(ToValues(cs)[i], okFloat)
    decreases cs
  {
    if cs != [] {
      hide WfValue, ValueSpells, ValueOk, ToValue;
      ToValueWf(cs[0], okFloat);
      ToValuesWf(cs[1..], okFloat);
    }
  }

  lemma {:induction false} ToMapWf(es: seq<CEntry>, okFloat: string -> bool)
    requires EntriesSpell(es) && EntriesOk(es, okFloat)
    ensures WfMap(ToMap(es), okFloat)
    decreases es
  {
    if es != [] {
      hide WfValue, ValueSpells, ValueOk, ToValue, IsName;
      ToValueWf(es[0].value, okFloat);
      ToMapWf(es[1..], okFloat);
    }
  }

  lemma {:induction false} ToFieldWf(c: CField, okFloat: string -> bool)
    requires FieldSpells(c) && FieldOk(c, okFloat)
    ensures WfField(ToField(c), okFloat)
    decreases c
  {
    hide EntriesSpell, EntriesOk, WfMap, IsName;
    if c.args.Some? { ToMapWf(c.args.value, okFloat); }
    EmptyMapWf(okFloat);
    match c.selection
    case NoSelection =>
    case Selection(fs) => ToFieldsWf(fs, okFloat);
  }

  lemma EmptyMapWf(okFloat: string -> bool)
    ensures WfMap(map[], okFloat)
  {
  }

  lemma {:induction false} ToFieldsWf(cs: seq<CField>, okFloat: string -> bool)
    requires FieldsSpell(cs) && FieldsOk(cs, okFloat)
    ensures WfFields(ToFields(cs), okFloat)
    decreases cs
  {
    if cs != [] {
      hide WfField, FieldSpells, FieldOk, ToField;
      ToFieldWf(cs[0], okFloat);
      ToFieldsWf(cs[1..], okFloat);
    }
  }

  // ---------------------------------------------------------------------------
  // Round trips over bytes
  // ---------------------------------------------------------------------------

  /** Printing a well-formed document and parsing the bytes gives the document back. */
  lemma ParsePrint(d: Document, okFloat: string -> bool)
    requires WfDocument(d, okFloat)
    ensures ParseQuery(PrintDocument(d), okFloat) == Ok(d)
  {
    hide FieldsTokens, FieldsSpell, FieldsOk, FromFields, ToFields, Closed, WfFields, PDocument, Lex, Spell;
    var c := FromDocument(d);
    var ts := DocumentTokens(c);
    FromFieldsExact(d.selection, okFloat);
    BoolSpells();
    EofClosed();
    FieldsClosed(c.selection, [Eof]);
    ClosedCons(Punct('{'), FieldsTokens(c.selection, [Eof]));
    ClosedCons(Name(c.kind), [Punct('{')] + FieldsTokens(c.selection, [Eof]));
    ClosedSpell(ts);
    ParserExact(ts, c, okFloat);
  }

  lemma ClosedSpell(ts: seq<Token>)
    requires Closed(ts)
    ensures Lex(Spell(ts[..|ts| - 1])) == Some(ts)
  {
    LexSpell(ts[..|ts| - 1]);
    assert ts == ts[..|ts| - 1] + [Eof];
  }

  /** Whatever parses is a well-formed document. */
  lemma ParseWellFormed(query: string, okFloat: string -> bool)
    requires ParseQuery(query, okFloat).Ok?
    ensures WfDocument(ParseQuery(query, okFloat).value, okFloat)
  {
    var ts := Lex(query).value;
    var c := PDocument(ts, okFloat).value;
    LexOneEof(query);
    assert Closed(ts);
    hide Lex, FieldsSpell, FieldsOk, ToFields, WfFields, Closed, PDocument;
    ParserExact(ts, c, okFloat);
    DocumentSpells(c);
    ToFieldsWf(c.selection, okFloat);
  }

  /** The documents queries denote are exactly the well-formed ones. */
  lemma WellFormedExactly(d: Document, okFloat: string -> bool)
    ensures WfDocument(d, okFloat) <==> exists query :: ParseQuery(query, okFloat) == Ok(d)
  {
    if WfDocument(d, okFloat) {
      ParsePrint(d, okFloat);
    }
    if query :| ParseQuery(query, okFloat) == Ok(d) {
      ParseWellFormed(query, okFloat);
    }
  }
}
