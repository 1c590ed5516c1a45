/** The grammar behind the parser of src/graphql/parser.go, a recursive-descent parser for it as a
    function of the remaining tokens, and the proof that the two agree.

    Concrete syntax keeps everything the source reads, including what it throws away (directives,
    variable definitions, the operation name); `ToDocument` keeps what the source returns.
    `okFloat` says which float lexemes `strconv.ParseFloat` accepts. */
module GraphQLSyntax {
  import opened Wrappers
  import opened Decimal
  import opened GraphQLLexer

  // ---------------------------------------------------------------------------
  // What the parser returns
  // ---------------------------------------------------------------------------

  datatype Value =
    | Var(name: string)
    | Int(n: int)
    | Float(lexeme: string)
    | String(s: string)
    | Bool(b: bool)
    | Null
    | List(items: seq<Value>)
    | Object(fields: map<string, Value>)

  /** No alias is the empty string; no argument list is the empty map; no selection set is the empty list. */
  datatype Field = Field(alias: string, name: string, args: map<string, Value>, selection: seq<Field>)

  datatype Document = Document(operation: string, selection: seq<Field>)

  // ---------------------------------------------------------------------------
  // Concrete syntax
  // ---------------------------------------------------------------------------

  datatype CValue =
    | CVar(name: string)
    | CInt(lexeme: string)
    | CFloat(lexeme: string)
    | CString(s: string)
    | CBool(b: bool)
    | CNull
    | CList(items: seq<CValue>)
    | CObject(entries: seq<CEntry>)

  /** `key: value`, in an object or an argument list. */
  datatype CEntry = CEntry(key: string, value: CValue)

  datatype CDirective = CDirective(name: string, args: Option<seq<CEntry>>)

  datatype CField = CField(alias: Option<string>, name: string, args: Option<seq<CEntry>>,
                           directives: seq<CDirective>, selection: CSelection)

  datatype CSelection = NoSelection | Selection(fields: seq<CField>)

  datatype CType = CNamed(name: string, bang: bool) | CListOf(elem: CType, bang: bool)

  datatype CVarDef = CVarDef(name: string, varType: CType, default: Option<CValue>)

  datatype CDocument =
    | CShorthand(selection: seq<CField>)
    | COperation(kind: string, name: Option<string>, vars: Option<seq<CVarDef>>, selection: seq<CField>)

  // ---------------------------------------------------------------------------
  // The grammar: the tokens of a concrete tree, in front of the tokens `rest`
  // ---------------------------------------------------------------------------

  function ValueTokens(v: CValue, rest: seq<Token>): seq<Token>
    decreases v
  {
    match v
    case CVar(n) => [Punct('$')] + ([Name(n)] + rest)
    case CInt(s) => [IntLit(s)] + rest
    case CFloat(s) => [FloatLit(s)] + rest
    case CString(s) => [Str(s)] + rest
    case CBool(b) => [Name(if b then "true" else "false")] + rest
    case CNull => [Name("null")] + rest
    case CList(items) => [Punct('[')] + ItemsTokens(items, rest)
    case CObject(entries) => [Punct('{')] + EntriesTokens(entries, '}', rest)
  }

  function ItemsTokens(items: seq<CValue>, rest: seq<Token>): seq<Token>
    decreases items
  {
    if items == [] then [Punct(']')] + rest
    else ValueTokens(items[0], ItemsTokens(items[1..], rest))
  }

  function EntriesTokens(entries: seq<CEntry>, close: char, rest: seq<Token>): seq<Token>
    decreases entries
  {
    if entries == [] then [Punct(close)] + rest
    else
      [Name(entries[0].key)] + ([Punct(':')] +
        ValueTokens(entries[0].value, EntriesTokens(entries[1..], close, rest)))
  }

  function ArgsTokens(args: Option<seq<CEntry>>, rest: seq<Token>): seq<Token> {
    match args
    case None => rest
    case Some(entries) => [Punct('(')] + EntriesTokens(entries, ')', rest)
  }

  function DirectivesTokens(ds: seq<CDirective>, rest: seq<Token>): seq<Token> {
    if ds == [] then rest
    else [Punct('@')] + ([Name(ds[0].name)] + ArgsTokens(ds[0].args, DirectivesTokens(ds[1..], rest)))
  }

  function HeaderTokens(alias: Option<string>, name: string, rest: seq<Token>): seq<Token> {
    match alias
    case None => [Name(name)] + rest
    case Some(a) => [Name(a)] + ([Punct(':')] + ([Name(name)] + rest))
  }

  function FieldTokens(f: CField, rest: seq<Token>): seq<Token>
    decreases f
  {
    HeaderTokens(f.alias, f.name,
      ArgsTokens(f.args,
        DirectivesTokens(f.directives,
          SelectionTokens(f.selection, rest))))
  }

  function SelectionTokens(sel: CSelection, rest: seq<Token>): seq<Token>
    decreases sel
  {
    match sel
    case NoSelection => rest
    case Selection(fs) => [Punct('{')] + FieldsTokens(fs, rest)
  }

  function FieldsTokens(fs: seq<CField>, rest: seq<Token>): seq<Token>
    decreases fs
  {
    if fs == [] then [Punct('}')] + rest else FieldTokens(fs[0], FieldsTokens(fs[1..], rest))
  }

  function BangTokens(bang: bool, rest: seq<Token>): seq<Token> {
    if bang then [Punct('!')] + rest else rest
  }

  function TypeTokens(t: CType, rest: seq<Token>): seq<Token> {
    match t
    case CNamed(n, bang) => [Name(n)] + BangTokens(bang, rest)
    case CListOf(elem, bang) => [Punct('[')] + TypeTokens(elem, [Punct(']')] + BangTokens(bang, rest))
  }

  function DefaultTokens(default: Option<CValue>, rest: seq<Token>): seq<Token> {
    match default
    case None => rest
    case Some(v) => [Punct('=')] + ValueTokens(v, rest)
  }

  function VarDefsTokens(defs: seq<CVarDef>, rest: seq<Token>): seq<Token> {
    if defs == [] then [Punct(')')] + rest else VarDefTokens(defs[0], VarDefsTokens(defs[1..], rest))
  }

  function VarDefTokens(d: CVarDef, rest: seq<Token>): seq<Token> {
    [Punct('$')] + ([Name(d.name)] + ([Punct(':')] + TypeTokens(d.varType, DefaultTokens(d.default, rest))))
  }

  /** The tokens of a whole document, end marker included. */
  function DocumentTokens(d: CDocument): seq<Token> {
    match d
    case CShorthand(fs) => [Punct('{')] + FieldsTokens(fs, [Eof])
    case COperation(kind, name, vars, fs) =>
      [Name(kind)] + OpNameTokens(name, OptVarDefsTokens(vars, [Punct('{')] + FieldsTokens(fs, [Eof])))
  }

  function OpNameTokens(name: Option<string>, rest: seq<Token>): seq<Token> {
    if name.Some? then [Name(name.value)] + rest else rest
  }

  function OptVarDefsTokens(vars: Option<seq<CVarDef>>, rest: seq<Token>): seq<Token> {
    if vars.Some? then [Punct('(')] + VarDefsTokens(vars.value, rest) else rest
  }

  /** The literals the source accepts: 64-bit integers and the floats `ParseFloat` reads. */
  ghost predicate ValueOk(v: CValue, okFloat: string -> bool)
    decreases v
  {
    match v
    case CInt(s) => ParseInt64(s).Some?
    case CFloat(s) => okFloat(s)
    case CList(items) => forall i :: 0 <= i < |items| ==> ValueOk(items[i], okFloat)
    case CObject(entries) => forall i :: 0 <= i < |entries| ==> ValueOk(entries[i].value, okFloat)
    case _ => true
  }

  ghost predicate EntriesOk(es: seq<CEntry>, okFloat: string -> bool) {
    forall i :: 0 <= i < |es| ==> ValueOk(es[i].value, okFloat)
  }

  ghost predicate ArgsOk(args: Option<seq<CEntry>>, okFloat: string -> bool) {
    args.Some? ==> EntriesOk(args.value, okFloat)
  }

  ghost predicate DirectivesOk(ds: seq<CDirective>, okFloat: string -> bool) {
    forall i :: 0 <= i < |ds| ==> ArgsOk(ds[i].args, okFloat)
  }

  ghost predicate FieldOk(f: CField, okFloat: string -> bool)
    decreases f
  {
    && ArgsOk(f.args, okFloat)
    && DirectivesOk(f.directives, okFloat)
    && SelectionOk(f.selection, okFloat)
  }

  ghost predicate SelectionOk(sel: CSelection, okFloat: string -> bool)
    decreases sel
  {
    sel.Selection? ==> forall i :: 0 <= i < |sel.fields| ==> FieldOk(sel.fields[i], okFloat)
  }

  ghost predicate FieldsOk(fs: seq<CField>, okFloat: string -> bool) {
    forall i :: 0 <= i < |fs| ==> FieldOk(fs[i], okFloat)
  }

  ghost predicate VarDefsOk(defs: seq<CVarDef>, okFloat: string -> bool) {
    forall i :: 0 <= i < |defs| ==> defs[i].default.Some? ==> ValueOk(defs[i].default.value, okFloat)
  }

  ghost predicate DocumentOk(d: CDocument, okFloat: string -> bool) {
    && FieldsOk(d.selection, okFloat)
    && (d.COperation? ==>
          && (d.kind == "query" || d.kind == "mutation")
          && (d.vars.Some? ==> VarDefsOk(d.vars.value, okFloat)))
  }

  // ---------------------------------------------------------------------------
  // The parser
  // ---------------------------------------------------------------------------

  datatype Parse<+T> = Fail | Done(value: T, rest: seq<Token>)

  predicate Starts(ts: seq<Token>, t: Token) {
    ts != [] && ts[0] == t
  }

  predicate StartsName(ts: seq<Token>) {
    ts != [] && ts[0].Name?
  }

  function PValue(ts: seq<Token>, okFloat: string -> bool): (r: Parse<CValue>)
    ensures r.Done? ==> |r.rest| < |ts|
    decreases |ts|, 0
  {
    if ts == [] then Fail
    else if ts[0] == Punct('$') then
      if StartsName(ts[1..]) then Done(CVar(ts[1].val), ts[1..][1..]) else Fail
    else if ts[0].Str? then Done(CString(ts[0].val), ts[1..])
    else if ts[0].IntLit? then
      if ParseInt64(ts[0].val).Some? then Done(CInt(ts[0].val), ts[1..]) else Fail
    else if ts[0].FloatLit? then
      if okFloat(ts[0].val) then Done(CFloat(ts[0].val), ts[1..]) else Fail
    else if ts[0] == Name("true") then Done(CBool(true), ts[1..])
    else if ts[0] == Name("false") then Done(CBool(false), ts[1..])
    else if ts[0] == Name("null") then Done(CNull, ts[1..])
    else if ts[0] == Punct('[') then
      match PItems(ts[1..], okFloat)
      case Fail => Fail
      case Done(items, rest) => Done(CList(items), rest)
    else if ts[0] == Punct('{') then
      match PEntries(ts[1..], '}', okFloat)
      case Fail => Fail
      case Done(entries, rest) => Done(CObject(entries), rest)
    else Fail
  }

  /** Values up to and including the closing ']'. */
  function PItems(ts: seq<Token>, okFloat: string -> bool): (r: Parse<seq<CValue>>)
    ensures r.Done? ==> |r.rest| < |ts|
    decreases |ts|, 1
  {
    if Starts(ts, Punct(']')) then Done([], ts[1..])
    else
      match PValue(ts, okFloat)
      case Fail => Fail
      case Done(v, rest) =>
        match PItems(rest, okFloat)
        case Fail => Fail
        case Done(items, rest') => Done([v] + items, rest')
  }

  /** `key: value` pairs up to and including the closing bracket. */
  function PEntries(ts: seq<Token>, close: char, okFloat: string -> bool): (r: Parse<seq<CEntry>>)
    ensures r.Done? ==> |r.rest| < |ts|
    decreases |ts|, 1
  {
    if Starts(ts, Punct(close)) then Done([], ts[1..])
    else if StartsName(ts) && Starts(ts[1..], Punct(':')) then
      match PValue(ts[1..][1..], okFloat)
      case Fail => Fail
      case Done(v, rest) =>
        match PEntries(rest, close, okFloat)
        case Fail => Fail
        case Done(es, rest') => Done([CEntry(ts[0].val, v)] + es, rest')
    else Fail
  }

  function PArgs(ts: seq<Token>, okFloat: string -> bool): (r: Parse<Option<seq<CEntry>>>)
    ensures r.Done? ==> |r.rest| <= |ts|
  {
    if !Starts(ts, Punct('(')) then Done(None, ts)
    else
      match PEntries(ts[1..], ')', okFloat)
      case Fail => Fail
      case Done(es, rest) => Done(Some(es), rest)
  }

  function PDirectives(ts: seq<Token>, okFloat: string -> bool): (r: Parse<seq<CDirective>>)
    ensures r.Done? ==> |r.rest| <= |ts|
    decreases |ts|
  {
    if !Starts(ts, Punct('@')) then Done([], ts)
    else if !StartsName(ts[1..]) then Fail
    else
      match PArgs(ts[1..][1..], okFloat)
      case Fail => Fail
      case Done(args, rest) =>
        match PDirectives(rest, okFloat)
        case Fail => Fail
        case Done(ds, rest') => Done([CDirective(ts[1].val, args)] + ds, rest')
  }

  /** `name` or `alias: name`. */
  function PHeader(ts: seq<Token>): (r: Parse<(Option<string>, string)>)
    ensures r.Done? ==> |r.rest| < |ts|
  {
    if !StartsName(ts) then Fail
    else if !Starts(ts[1..], Punct(':')) then Done((None, ts[0].val), ts[1..])
    else if StartsName(ts[1..][1..]) then Done((Some(ts[0].val), ts[1..][1..][0].val), ts[1..][1..][1..])
    else Fail
  }

  function PField(ts: seq<Token>, okFloat: string -> bool): (r: Parse<CField>)
    ensures r.Done? ==> |r.rest| < |ts|
    decreases |ts|, 0
  {
    match PHeader(ts)
    case Fail => Fail
    case Done((alias, name), r1) =>
      match PArgs(r1, okFloat)
      case Fail => Fail
      case Done(args, r2) =>
        match PDirectives(r2, okFloat)
        case Fail => Fail
        case Done(ds, r3) =>
          match PSelection(r3, okFloat)
          case Fail => Fail
          case Done(sel, r4) => Done(CField(alias, name, args, ds, sel), r4)
  }

  /** An optional selection set. */
  function PSelection(ts: seq<Token>, okFloat: string -> bool): (r: Parse<CSelection>)
    ensures r.Done? ==> |r.rest| <= |ts|
    decreases |ts|, 2
  {
    if !Starts(ts, Punct('{')) then Done(NoSelection, ts)
    else
      match PFields(ts[1..], okFloat)
      case Fail => Fail
      case Done(fs, rest) => Done(Selection(fs), rest)
  }

  /** Fields up to and including the closing '}'. */
  function PFields(ts: seq<Token>, okFloat: string -> bool): (r: Parse<seq<CField>>)
    ensures r.Done? ==> |r.rest| < |ts|
    decreases |ts|, 1
  {
    if Starts(ts, Punct('}')) then Done([], ts[1..])
    else
      match PField(ts, okFloat)
      case Fail => Fail
      case Done(f, rest) =>
        match PFields(rest, okFloat)
        case Fail => Fail
        case Done(fs, rest') => Done([f] + fs, rest')
  }

  function PBang(ts: seq<Token>): (bool, seq<Token>) {
    if Starts(ts, Punct('!')) then (true, ts[1..]) else (false, ts)
  }

  function PType(ts: seq<Token>): (r: Parse<CType>)
    ensures r.Done? ==> |r.rest| < |ts|
    decreases |ts|
  {
    if Starts(ts, Punct('[')) then
      match PType(ts[1..])
      case Fail => Fail
      case Done(elem, rest) =>
        if Starts(rest, Punct(']')) then
          var (bang, rest') := PBang(rest[1..]);
          Done(CListOf(elem, bang), rest')
        else Fail
    else if StartsName(ts) then
      var (bang, rest) := PBang(ts[1..]);
      Done(CNamed(ts[0].val, bang), rest)
    else Fail
  }

  function PDefault(ts: seq<Token>, okFloat: string -> bool): (r: Parse<Option<CValue>>)
    ensures r.Done? ==> |r.rest| <= |ts|
  {
    if !Starts(ts, Punct('=')) then Done(None, ts)
    else
      match PValue(ts[1..], okFloat)
      case Fail => Fail
      case Done(v, rest) => Done(Some(v), rest)
  }

  /** Variable definitions up to and including the closing ')'. */
  function PVarDefs(ts: seq<Token>, okFloat: string -> bool): (r: Parse<seq<CVarDef>>)
    ensures r.Done? ==> |r.rest| < |ts|
    decreases |ts|
  {
    if Starts(ts, Punct(')')) then Done([], ts[1..])
    else
      match PVarDef(ts, okFloat)
      case Fail => Fail
      case Done(d, rest) =>
        match PVarDefs(rest, okFloat)
        case Fail => Fail
        case Done(defs, rest') => Done([d] + defs, rest')
  }

  function PVarDef(ts: seq<Token>, okFloat: string -> bool): (r: Parse<CVarDef>)
    ensures r.Done? ==> |r.rest| < |ts|
  {
    if Starts(ts, Punct('$')) && StartsName(ts[1..]) && Starts(ts[1..][1..], Punct(':')) then
      match PType(ts[1..][1..][1..])
      case Fail => Fail
      case Done(t, r1) =>
        match PDefault(r1, okFloat)
        case Fail => Fail
        case Done(default, r2) => Done(CVarDef(ts[1].val, t, default), r2)
    else Fail
  }

  function PSelectionSet(ts: seq<Token>, okFloat: string -> bool): Parse<seq<CField>> {
    if Starts(ts, Punct('{')) then PFields(ts[1..], okFloat) else Fail
  }

  function POpName(ts: seq<Token>): (Option<string>, seq<Token>) {
    if StartsName(ts) then (Some(ts[0].val), ts[1..]) else (None, ts)
  }

  function POptVarDefs(ts: seq<Token>, okFloat: string -> bool): Parse<Option<seq<CVarDef>>> {
    if !Starts(ts, Punct('(')) then Done(None, ts)
    else
      match PVarDefs(ts[1..], okFloat)
      case Fail => Fail
      case Done(defs, rest) => Done(Some(defs), rest)
  }

  /** One operation, up to whatever follows its selection set. */
  function POperation(ts: seq<Token>, okFloat: string -> bool): Parse<CDocument> {
    if Starts(ts, Punct('{')) then
      match PSelectionSet(ts, okFloat)
      case Fail => Fail
      case Done(fs, rest) => Done(CShorthand(fs), rest)
    else if Starts(ts, Name("query")) || Starts(ts, Name("mutation")) then
      POperationTail(ts[0].val, ts[1..], okFloat)
    else Fail
  }

  /** What follows `query` or `mutation`. */
  function POperationTail(kind: string, ts: seq<Token>, okFloat: string -> bool): Parse<CDocument> {
    var (name, r1) := POpName(ts);
    match POptVarDefs(r1, okFloat)
    case Fail => Fail
    case Done(vars, r2) =>
      match PSelectionSet(r2, okFloat)
      case Fail => Fail
      case Done(fs, rest) => Done(COperation(kind, name, vars, fs), rest)
  }

  /** A whole token list: one operation and the end marker. */
  function PDocument(ts: seq<Token>, okFloat: string -> bool): Option<CDocument> {
    match POperation(ts, okFloat)
    case Fail => None
    case Done(d, rest) => if rest == [Eof] then Some(d) else None
  }

  // ---------------------------------------------------------------------------
  // Soundness: whatever is parsed is derived by the grammar
  // ---------------------------------------------------------------------------

  lemma Uncons<T>(ts: seq<T>)
    requires ts != []
    ensures ts == [ts[0]] + ts[1..]
  {
  }

  lemma {:induction false} ValueSound(ts: seq<Token>, okFloat: string -> bool)
    requires PValue(ts, okFloat).Done?
    ensures var r := PValue(ts, okFloat); ValueOk(r.value, okFloat) && ts == ValueTokens(r.value, r.rest)
    decreases |ts|, 0
  {
    hide PItems, PEntries, ItemsTokens, EntriesTokens, ParseInt64;
    Uncons(ts);
    if ts[0] == Punct('$') {
      Uncons(ts[1..]);
    } else if ts[0] == Punct('[') {
      ItemsSound(ts[1..], okFloat);
    } else if ts[0] == Punct('{') {
      EntriesSound(ts[1..], '}', okFloat);
    }
  }

  lemma {:induction false} ItemsSound(ts: seq<Token>, okFloat: string -> bool)
    requires PItems(ts, okFloat).Done?
    ensures var r := PItems(ts, okFloat);
            (forall i :: 0 <= i < |r.value| ==> ValueOk(r.value[i], okFloat)) && ts == ItemsTokens(r.value, r.rest)
    decreases |ts|, 1
  {
    if Starts(ts, Punct(']')) {
      Uncons(ts);
    } else {
      hide PValue, ValueTokens, ValueOk;
      ValueSound(ts, okFloat);
      ItemsSound(PValue(ts, okFloat).rest, okFloat);
    }
  }

  lemma {:induction false} EntriesSound(ts: seq<Token>, close: char, okFloat: string -> bool)
    requires PEntries(ts, close, okFloat).Done?
    ensures var r := PEntries(ts, close, okFloat);
            EntriesOk(r.value, okFloat) && ts == EntriesTokens(r.value, close, r.rest)
    decreases |ts|, 1
  {
    Uncons(ts);
    if !Starts(ts, Punct(close)) {
      Uncons(ts[1..]);
      ValueSound(ts[1..][1..], okFloat);
      EntriesSound(PValue(ts[1..][1..], okFloat).rest, close, okFloat);
    }
  }

  lemma ArgsSound(ts: seq<Token>, okFloat: string -> bool)
    requires PArgs(ts, okFloat).Done?
    ensures var r := PArgs(ts, okFloat); ArgsOk(r.value, okFloat) && ts == ArgsTokens(r.value, r.rest)
  {
    if Starts(ts, Punct('(')) {
      Uncons(ts);
      EntriesSound(ts[1..], ')', okFloat);
    }
  }

  lemma {:induction false} DirectivesSound(ts: seq<Token>, okFloat: string -> bool)
    requires PDirectives(ts, okFloat).Done?
    ensures var r := PDirectives(ts, okFloat); DirectivesOk(r.value, okFloat) && ts == DirectivesTokens(r.value, r.rest)
    decreases |ts|
  {
    if Starts(ts, Punct('@')) {
      Uncons(ts);
      Uncons(ts[1..]);
      ArgsSound(ts[1..][1..], okFloat);
      DirectivesSound(PArgs(ts[1..][1..], okFloat).rest, okFloat);
    }
  }

  lemma HeaderSound(ts: seq<Token>)
    requires PHeader(ts).Done?
    ensures var r := PHeader(ts); ts == HeaderTokens(r.value.0, r.value.1, r.rest)
  {
    Uncons(ts);
    if Starts(ts[1..], Punct(':')) {
      Uncons(ts[1..]);
      Uncons(ts[1..][1..]);
    }
  }

  lemma {:induction false} FieldSound(ts: seq<Token>, okFloat: string -> bool)
    requires PField(ts, okFloat).Done?
    ensures var r := PField(ts, okFloat); FieldOk(r.value, okFloat) && ts == FieldTokens(r.value, r.rest)
    decreases |ts|, 0
  {
    HeaderSound(ts);
    var r1 := PHeader(ts).rest;
    ArgsSound(r1, okFloat);
    var r2 := PArgs(r1, okFloat).rest;
    DirectivesSound(r2, okFloat);
    SelectionSound(PDirectives(r2, okFloat).rest, okFloat);
  }

  lemma {:induction false} SelectionSound(ts: seq<Token>, okFloat: string -> bool)
    requires PSelection(ts, okFloat).Done?
    ensures var r := PSelection(ts, okFloat); SelectionOk(r.value, okFloat) && ts == SelectionTokens(r.value, r.rest)
    decreases |ts|, 2
  {
    if Starts(ts, Punct('{')) {
      Uncons(ts);
      FieldsSound(ts[1..], okFloat);
    }
  }

  lemma {:induction false} FieldsSound(ts: seq<Token>, okFloat: string -> bool)
    requires PFields(ts, okFloat).Done?
    ensures var r := PFields(ts, okFloat); FieldsOk(r.value, okFloat) && ts == FieldsTokens(r.value, r.rest)
    decreases |ts|, 1
  {
    if Starts(ts, Punct('}')) {
      Uncons(ts);
    } else {
      hide PField, FieldTokens, FieldOk;
      FieldSound(ts, okFloat);
      FieldsSound(PField(ts, okFloat).rest, okFloat);
    }
  }

  lemma BangSound(ts: seq<Token>)
    ensures ts == BangTokens(PBang(ts).0, PBang(ts).1)
  {
    if ts != [] { Uncons(ts); }
  }

  lemma {:induction false} TypeSound(ts: seq<Token>)
    requires PType(ts).Done?
    ensures var r := PType(ts); ts == TypeTokens(r.value, r.rest)
    decreases |ts|
  {
    Uncons(ts);
    if Starts(ts, Punct('[')) {
      TypeSound(ts[1..]);
      var rest := PType(ts[1..]).rest;
      Uncons(rest);
      BangSound(rest[1..]);
    } else {
      BangSound(ts[1..]);
    }
  }

  lemma DefaultSound(ts: seq<Token>, okFloat: string -> bool)
    requires PDefault(ts, okFloat).Done?
    ensures var r := PDefault(ts, okFloat);
            (r.value.Some? ==> ValueOk(r.value.value, okFloat)) && ts == DefaultTokens(r.value, r.rest)
  {
    if Starts(ts, Punct('=')) {
      Uncons(ts);
      ValueSound(ts[1..], okFloat);
    }
  }

  lemma {:induction false} VarDefsSound(ts: seq<Token>, okFloat: string -> bool)
    requires PVarDefs(ts, okFloat).Done?
    ensures var r := PVarDefs(ts, okFloat); VarDefsOk(r.value, okFloat) && ts == VarDefsTokens(r.value, r.rest)
    decreases |ts|
  {
    if Starts(ts, Punct(')')) {
      Uncons(ts);
    } else {
      VarDefSound(ts, okFloat);
      VarDefsSound(PVarDef(ts, okFloat).rest, okFloat);
    }
  }

  lemma VarDefSound(ts: seq<Token>, okFloat: string -> bool)
    requires PVarDef(ts, okFloat).Done?
    ensures var r := PVarDef(ts, okFloat);
            (r.value.default.Some? ==> ValueOk(r.value.default.value, okFloat)) && ts == VarDefTokens(r.value, r.rest)
  {
    Uncons(ts);
    Uncons(ts[1..]);
    Uncons(ts[1..][1..]);
    var body := ts[1..][1..][1..];
    TypeSound(body);
    DefaultSound(PType(body).rest, okFloat);
  }

  // ---------------------------------------------------------------------------
  // Completeness: every derivation is found
  // ---------------------------------------------------------------------------

  lemma {:induction false} ValueComplete(v: CValue, rest: seq<Token>, okFloat: string -> bool)
    requires ValueOk(v, okFloat)
    ensures PValue(ValueTokens(v, rest), okFloat) == Done(v, rest)
    decreases v
  {
    hide PItems, PEntries, ItemsTokens, EntriesTokens;
    match v
    case CVar(n) =>
      assert ValueTokens(v, rest)[1..] == [Name(n)] + rest;
      assert ValueTokens(v, rest)[1..][1..] == rest;
    case CList(items) =>
      ItemsComplete(items, rest, okFloat);
      assert ValueTokens(v, rest)[1..] == ItemsTokens(items, rest);
    case CObject(entries) =>
      EntriesComplete(entries, '}', rest, okFloat);
      assert ValueTokens(v, rest)[1..] == EntriesTokens(entries, '}', rest);
    case _ =>
      assert ValueTokens(v, rest)[1..] == rest;
  }

  lemma NoValueClosesList(v: CValue, rest: seq<Token>)
    ensures !Starts(ValueTokens(v, rest), Punct(']'))
  {
  }

  lemma {:induction false} ItemsComplete(items: seq<CValue>, rest: seq<Token>, okFloat: string -> bool)
    requires forall i :: 0 <= i < |items| ==> ValueOk(items[i], okFloat)
    ensures PItems(ItemsTokens(items, rest), okFloat) == Done(items, rest)
    decreases items
  {
    if items != [] {
      var tail := ItemsTokens(items[1..], rest);
      NoValueClosesList(items[0], tail);
      ValueComplete(items[0], tail, okFloat);
      ItemsComplete(items[1..], rest, okFloat);
      Uncons(items);
    }
  }

  lemma {:induction false} EntriesComplete(es: seq<CEntry>, close: char, rest: seq<Token>, okFloat: string -> bool)
    requires EntriesOk(es, okFloat)
    ensures PEntries(EntriesTokens(es, close, rest), close, okFloat) == Done(es, rest)
    decreases es
  {
    if es != [] {
      hide PValue, ValueTokens;
      var tail := EntriesTokens(es[1..], close, rest);
      ValueComplete(es[0].value, tail, okFloat);
      EntriesComplete(es[1..], close, rest, okFloat);
      var ts := EntriesTokens(es, close, rest);
      assert ts[1..] == [Punct(':')] + ValueTokens(es[0].value, tail);
      assert ts[1..][1..] == ValueTokens(es[0].value, tail);
      Uncons(es);
    }
  }

  lemma ArgsComplete(args: Option<seq<CEntry>>, rest: seq<Token>, okFloat: string -> bool)
    requires ArgsOk(args, okFloat) && !Starts(rest, Punct('('))
    ensures PArgs(ArgsTokens(args, rest), okFloat) == Done(args, rest)
  {
    if args.Some? {
      EntriesComplete(args.value, ')', rest, okFloat);
      assert ArgsTokens(args, rest)[1..] == EntriesTokens(args.value, ')', rest);
    }
  }

  lemma {:induction false} DirectivesComplete(ds: seq<CDirective>, rest: seq<Token>, okFloat: string -> bool)
    requires DirectivesOk(ds, okFloat) && !Starts(rest, Punct('(')) && !Starts(rest, Punct('@'))
    ensures PDirectives(DirectivesTokens(ds, rest), okFloat) == Done(ds, rest)
    ensures !Starts(DirectivesTokens(ds, rest), Punct('('))
  {
    if ds != [] {
      var tail := DirectivesTokens(ds[1..], rest);
      DirectivesComplete(ds[1..], rest, okFloat);
      ArgsComplete(ds[0].args, tail, okFloat);
      var ts := DirectivesTokens(ds, rest);
      assert ts[1..] == [Name(ds[0].name)] + ArgsTokens(ds[0].args, tail);
      assert ts[1..][1..] == ArgsTokens(ds[0].args, tail);
      Uncons(ds);
    }
  }

  lemma HeaderComplete(alias: Option<string>, name: string, rest: seq<Token>)
    requires !Starts(rest, Punct(':'))
    ensures PHeader(HeaderTokens(alias, name, rest)) == Done((alias, name), rest)
  {
    var ts := HeaderTokens(alias, name, rest);
    if alias.Some? {
      assert ts[1..] == [Punct(':')] + ([Name(name)] + rest);
      assert ts[1..][1..] == [Name(name)] + rest;
      assert ts[1..][1..][1..] == rest;
    } else {
      assert ts[1..] == rest;
    }
  }

  /** What may follow a field: the next field or the end of the selection set. */
  predicate FieldEnd(rest: seq<Token>) {
    StartsName(rest) || Starts(rest, Punct('}'))
  }

  lemma ArgsStart(args: Option<seq<CEntry>>, rest: seq<Token>)
    ensures args.Some? ==> Starts(ArgsTokens(args, rest), Punct('('))
    ensures args.None? ==> ArgsTokens(args, rest) == rest
  {
  }

  lemma {:induction false} FieldComplete(f: CField, rest: seq<Token>, okFloat: string -> bool)
    requires FieldOk(f, okFloat) && FieldEnd(rest)
    ensures PField(FieldTokens(f, rest), okFloat) == Done(f, rest)
    decreases f
  {
    var s3 := SelectionTokens(f.selection, rest);
    SelectionComplete(f.selection, rest, okFloat);
    var s2 := DirectivesTokens(f.directives, s3);
    DirectivesComplete(f.directives, s3, okFloat);
    DirectivesStart(f.directives, s3);
    var s1 := ArgsTokens(f.args, s2);
    ArgsComplete(f.args, s2, okFloat);
    ArgsStart(f.args, s2);
    HeaderComplete(f.alias, f.name, s1);
    FieldFromParts(FieldTokens(f, rest), s1, s2, s3, f, rest, okFloat);
  }

  lemma FieldFromParts(ts: seq<Token>, s1: seq<Token>, s2: seq<Token>, s3: seq<Token>, f: CField,
                       rest: seq<Token>, okFloat: string -> bool)
    requires PHeader(ts) == Done((f.alias, f.name), s1)
    requires PArgs(s1, okFloat) == Done(f.args, s2)
    requires PDirectives(s2, okFloat) == Done(f.directives, s3)
    requires PSelection(s3, okFloat) == Done(f.selection, rest)
    ensures PField(ts, okFloat) == Done(f, rest)
  {
  }

  lemma DirectivesStart(ds: seq<CDirective>, rest: seq<Token>)
    ensures DirectivesTokens(ds, rest) == rest || Starts(DirectivesTokens(ds, rest), Punct('@'))
  {
  }

  lemma {:induction false} SelectionComplete(sel: CSelection, rest: seq<Token>, okFloat: string -> bool)
    requires SelectionOk(sel, okFloat) && FieldEnd(rest)
    ensures PSelection(SelectionTokens(sel, rest), okFloat) == Done(sel, rest)
    ensures !Starts(SelectionTokens(sel, rest), Punct('(')) && !Starts(SelectionTokens(sel, rest), Punct('@'))
    ensures !Starts(SelectionTokens(sel, rest), Punct(':'))
    decreases sel
  {
    if sel.Selection? {
      FieldsComplete(sel.fields, rest, okFloat);
      assert SelectionTokens(sel, rest)[1..] == FieldsTokens(sel.fields, rest);
    }
  }

  lemma FieldStart(f: CField, rest: seq<Token>)
    ensures StartsName(FieldTokens(f, rest))
  {
  }

  lemma {:induction false} FieldsComplete(fs: seq<CField>, rest: seq<Token>, okFloat: string -> bool)
    requires FieldsOk(fs, okFloat)
    ensures PFields(FieldsTokens(fs, rest), okFloat) == Done(fs, rest)
    decreases fs
  {
    if fs != [] {
      var tail := FieldsTokens(fs[1..], rest);
      assert FieldEnd(tail) by {
        if |fs| > 1 { FieldStart(fs[1], FieldsTokens(fs[1..][1..], rest)); }
      }
      FieldStart(fs[0], tail);
      FieldComplete(fs[0], tail, okFloat);
      assert !Starts(FieldsTokens(fs, rest), Punct('}'));
      FieldsComplete(fs[1..], rest, okFloat);
      Uncons(fs);
    }
  }

  lemma {:induction false} TypeComplete(t: CType, rest: seq<Token>)
    requires !Starts(rest, Punct('!'))
    ensures PType(TypeTokens(t, rest)) == Done(t, rest)
    decreases t
  {
    var tail := BangTokens(t.bang, rest);
    assert PBang(tail) == (t.bang, rest);
    var ts := TypeTokens(t, rest);
    if t.CListOf? {
      var inner := [Punct(']')] + tail;
      TypeComplete(t.elem, inner);
      assert ts[1..] == TypeTokens(t.elem, inner);
      assert inner[1..] == tail;
    } else {
      assert ts[1..] == tail;
    }
  }

  lemma DefaultComplete(default: Option<CValue>, rest: seq<Token>, okFloat: string -> bool)
    requires default.Some? ==> ValueOk(default.value, okFloat)
    requires !Starts(rest, Punct('=')) && !Starts(rest, Punct('!'))
    ensures PDefault(DefaultTokens(default, rest), okFloat) == Done(default, rest)
    ensures !Starts(DefaultTokens(default, rest), Punct('!'))
  {
    if default.Some? {
      ValueComplete(default.value, rest, okFloat);
      assert DefaultTokens(default, rest)[1..] == ValueTokens(default.value, rest);
    }
  }

  lemma VarDefComplete(d: CVarDef, rest: seq<Token>, okFloat: string -> bool)
    requires d.default.Some? ==> ValueOk(d.default.value, okFloat)
    requires !Starts(rest, Punct('=')) && !Starts(rest, Punct('!'))
    ensures PVarDef(VarDefTokens(d, rest), okFloat) == Done(d, rest)
  {
    var s1 := DefaultTokens(d.default, rest);
    DefaultComplete(d.default, rest, okFloat);
    TypeComplete(d.varType, s1);
    var ts := VarDefTokens(d, rest);
    assert ts[1..] == [Name(d.name)] + ([Punct(':')] + TypeTokens(d.varType, s1));
    assert ts[1..][1..] == [Punct(':')] + TypeTokens(d.varType, s1);
    assert ts[1..][1..][1..] == TypeTokens(d.varType, s1);
  }

  lemma VarDefsStart(defs: seq<CVarDef>, rest: seq<Token>)
    ensures Starts(VarDefsTokens(defs, rest), if defs == [] then Punct(')') else Punct('$'))
  {
  }

  lemma {:induction false} VarDefsComplete(defs: seq<CVarDef>, rest: seq<Token>, okFloat: string -> bool)
    requires VarDefsOk(defs, okFloat)
    ensures PVarDefs(VarDefsTokens(defs, rest), okFloat) == Done(defs, rest)
  {
    VarDefsStart(defs, rest);
    if defs != [] {
      VarDefsComplete(defs[1..], rest, okFloat);
      VarDefsStart(defs[1..], rest);
      VarDefComplete(defs[0], VarDefsTokens(defs[1..], rest), okFloat);
      Uncons(defs);
    }
  }

  // ---------------------------------------------------------------------------
  // The parser is exactly the grammar
  // ---------------------------------------------------------------------------

  lemma DocumentSound(ts: seq<Token>, okFloat: string -> bool)
    requires PDocument(ts, okFloat).Some?
    ensures var d := PDocument(ts, okFloat).value; DocumentOk(d, okFloat) && ts == DocumentTokens(d)
  {
    Uncons(ts);
    if Starts(ts, Punct('{')) {
      FieldsSound(ts[1..], okFloat);
    } else {
      TailSound(ts[0].val, ts[1..], okFloat);
    }
  }

  lemma TailSound(kind: string, ts: seq<Token>, okFloat: string -> bool)
    requires (kind == "query" || kind == "mutation") && POperationTail(kind, ts, okFloat).Done?
    requires POperationTail(kind, ts, okFloat).rest == [Eof]
    ensures var d := POperationTail(kind, ts, okFloat).value;
            DocumentOk(d, okFloat) && [Name(kind)] + ts == DocumentTokens(d)
  {
    var (name, r1) := POpName(ts);
    if name.Some? { Uncons(ts); }
    if Starts(r1, Punct('(')) {
      Uncons(r1);
      VarDefsSound(r1[1..], okFloat);
    }
    var r2 := POptVarDefs(r1, okFloat).rest;
    Uncons(r2);
    FieldsSound(r2[1..], okFloat);
  }

  lemma BodyComplete(fs: seq<CField>, okFloat: string -> bool)
    requires FieldsOk(fs, okFloat)
    ensures PSelectionSet([Punct('{')] + FieldsTokens(fs, [Eof]), okFloat) == Done(fs, [Eof])
  {
    FieldsComplete(fs, [Eof], okFloat);
    assert ([Punct('{')] + FieldsTokens(fs, [Eof]))[1..] == FieldsTokens(fs, [Eof]);
  }

  lemma OptVarDefsComplete(vars: Option<seq<CVarDef>>, rest: seq<Token>, okFloat: string -> bool)
    requires (vars.Some? ==> VarDefsOk(vars.value, okFloat)) && Starts(rest, Punct('{'))
    ensures POptVarDefs(OptVarDefsTokens(vars, rest), okFloat) == Done(vars, rest)
    ensures !StartsName(OptVarDefsTokens(vars, rest))
  {
    if vars.Some? {
      VarDefsComplete(vars.value, rest, okFloat);
      assert OptVarDefsTokens(vars, rest)[1..] == VarDefsTokens(vars.value, rest);
    }
  }

  lemma OpNameComplete(name: Option<string>, rest: seq<Token>)
    requires !StartsName(rest)
    ensures POpName(OpNameTokens(name, rest)) == (name, rest)
  {
  }

  lemma DocumentComplete(d: CDocument, okFloat: string -> bool)
    requires DocumentOk(d, okFloat)
    ensures PDocument(DocumentTokens(d), okFloat) == Some(d)
  {
    hide FieldsTokens, VarDefsTokens, FieldsOk, VarDefsOk;
    var body := [Punct('{')] + FieldsTokens(d.selection, [Eof]);
    BodyComplete(d.selection, okFloat);
    if d.COperation? {
      var s2 := OptVarDefsTokens(d.vars, body);
      OptVarDefsComplete(d.vars, body, okFloat);
      OpNameComplete(d.name, s2);
      assert DocumentTokens(d)[1..] == OpNameTokens(d.name, s2);
      assert POperationTail(d.kind, OpNameTokens(d.name, s2), okFloat) == Done(d, [Eof]);
    }
  }

  /** The parser returns `d` for a token list exactly when the list derives `d`:
      it is sound and complete for the grammar, and no list has two derivations. */
  lemma ParserExact(ts: seq<Token>, d: CDocument, okFloat: string -> bool)
    ensures PDocument(ts, okFloat) == Some(d) <==> DocumentOk(d, okFloat) && ts == DocumentTokens(d)
  {
    if PDocument(ts, okFloat).Some? {
      DocumentSound(ts, okFloat);
    }
    if DocumentOk(d, okFloat) {
      DocumentComplete(d, okFloat);
    }
  }
}
