/** What the tokens of a query mean, construct by construct, written out: the tokens in front, whatever follows them,
    and the part of the document they become. */
module GraphQLMeaning {
  import opened Wrappers
  import opened Decimal
  import opened GraphQLLexer
  import opened GraphQLSyntax
  import opened GraphQLDocument

  // ---------------------------------------------------------------------------
  // Values
  // ---------------------------------------------------------------------------

  lemma Drop<T>(t: T, rest: seq<T>)
    ensures ([t] + rest)[0] == t && ([t] + rest)[1..] == rest
  {
  }

  /** The values that begin with one token, and the tokens that begin none. */
  lemma OneTokenValue(t: Token, rest: seq<Token>, okFloat: string -> bool)
    requires !(t.Punct? && t.c in "$[{")
    ensures var r := PValue([t] + rest, okFloat);
            match t
            case Str(s) => r.Done? && ToValue(r.value) == String(s) && r.rest == rest
            case IntLit(s) =>
              if ParseInt64(s).Some? then r.Done? && ToValue(r.value) == Int(ParseInt64(s).value) && r.rest == rest
              else r == Fail
            case FloatLit(s) =>
              if okFloat(s) then r.Done? && ToValue(r.value) == Float(s) && r.rest == rest else r == Fail
            case Name(s) =>
              if s == "true" then r.Done? && ToValue(r.value) == Bool(true) && r.rest == rest
              else if s == "false" then r.Done? && ToValue(r.value) == Bool(false) && r.rest == rest
              else if s == "null" then r.Done? && ToValue(r.value) == Null && r.rest == rest
              else r == Fail
            case Punct(_) => r == Fail
            case Eof => r == Fail
  {
    Drop(t, rest);
    hide ParseInt64;
  }

  /** `$x` is a variable. */
  lemma VariableMeans(x: string, rest: seq<Token>, okFloat: string -> bool)
    ensures var r := PValue([Punct('$')] + ([Name(x)] + rest), okFloat);
            r.Done? && ToValue(r.value) == Var(x) && r.rest == rest
  {
    ValueComplete(CVar(x), rest, okFloat);
  }

  /** `[ ]`, and `[v ...` puts a value in front of what the rest of the list means. */
  lemma ListMeans(v: CValue, items: seq<CValue>, rest: seq<Token>, okFloat: string -> bool)
    requires ValueOk(v, okFloat) && forall i :: 0 <= i < |items| ==> ValueOk(items[i], okFloat)
    ensures var r := PValue([Punct('[')] + ([Punct(']')] + rest), okFloat);
            r.Done? && ToValue(r.value) == List([]) && r.rest == rest
    ensures var more := ItemsTokens(items, rest);
            var r := PValue([Punct('[')] + ValueTokens(v, more), okFloat);
            && PValue([Punct('[')] + more, okFloat) == Done(CList(items), rest)
            && r.Done? && r.rest == rest
            && ToValue(r.value) == List([ToValue(v)] + ToValue(CList(items)).items)
  {
    var none: seq<CValue> := [];
    ValueComplete(CList(none), rest, okFloat);
    ValueComplete(CList(items), rest, okFloat);
    assert ([v] + items)[1..] == items;
    ValueComplete(CList([v] + items), rest, okFloat);
  }

  /** An object, and an argument list, has the keys that are written, each with its last value. */
  lemma {:induction false} LastWins(es: seq<CEntry>)
    ensures forall k :: k in ToMap(es) <==> exists i :: 0 <= i < |es| && es[i].key == k
    ensures forall i :: 0 <= i < |es| && (forall j :: i < j < |es| ==> es[j].key != es[i].key) ==>
              es[i].key in ToMap(es) && ToMap(es)[es[i].key] == ToValue(es[i].value)
  {
    if es != [] {
      var rest := es[1..];
      LastWins(rest);
      hide ToValue;
      assert forall i :: 0 <= i < |rest| ==> rest[i] == es[i + 1];
      forall k
        ensures k in ToMap(es) <==> exists i :: 0 <= i < |es| && es[i].key == k
      {
        if i :| 0 <= i < |es| && es[i].key == k {
          if i > 0 { assert rest[i - 1].key == k; }
        }
        if k in ToMap(es) && k in ToMap(rest) {
          var i :| 0 <= i < |rest| && rest[i].key == k;
          assert es[i + 1].key == k;
        }
      }
      forall i | 0 <= i < |es| && (forall j :: i < j < |es| ==> es[j].key != es[i].key)
        ensures es[i].key in ToMap(es) && ToMap(es)[es[i].key] == ToValue(es[i].value)
      {
        if i == 0 {
          assert es[0].key !in ToMap(rest) by {
            assert forall j :: 0 <= j < |rest| ==> rest[j].key == es[j + 1].key;
          }
        } else {
          assert forall j :: i - 1 < j < |rest| ==> rest[j].key == es[j + 1].key;
          assert rest[i - 1] == es[i];
        }
      }
    }
  }

  /** `{ }`, and `{k: v ...` puts an entry in front of the others. */
  lemma ObjectMeans(k: string, v: CValue, es: seq<CEntry>, rest: seq<Token>, okFloat: string -> bool)
    requires ValueOk(v, okFloat) && EntriesOk(es, okFloat)
    ensures var r := PValue([Punct('{')] + ([Punct('}')] + rest), okFloat);
            r.Done? && ToValue(r.value) == Object(map[]) && r.rest == rest
    ensures var more := EntriesTokens(es, '}', rest);
            var r := PValue([Punct('{')] + ([Name(k)] + ([Punct(':')] + ValueTokens(v, more))), okFloat);
            && PValue([Punct('{')] + more, okFloat) == Done(CObject(es), rest)
            && r == Done(CObject([CEntry(k, v)] + es), rest)
    ensures ToValue(CObject(es)) == Object(ToMap(es))
  {
    var none: seq<CEntry> := [];
    ValueComplete(CObject(none), rest, okFloat);
    ValueComplete(CObject(es), rest, okFloat);
    var all := [CEntry(k, v)] + es;
    assert all[1..] == es && all[0] == CEntry(k, v);
    assert forall i :: 0 <= i < |all| ==> ValueOk(all[i].value, okFloat) by {
      assert forall i :: 1 <= i < |all| ==> all[i] == es[i - 1];
    }
    ValueComplete(CObject(all), rest, okFloat);
  }

  // ---------------------------------------------------------------------------
  // Fields
  // ---------------------------------------------------------------------------

  /** `name` and `alias: name`. */
  lemma PlainField(a: string, b: string, rest: seq<Token>, okFloat: string -> bool)
    requires FieldEnd(rest)
    ensures var r := PField([Name(b)] + rest, okFloat);
            r.Done? && ToField(r.value) == Field("", b, map[], []) && r.rest == rest
    ensures var r := PField([Name(a)] + ([Punct(':')] + ([Name(b)] + rest)), okFloat);
            r.Done? && ToField(r.value) == Field(a, b, map[], []) && r.rest == rest
  {
    FieldComplete(CField(None, b, None, [], NoSelection), rest, okFloat);
    FieldComplete(CField(Some(a), b, None, [], NoSelection), rest, okFloat);
  }

  /** `name(k: v)` and `name @d(k: v) { g }`. */
  lemma FieldWithParts(b: string, k: string, v: CValue, d: string, g: string, rest: seq<Token>, okFloat: string -> bool)
    requires FieldEnd(rest) && ValueOk(v, okFloat)
    ensures var value := ValueTokens(v, [Punct(')')] + rest);
            var r := PField([Name(b)] + ([Punct('(')] + ([Name(k)] + ([Punct(':')] + value))), okFloat);
            r.Done? && ToField(r.value) == Field("", b, map[k := ToValue(v)], []) && r.rest == rest
    ensures var body := [Punct('{')] + ([Name(g)] + ([Punct('}')] + rest));
            var r := PField([Name(b)] + ([Punct('@')] + ([Name(d)] + ([Punct('(')] +
                              ([Name(k)] + ([Punct(':')] + ValueTokens(v, [Punct(')')] + body)))))), okFloat);
            r.Done? && ToField(r.value) == Field("", b, map[], [Field("", g, map[], [])]) && r.rest == rest
  {
    OneEntry(k, v, rest, okFloat);
    FieldComplete(CField(None, b, Some([CEntry(k, v)]), [], NoSelection), rest, okFloat);
    var inner := CField(None, g, None, [], NoSelection);
    var body := [Punct('{')] + ([Name(g)] + ([Punct('}')] + rest));
    OneField(g, rest, okFloat);
    OneEntry(k, v, body, okFloat);
    var ds := [CDirective(d, Some([CEntry(k, v)]))];
    assert DirectivesTokens(ds[1..], body) == body;
    FieldComplete(CField(None, b, None, ds, Selection([inner])), rest, okFloat);
  }

  lemma OneEntry(k: string, v: CValue, rest: seq<Token>, okFloat: string -> bool)
    requires ValueOk(v, okFloat)
    ensures EntriesTokens([CEntry(k, v)], ')', rest) == [Name(k)] + ([Punct(':')] + ValueTokens(v, [Punct(')')] + rest))
    ensures EntriesOk([CEntry(k, v)], okFloat) && ToMap([CEntry(k, v)]) == map[k := ToValue(v)]
  {
    var es := [CEntry(k, v)];
    assert es[1..] == [];
    assert map[k := ToValue(v)] + map[] == map[k := ToValue(v)];
  }

  lemma OneField(g: string, rest: seq<Token>, okFloat: string -> bool)
    ensures var f := CField(None, g, None, [], NoSelection);
            && SelectionTokens(Selection([f]), rest) == [Punct('{')] + ([Name(g)] + ([Punct('}')] + rest))
            && SelectionOk(Selection([f]), okFloat) && ToSelection(Selection([f])) == [Field("", g, map[], [])]
            && FieldsTokens([f], rest) == [Name(g)] + ([Punct('}')] + rest)
            && ToFields([f]) == [Field("", g, map[], [])] && FieldsOk([f], okFloat)
  {
    var f := CField(None, g, None, [], NoSelection);
    var fs := [f];
    assert fs[1..] == [];
    var closed := [Punct('}')] + rest;
    assert FieldsTokens(fs[1..], rest) == closed;
    assert FieldTokens(f, closed) == [Name(g)] + closed;
    assert FieldsTokens(fs, rest) == [Name(g)] + closed;
    assert ToField(f) == Field("", g, map[], []);
    assert ToFields(fs[1..]) == [];
    assert [ToField(f)] + [] == [ToField(f)];
  }

  // ---------------------------------------------------------------------------
  // Documents
  // ---------------------------------------------------------------------------

  /** `{ g }` is a query. */
  lemma ShorthandMeans(g: string, okFloat: string -> bool)
    ensures var d := PDocument([Punct('{')] + ([Name(g)] + ([Punct('}')] + [Eof])), okFloat);
            d.Some? && ToDocument(d.value) == Document("query", [Field("", g, map[], [])])
  {
    OneField(g, [Eof], okFloat);
    var d := CShorthand([CField(None, g, None, [], NoSelection)]);
    ParserExact(DocumentTokens(d), d, okFloat);
  }

  /** `query op($x: [T!]! = v) { g }` and the same mutation; neither the name nor the variables are kept. */
  lemma OperationMeans(kind: string, op: string, x: string, t: string, v: CValue, g: string, okFloat: string -> bool)
    requires (kind == "query" || kind == "mutation") && ValueOk(v, okFloat)
    ensures var body := [Punct('{')] + ([Name(g)] + ([Punct('}')] + [Eof]));
            var varType := [Punct('[')] + ([Name(t)] + ([Punct('!')] + ([Punct(']')] + ([Punct('!')] +
                             ([Punct('=')] + ValueTokens(v, [Punct(')')] + body))))));
            var d := PDocument([Name(kind)] + ([Name(op)] + ([Punct('(')] +
                       ([Punct('$')] + ([Name(x)] + ([Punct(':')] + varType))))), okFloat);
            d.Some? && ToDocument(d.value) == Document(kind, [Field("", g, map[], [])])
    ensures var d := PDocument([Name(kind)] + ([Punct('{')] + ([Name(g)] + ([Punct('}')] + [Eof]))), okFloat);
            d.Some? && ToDocument(d.value) == Document(kind, [Field("", g, map[], [])])
  {
    OneField(g, [Eof], okFloat);
    var fs := [CField(None, g, None, [], NoSelection)];
    var bare := COperation(kind, None, None, fs);
    ParserExact(DocumentTokens(bare), bare, okFloat);
    var body := [Punct('{')] + ([Name(g)] + ([Punct('}')] + [Eof]));
    var defs := OneVariable(x, t, v, body, okFloat);
    var d := COperation(kind, Some(op), Some(defs), fs);
    hide TypeTokens, DefaultTokens, ValueTokens, FieldsTokens, VarDefsOk, FieldsOk, ToFields, VarDefTokens;
    ParserExact(DocumentTokens(d), d, okFloat);
  }

  lemma OneVariable(x: string, t: string, v: CValue, body: seq<Token>, okFloat: string -> bool)
    returns (defs: seq<CVarDef>)
    requires ValueOk(v, okFloat)
    ensures VarDefsOk(defs, okFloat)
    ensures VarDefsTokens(defs, body) ==
            [Punct('$')] + ([Name(x)] + ([Punct(':')] + ([Punct('[')] + ([Name(t)] + ([Punct('!')] + ([Punct(']')] +
              ([Punct('!')] + ([Punct('=')] + ValueTokens(v, [Punct(')')] + body)))))))))
  {
    var varType := CListOf(CNamed(t, true), true);
    var d := CVarDef(x, varType, Some(v));
    defs := [d];
    assert defs[1..] == [];
    var closed := [Punct(')')] + body;
    assert VarDefsTokens(defs[1..], body) == closed;
    var dflt := [Punct('=')] + ValueTokens(v, closed);
    assert DefaultTokens(d.default, closed) == dflt;
    var end := [Punct(']')] + ([Punct('!')] + dflt);
    assert TypeTokens(CNamed(t, true), end) == [Name(t)] + ([Punct('!')] + end);
    assert TypeTokens(varType, dflt) == [Punct('[')] + ([Name(t)] + ([Punct('!')] + end));
    hide TypeTokens, DefaultTokens, ValueTokens;
  }

  /** Nothing else begins a document: not a subscription, no other word, no other token. */
  lemma NoOtherDocument(ts: seq<Token>, okFloat: string -> bool)
    requires ts == [] || !(ts[0] == Punct('{') || ts[0] == Name("query") || ts[0] == Name("mutation"))
    ensures PDocument(ts, okFloat) == None
  {
    if PDocument(ts, okFloat).Some? {
      var d := PDocument(ts, okFloat).value;
      ParserExact(ts, d, okFloat);
    }
  }
}
