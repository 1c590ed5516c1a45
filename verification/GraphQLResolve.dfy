/** Variable substitution in argument values: `valueNode.resolve` of src/graphql/parser.go. */
module GraphQLResolve {
  import opened GraphQLSyntax

  /** The plain Go values `resolve` returns; a float is carried as its lexeme. */
  datatype Plain =
    | Nil
    | IntPlain(n: int)
    | FloatPlain(lexeme: string)
    | StringPlain(s: string)
    | BoolPlain(b: bool)
    | ListPlain(items: seq<Plain>)
    | MapPlain(fields: map<string, Plain>)

  /** A missing variable is nil, as is every variable of a nil map. */
  function Lookup(vars: map<string, Plain>, name: string): Plain {
    if name in vars then vars[name] else Nil
  }

  function Resolve(v: Value, vars: map<string, Plain>): Plain
    decreases v
  {
    match v
    case Var(name) => Lookup(vars, name)
    case Int(n) => IntPlain(n)
    case Float(s) => FloatPlain(s)
    case String(s) => StringPlain(s)
    case Bool(b) => BoolPlain(b)
    case Null => Nil
    case List(items) => ListPlain(seq(|items|, i requires 0 <= i < |items| => Resolve(items[i], vars)))
    case Object(fields) => MapPlain(map k | k in fields :: Resolve(fields[k], vars))
  }

  /** Is variable `x` used anywhere in `v`? */
  predicate Occurs(x: string, v: Value)
    decreases v
  {
    match v
    case Var(name) => x == name
    case List(items) => exists i :: 0 <= i < |items| && Occurs(x, items[i])
    case Object(fields) => exists k :: k in fields && Occurs(x, fields[k])
    case _ => false
  }

  ghost predicate AgreeOn(v: Value, a: map<string, Plain>, b: map<string, Plain>) {
    forall x :: Occurs(x, v) ==> Lookup(a, x) == Lookup(b, x)
  }

  /** Two variable maps give the same argument exactly when they agree on the variables it uses. */
  lemma {:induction false} ResolveDependsOnItsVariables(v: Value, a: map<string, Plain>, b: map<string, Plain>)
    ensures Resolve(v, a) == Resolve(v, b) <==> AgreeOn(v, a, b)
    decreases v
  {
    match v
    case Var(name) => assert Occurs(name, v);
    case List(items) =>
      forall i | 0 <= i < |items|
        ensures Resolve(items[i], a) == Resolve(items[i], b) <==> AgreeOn(items[i], a, b)
      {
        ResolveDependsOnItsVariables(items[i], a, b);
      }
      if Resolve(v, a) == Resolve(v, b) {
        forall i | 0 <= i < |items|
          ensures Resolve(items[i], a) == Resolve(items[i], b)
        {
          assert Resolve(v, a).items[i] == Resolve(v, b).items[i];
        }
      }
      if AgreeOn(v, a, b) {
        assert forall i :: 0 <= i < |items| ==> AgreeOn(items[i], a, b);
      }
    case Object(fields) =>
      forall k | k in fields
        ensures Resolve(fields[k], a) == Resolve(fields[k], b) <==> AgreeOn(fields[k], a, b)
      {
        ResolveDependsOnItsVariables(fields[k], a, b);
      }
      if Resolve(v, a) == Resolve(v, b) {
        forall k | k in fields
          ensures Resolve(fields[k], a) == Resolve(fields[k], b)
        {
          assert Resolve(v, a).fields[k] == Resolve(v, b).fields[k];
        }
      }
      if AgreeOn(v, a, b) {
        assert forall k :: k in fields ==> AgreeOn(fields[k], a, b);
      }
    case _ =>
  }

  // ---------------------------------------------------------------------------
  // What resolving gives
  // ---------------------------------------------------------------------------

  /** Constants are themselves, a variable is its value or nil, and lists and objects are resolved item by item. */
  lemma ResolveMeans(vars: map<string, Plain>, x: string, n: int, s: string, b: bool, items: seq<Value>,
                     fields: map<string, Value>)
    ensures Resolve(Var(x), vars) == if x in vars then vars[x] else Nil
    ensures Resolve(Int(n), vars) == IntPlain(n) && Resolve(Float(s), vars) == FloatPlain(s)
    ensures Resolve(String(s), vars) == StringPlain(s) && Resolve(Bool(b), vars) == BoolPlain(b)
    ensures Resolve(Null, vars) == Nil
    ensures var r := Resolve(List(items), vars);
            && r.ListPlain? && |r.items| == |items|
            && forall i :: 0 <= i < |items| ==> r.items[i] == Resolve(items[i], vars)
    ensures var r := Resolve(Object(fields), vars);
            r.MapPlain? && r.fields.Keys == fields.Keys &&
            forall k :: k in fields ==> r.fields[k] == Resolve(fields[k], vars)
  {
  }

  /** A plain value as a literal without variables. */
  function Embed(p: Plain): Value
    decreases p
  {
    match p
    case Nil => Null
    case IntPlain(n) => Int(n)
    case FloatPlain(lexeme) => Float(lexeme)
    case StringPlain(s) => String(s)
    case BoolPlain(b) => Bool(b)
    case ListPlain(items) => List(seq(|items|, i requires 0 <= i < |items| => Embed(items[i])))
    case MapPlain(fields) => Object(map k | k in fields :: Embed(fields[k]))
  }

  /** Resolving undoes writing a plain value as a literal, whatever the variables. */
  lemma {:induction false} ResolveEmbed(p: Plain, vars: map<string, Plain>)
    ensures Resolve(Embed(p), vars) == p
    decreases p
  {
    match p
    case ListPlain(items) =>
      forall i | 0 <= i < |items|
        ensures Resolve(Embed(items[i]), vars) == items[i]
      {
        ResolveEmbed(items[i], vars);
      }
    case MapPlain(fields) =>
      forall k | k in fields
        ensures Resolve(Embed(fields[k]), vars) == fields[k]
      {
        ResolveEmbed(fields[k], vars);
      }
      assert Resolve(Embed(p), vars).fields == fields;
    case _ =>
  }

  /** Every variable replaced by the literal of its value, a missing one by null. */
  function Substitute(v: Value, vars: map<string, Plain>): Value
    decreases v
  {
    match v
    case Var(x) => Embed(if x in vars then vars[x] else Nil)
    case List(items) => List(seq(|items|, i requires 0 <= i < |items| => Substitute(items[i], vars)))
    case Object(fields) => Object(map k | k in fields :: Substitute(fields[k], vars))
    case _ => v
  }

  /** Resolving is substituting: what is left needs no variables, not even a map of them. */
  lemma {:induction false} ResolveSubstitutes(v: Value, vars: map<string, Plain>)
    ensures Resolve(Substitute(v, vars), map[]) == Resolve(v, vars)
    decreases v
  {
    match v
    case Var(x) => ResolveEmbed(if x in vars then vars[x] else Nil, map[]);
    case List(items) =>
      forall i | 0 <= i < |items|
        ensures Resolve(Substitute(items[i], vars), map[]) == Resolve(items[i], vars)
      {
        ResolveSubstitutes(items[i], vars);
      }
    case Object(fields) =>
      forall k | k in fields
        ensures Resolve(Substitute(fields[k], vars), map[]) == Resolve(fields[k], vars)
      {
        ResolveSubstitutes(fields[k], vars);
      }
      assert Resolve(Substitute(v, vars), map[]).fields == Resolve(v, vars).fields;
    case _ =>
  }
}
