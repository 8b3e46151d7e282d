/** The fragment of SQL that the builders emit: values, three-valued logic, the tokens of
    a condition, and how PostgreSQL reads such a token sequence. */
module Sql {

  datatype Option<+T> = None | Some(value: T) {
    function GetOr(default: T): T { if Some? then value else default }
  }

  // ----- Values and three-valued logic -----

  datatype Value = Null | Str(s: string) | Num(n: int)

  datatype TV = True | False | Unknown

  function And3(a: TV, b: TV): TV {
    if a.False? || b.False? then False
    else if a.True? && b.True? then True
    else Unknown
  }

  function Or3(a: TV, b: TV): TV {
    if a.True? || b.True? then True
    else if a.False? && b.False? then False
    else Unknown
  }

  function Not3(a: TV): TV {
    match a
    case True => False
    case False => True
    case Unknown => Unknown
  }

  function Of(b: bool): TV { if b then True else False }

  /** `=` is unknown as soon as one side is NULL. */
  function Eq3(a: Value, b: Value): TV {
    if a.Null? || b.Null? then Unknown else Of(a == b)
  }

  /** `v = ANY(path)` */
  function EqAny3(v: Value, path: seq<Value>): TV {
    if path == [] then False else Or3(Eq3(v, path[0]), EqAny3(v, path[1..]))
  }

  // ----- Conditions as they are emitted -----

  /** A column reference: the alias is the table (or CTE) name in front of the dot. */
  datatype Column = Column(alias: string, name: string)

  /** What stands at a value position: a placeholder, a bare keyword or a quoted literal. */
  datatype Arg = Marker(n: int) | Keyword(word: string) | Literal(text: string)

  /** The left-hand side of a filter comparison, with the wrappers put around the column. */
  datatype Operand = Operand(col: Column, jsonPath: string, toJsonb: bool, tsLang: Option<string>)

  datatype Atom =
    | Compare(lhs: Operand, op: string, fn: string, fnArgs: seq<string>, args: seq<Arg>)
    | EqCol(left: Column, right: Column)
    | EqArg(left: Column, arg: Arg)
    | DepthBelow(arg: Arg)
    | DepthPositive
    | OnPath(col: Column)

  datatype Tok = AndT | OrT | NotT | LPar | RPar | Cond(atom: Atom)

  // ----- Reading a condition: NOT binds tighter than AND, AND tighter than OR -----

  datatype Expr = Prim(atom: Atom) | Neg(e: Expr) | All(es: seq<Expr>) | Any(es: seq<Expr>)

  /** disjunction := conjunction (OR conjunction)* */
  function ReadOr(ts: seq<Tok>): (r: Option<(seq<Expr>, seq<Tok>)>)
    ensures r.Some? ==> |r.value.1| < |ts|
    decreases |ts|, 2
  {
    match ReadAnd(ts)
    case None => None
    case Some((cs, rest)) =>
      if rest != [] && rest[0] == OrT then
        match ReadOr(rest[1..])
        case None => None
        case Some((ds, rest')) => Some(([All(cs)] + ds, rest'))
      else
        Some(([All(cs)], rest))
  }

  /** conjunction := negation (AND negation)* */
  function ReadAnd(ts: seq<Tok>): (r: Option<(seq<Expr>, seq<Tok>)>)
    ensures r.Some? ==> |r.value.1| < |ts|
    decreases |ts|, 1
  {
    match ReadNot(ts)
    case None => None
    case Some((e, rest)) =>
      if rest != [] && rest[0] == AndT then
        match ReadAnd(rest[1..])
        case None => None
        case Some((es, rest')) => Some(([e] + es, rest'))
      else
        Some(([e], rest))
  }

  /** negation := NOT negation | '(' disjunction ')' | comparison */
  function ReadNot(ts: seq<Tok>): (r: Option<(Expr, seq<Tok>)>)
    ensures r.Some? ==> |r.value.1| < |ts|
    decreases |ts|, 0
  {
    if ts == [] then None
    else
      match ts[0]
      case NotT =>
        (match ReadNot(ts[1..])
         case None => None
         case Some((e, rest)) => Some((Neg(e), rest)))
      case LPar =>
        (match ReadOr(ts[1..])
         case None => None
         case Some((ds, rest)) =>
           if rest != [] && rest[0] == RPar then Some((Any(ds), rest[1..])) else None)
      case Cond(a) => Some((Prim(a), ts[1..]))
      case _ => None
  }

  /** The whole token sequence read as one condition. */
  function Read(ts: seq<Tok>): Option<Expr> {
    match ReadOr(ts)
    case None => None
    case Some((ds, rest)) => if rest == [] then Some(Any(ds)) else None
  }

  // ----- Meaning -----

  /** The value a filter is asked to compare with, once placeholders are bound. */
  datatype Bound = Word(w: string) | Datum(v: Value)

  /** One comparison, ready for PostgreSQL's operator. What the operators themselves do is not
      modelled: `meaning` in Env is an arbitrary function. */
  datatype Comparison = Comparison(
    value: Value, jsonPath: string, toJsonb: bool, tsLang: Option<string>,
    op: string, fn: string, fnArgs: seq<string>, args: seq<Bound>)

  type Row = map<string, Value>

  datatype Env = Env(
    rows: map<string, Row>, depth: int, path: seq<Value>,
    values: seq<Value>, meaning: Comparison -> TV)

  function Cell(row: Row, name: string): Value {
    if name in row then row[name] else Null
  }

  function Lookup(col: Column, env: Env): Value {
    if col.alias in env.rows then Cell(env.rows[col.alias], col.name) else Null
  }

  function Resolve(arg: Arg, values: seq<Value>): Bound {
    match arg
    case Marker(n) => if 1 <= n <= |values| then Datum(values[n - 1]) else Datum(Null)
    case Keyword(w) => Word(w)
    case Literal(t) => Datum(Str(t))
  }

  function ResolveAll(args: seq<Arg>, values: seq<Value>): (r: seq<Bound>)
    ensures |r| == |args|
    ensures forall i :: 0 <= i < |args| ==> r[i] == Resolve(args[i], values)
  {
    seq(|args|, i requires 0 <= i < |args| => Resolve(args[i], values))
  }

  function EvalAtom(a: Atom, env: Env): TV {
    match a
    case Compare(lhs, op, fn, fnArgs, args) =>
      env.meaning(Comparison(Lookup(lhs.col, env), lhs.jsonPath, lhs.toJsonb, lhs.tsLang,
                             op, fn, fnArgs, ResolveAll(args, env.values)))
    case EqCol(l, r) => Eq3(Lookup(l, env), Lookup(r, env))
    case EqArg(l, arg) =>
      (match Resolve(arg, env.values)
       case Datum(v) => Eq3(Lookup(l, env), v)
       case Word(_) => Unknown)
    case DepthBelow(arg) =>
      (match Resolve(arg, env.values)
       case Datum(Num(n)) => Of(env.depth < n)
       case _ => Unknown)
    case DepthPositive => Of(env.depth > 0)
    case OnPath(col) => EqAny3(Lookup(col, env), env.path)
  }

  function Eval(e: Expr, env: Env): TV
    decreases e, 0
  {
    match e
    case Prim(a) => EvalAtom(a, env)
    case Neg(e') => Not3(Eval(e', env))
    case All(es) => EvalAll(es, env)
    case Any(es) => EvalAny(es, env)
  }

  function EvalAll(es: seq<Expr>, env: Env): TV
    decreases es, 1
  {
    if es == [] then True else And3(Eval(es[0], env), EvalAll(es[1..], env))
  }

  function EvalAny(es: seq<Expr>, env: Env): TV
    decreases es, 1
  {
    if es == [] then False else Or3(Eval(es[0], env), EvalAny(es[1..], env))
  }

  /** A WHERE or ON clause keeps a row combination only when it is true. An absent clause
      (no tokens) keeps everything; an unreadable one is a syntax error and keeps nothing. */
  predicate Keeps(ts: seq<Tok>, env: Env) {
    ts == [] || (Read(ts).Some? && Eval(Read(ts).value, env).True?)
  }

  lemma {:induction false} EvalAllConcat(a: seq<Expr>, b: seq<Expr>, env: Env)
    ensures EvalAll(a + b, env) == And3(EvalAll(a, env), EvalAll(b, env))
  {
    if a == [] {
      assert a + b == b;
    } else {
      assert (a + b)[1..] == a[1..] + b;
      EvalAllConcat(a[1..], b, env);
    }
  }

  lemma {:induction false} EvalAnyConcat(a: seq<Expr>, b: seq<Expr>, env: Env)
    ensures EvalAny(a + b, env) == Or3(EvalAny(a, env), EvalAny(b, env))
  {
    if a == [] {
      assert a + b == b;
    } else {
      assert (a + b)[1..] == a[1..] + b;
      EvalAnyConcat(a[1..], b, env);
    }
  }
}
