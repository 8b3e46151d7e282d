/** The emitted condition, read back by PostgreSQL's precedence rules (section 4.1.6 of the
    PostgreSQL manual), has the meaning of the tree it was emitted for, although AND groups are
    printed without parentheses. */
module Precedence {
  import opened Sql
  import opened Filters

  /** What a tree must satisfy to be printed as a readable condition: no comparison printed by an
      earlier pass, and no boolean node or any/all list without a member. */
  predicate Printable(n: Node)
  {
    if IsGroup(n) then
      && (exists i :: 0 <= i < |n.children| && OnTable(n.children[i]))
      && (forall c :: c in n.children && OnTable(c) ==> Printable(c))
    else
      !n.inserted && (n.opModifier != "" ==> n.values != [])
  }

  // ----- The expression tree that the reader is shown to find -----

  function ModifiedShape(n: Node, k: nat, table: string, info: Schema, m: int): (r: seq<Expr>)
    requires k <= |n.values|
    ensures |r| == k
  {
    if k == 0 then []
    else
      var list := ModifiedUpTo(n, k - 1, table, info, m).1;
      var a := AppendValue(n.values[k - 1], Advance(m, list), ForceParam(n)).0;
      ModifiedShape(n, k - 1, table, info, m) + [Prim(Compare(OperandOf(n, table, info), n.operator, "", [], [a]))]
  }

  function Wrap(n: Node, disjuncts: seq<Expr>): Expr {
    if n.not then Neg(Any(disjuncts)) else Any(disjuncts)
  }

  function AsDisjunctions(es: seq<Expr>): (r: seq<Expr>)
    ensures |r| == |es|
  {
    seq(|es|, i requires 0 <= i < |es| => All([es[i]]))
  }

  function LeafShape(n: Node, table: string, info: Schema, m: int): Expr
    requires HasOperands(n)
  {
    if n.opModifier != "" then
      var es := ModifiedShape(n, |n.values|, table, info, m);
      Wrap(n, if n.opModifier == "any" then AsDisjunctions(es) else [All(es)])
    else
      var e := Prim(ComparisonOf(n, table, info, m).0);
      if n.not then Neg(e) else e
  }

  /** The conjuncts contributed by a node. */
  function Shape(n: Node, table: string, info: Schema, m: int): seq<Expr>
    requires AllHaveOperands(n)
    decreases n, |n.children| + 1
  {
    if !IsGroup(n) then [LeafShape(n, table, info, m)]
    else
      var es := GroupShape(n, |n.children|, table, info, m);
      if n.operator == "OR" then [Wrap(n, es)]
      else if n.not then [Wrap(n, [All(es)])]
      else es
  }

  /** Disjuncts of an OR group, conjuncts of an AND group. */
  function GroupShape(n: Node, k: nat, table: string, info: Schema, m: int): seq<Expr>
    requires IsGroup(n) && AllHaveOperands(n) && k <= |n.children|
    decreases n, k
  {
    if k == 0 then []
    else
      var es := GroupShape(n, k - 1, table, info, m);
      var c := n.children[k - 1];
      if !OnTable(c) then es
      else
        var s := Shape(c, table, info, Advance(m, WhereUpTo(n, k - 1, table, info, m).1));
        if n.operator == "OR" then es + [All(s)] else es + s
  }

  // ----- Reading: a phrase followed by a rest -----

  ghost function AndThen(es: seq<Expr>, rest: seq<Tok>): Option<(seq<Expr>, seq<Tok>)> {
    if rest != [] && rest[0] == AndT then
      match ReadAnd(rest[1..])
      case None => None
      case Some((es', rest')) => Some((es + es', rest'))
    else Some((es, rest))
  }

  ghost function OrThen(ds: seq<Expr>, rest: seq<Tok>): Option<(seq<Expr>, seq<Tok>)> {
    if rest != [] && rest[0] == OrT then
      match ReadOr(rest[1..])
      case None => None
      case Some((ds', rest')) => Some((ds + ds', rest'))
    else Some((ds, rest))
  }

  ghost predicate NoAnd(rest: seq<Tok>) { rest == [] || rest[0] != AndT }

  lemma AndThenConcat(es: seq<Expr>, es': seq<Expr>, w: seq<Tok>, rest: seq<Tok>)
    requires ReadAnd(w + rest) == AndThen(es', rest)
    ensures AndThen(es, [AndT] + w + rest) == AndThen(es + es', rest)
  {
    assert ([AndT] + w + rest)[1..] == w + rest;
    match AndThen(es', rest) {
      case None =>
      case Some((x, r)) =>
        if rest != [] && rest[0] == AndT {
          var y := ReadAnd(rest[1..]).value.0;
          assert es + (es' + y) == (es + es') + y;
        }
    }
  }

  lemma OrThenConcat(ds: seq<Expr>, ds': seq<Expr>, w: seq<Tok>, rest: seq<Tok>)
    requires ReadOr(w + rest) == OrThen(ds', rest)
    ensures OrThen(ds, [OrT] + w + rest) == OrThen(ds + ds', rest)
  {
    assert ([OrT] + w + rest)[1..] == w + rest;
    match OrThen(ds', rest) {
      case None =>
      case Some((x, r)) =>
        if rest != [] && rest[0] == OrT {
          var y := ReadOr(rest[1..]).value.0;
          assert ds + (ds' + y) == (ds + ds') + y;
        }
    }
  }

  /** A conjunction seen as a one-member disjunction. */
  lemma AndAsOr(es: seq<Expr>, w: seq<Tok>, rest: seq<Tok>)
    requires ReadAnd(w + rest) == AndThen(es, rest) && NoAnd(rest)
    ensures ReadOr(w + rest) == OrThen([All(es)], rest)
  {
  }

  lemma Bracketed(ds: seq<Expr>, w: seq<Tok>, rest: seq<Tok>)
    requires ReadOr(w + ([RPar] + rest)) == OrThen(ds, [RPar] + rest)
    ensures ReadNot([LPar] + w + [RPar] + rest) == Some((Any(ds), rest))
  {
    assert ([LPar] + w + [RPar] + rest)[1..] == w + ([RPar] + rest);
    assert ([RPar] + rest)[1..] == rest;
  }

  lemma Prefixed(not: bool, e: Expr, w: seq<Tok>, rest: seq<Tok>)
    requires ReadNot(w + rest) == Some((e, rest))
    ensures ReadAnd((if not then [NotT] else []) + w + rest) == AndThen([if not then Neg(e) else e], rest)
  {
    var ts := (if not then [NotT] else []) + w + rest;
    if not {
      assert ts[1..] == w + rest;
    } else {
      assert ts == w + rest;
    }
  }

  // ----- any / all lists -----

  lemma {:induction false} ReadModifiedAny(n: Node, k: nat, table: string, info: Schema, m: int, rest: seq<Tok>)
    requires 0 < k <= |n.values| && n.opModifier == "any" && NoAnd(rest)
    ensures ReadOr(ModifiedUpTo(n, k, table, info, m).0 + rest)
         == OrThen(AsDisjunctions(ModifiedShape(n, k, table, info, m)), rest)
  {
    hide OrThen, AppendValue;
    var (ts, list) := ModifiedUpTo(n, k - 1, table, info, m);
    var a := AppendValue(n.values[k - 1], Advance(m, list), ForceParam(n)).0;
    var w := [Cond(Compare(OperandOf(n, table, info), n.operator, "", [], [a]))];
    assert (w + rest)[1..] == rest;
    assert ReadNot(w + rest) == Some((Prim(w[0].atom), rest));
    AndAsOr([Prim(w[0].atom)], w, rest);
    if k == 1 {
      assert ts + w == w;
      assert AsDisjunctions(ModifiedShape(n, k, table, info, m)) == [All([Prim(w[0].atom)])];
    } else {
      ReadModifiedAny(n, k - 1, table, info, m, [OrT] + w + rest);
      assert ts + [OrT] + w + rest == ts + ([OrT] + w + rest);
      OrThenConcat(AsDisjunctions(ModifiedShape(n, k - 1, table, info, m)), [All([Prim(w[0].atom)])], w, rest);
      assert AsDisjunctions(ModifiedShape(n, k, table, info, m))
          == AsDisjunctions(ModifiedShape(n, k - 1, table, info, m)) + [All([Prim(w[0].atom)])];
    }
  }

  lemma {:induction false} ReadModifiedAll(n: Node, k: nat, table: string, info: Schema, m: int, rest: seq<Tok>)
    requires 0 < k <= |n.values| && n.opModifier != "any"
    ensures ReadAnd(ModifiedUpTo(n, k, table, info, m).0 + rest) == AndThen(ModifiedShape(n, k, table, info, m), rest)
  {
    var (ts, list) := ModifiedUpTo(n, k - 1, table, info, m);
    var a := AppendValue(n.values[k - 1], Advance(m, list), ForceParam(n)).0;
    var w := [Cond(Compare(OperandOf(n, table, info), n.operator, "", [], [a]))];
    assert (w + rest)[1..] == rest;
    assert ReadAnd(w + rest) == AndThen([Prim(w[0].atom)], rest);
    if k == 1 {
      assert ts + w == w;
      assert ModifiedShape(n, k, table, info, m) == [Prim(w[0].atom)];
    } else {
      ReadModifiedAll(n, k - 1, table, info, m, [AndT] + w + rest);
      assert ts + [AndT] + w + rest == ts + ([AndT] + w + rest);
      AndThenConcat(ModifiedShape(n, k - 1, table, info, m), [Prim(w[0].atom)], w, rest);
    }
  }

  lemma ReadModified(n: Node, table: string, info: Schema, m: int, rest: seq<Tok>)
    requires n.opModifier != "" && n.values != []
    ensures var es := ModifiedShape(n, |n.values|, table, info, m);
      ReadNot([LPar] + ModifiedUpTo(n, |n.values|, table, info, m).0 + [RPar] + rest)
        == Some((Any(if n.opModifier == "any" then AsDisjunctions(es) else [All(es)]), rest))
  {
    var ts := ModifiedUpTo(n, |n.values|, table, info, m).0;
    var es := ModifiedShape(n, |n.values|, table, info, m);
    if n.opModifier == "any" {
      ReadModifiedAny(n, |n.values|, table, info, m, [RPar] + rest);
      Bracketed(AsDisjunctions(es), ts, rest);
    } else {
      ReadModifiedAll(n, |n.values|, table, info, m, [RPar] + rest);
      AndAsOr(es, ts, [RPar] + rest);
      Bracketed([All(es)], ts, rest);
    }
  }

  lemma ReadLeaf(n: Node, table: string, info: Schema, m: int, rest: seq<Tok>)
    requires HasOperands(n) && (n.opModifier != "" ==> n.values != [])
    ensures ReadAnd(LeafWhere(n, table, info, m).0 + rest) == AndThen([LeafShape(n, table, info, m)], rest)
  {
    hide ModifiedUpTo, ModifiedShape, ComparisonOf, AsDisjunctions, ReadOr;
    var pre := if n.not then [NotT] else [];
    if n.opModifier != "" {
      var ts := ModifiedUpTo(n, |n.values|, table, info, m).0;
      var es := ModifiedShape(n, |n.values|, table, info, m);
      var ds := if n.opModifier == "any" then AsDisjunctions(es) else [All(es)];
      ReadModified(n, table, info, m, rest);
      Prefixed(n.not, Any(ds), [LPar] + ts + [RPar], rest);
      assert pre + [LPar] + ts + [RPar] + rest == pre + ([LPar] + ts + [RPar]) + rest;
    } else {
      var a := ComparisonOf(n, table, info, m).0;
      assert ([Cond(a)] + rest)[1..] == rest;
      Prefixed(n.not, Prim(a), [Cond(a)], rest);
    }
  }

  // ----- Trees -----

  lemma {:induction false} ReadNode(n: Node, table: string, info: Schema, m: int, rest: seq<Tok>)
    requires AllHaveOperands(n) && Printable(n)
    ensures Where(n, table, info, m).0 != []
    ensures ReadAnd(Where(n, table, info, m).0 + rest) == AndThen(Shape(n, table, info, m), rest)
    decreases n, |n.children| + 1
  {
    hide ReadAnd, AndThen, GroupShape, WhereUpTo;
    if !IsGroup(n) {
      ReadLeaf(n, table, info, m, rest);
    } else {
      var k := |n.children|;
      var w := WhereUpTo(n, k, table, info, m).0;
      var es := GroupShape(n, k, table, info, m);
      var pre := if n.not then [NotT] else [];
      if n.operator == "OR" {
        ReadOrGroup(n, k, table, info, m, [RPar] + rest);
        Bracketed(es, w, rest);
        Prefixed(n.not, Any(es), [LPar] + w + [RPar], rest);
        assert pre + [LPar] + w + [RPar] + rest == pre + ([LPar] + w + [RPar]) + rest;
      } else if n.not {
        ReadAndGroup(n, k, table, info, m, [RPar] + rest);
        AndAsOr(es, w, [RPar] + rest);
        Bracketed([All(es)], w, rest);
        Prefixed(n.not, Any([All(es)]), [LPar] + w + [RPar], rest);
        assert pre + [LPar] + w + [RPar] + rest == pre + ([LPar] + w + [RPar]) + rest;
      } else {
        ReadAndGroup(n, k, table, info, m, rest);
        assert Where(n, table, info, m).0 == w;
      }
    }
  }

  /** The first k children are read in full, or none of them is on the table. */
  ghost predicate NoneSoFar(n: Node, k: nat)
    requires k <= |n.children|
  {
    forall i :: 0 <= i < k ==> !OnTable(n.children[i])
  }

  lemma AndStep(ts: seq<Tok>, es: seq<Expr>, w: seq<Tok>, s: seq<Expr>, rest: seq<Tok>)
    requires ts == [] ==> es == []
    requires ts != [] ==> ReadAnd(ts + ([AndT] + w + rest)) == AndThen(es, [AndT] + w + rest)
    requires ReadAnd(w + rest) == AndThen(s, rest)
    ensures ReadAnd((if ts == [] then ts else ts + [AndT]) + w + rest) == AndThen(es + s, rest)
  {
    if ts == [] {
      assert ts + w + rest == w + rest && es + s == s;
    } else {
      assert ts + [AndT] + w + rest == ts + ([AndT] + w + rest);
      AndThenConcat(es, s, w, rest);
    }
  }

  lemma OrStep(ts: seq<Tok>, es: seq<Expr>, w: seq<Tok>, s: seq<Expr>, rest: seq<Tok>)
    requires ts == [] ==> es == []
    requires ts != [] ==> ReadOr(ts + ([OrT] + w + rest)) == OrThen(es, [OrT] + w + rest)
    requires ReadAnd(w + rest) == AndThen(s, rest) && NoAnd(rest)
    ensures ReadOr((if ts == [] then ts else ts + [OrT]) + w + rest) == OrThen(es + [All(s)], rest)
  {
    AndAsOr(s, w, rest);
    if ts == [] {
      assert ts + w + rest == w + rest && es + [All(s)] == [All(s)];
    } else {
      assert ts + [OrT] + w + rest == ts + ([OrT] + w + rest);
      OrThenConcat(es, [All(s)], w, rest);
    }
  }

  lemma {:induction false} ReadAndGroup(n: Node, k: nat, table: string, info: Schema, m: int, rest: seq<Tok>)
    requires IsGroup(n) && n.operator != "OR" && AllHaveOperands(n) && Printable(n) && k <= |n.children|
    ensures var w := WhereUpTo(n, k, table, info, m).0; var es := GroupShape(n, k, table, info, m);
      if w == [] then es == [] && NoneSoFar(n, k) else ReadAnd(w + rest) == AndThen(es, rest)
    decreases n, k
  {
    hide Where, Shape, ReadAnd, AndThen;
    if k > 0 {
      var c := n.children[k - 1];
      if !OnTable(c) {
        ReadAndGroup(n, k - 1, table, info, m, rest);
      } else {
        var (ts, list) := WhereUpTo(n, k - 1, table, info, m);
        var m' := Advance(m, list);
        var w := Where(c, table, info, m').0;
        ReadNode(c, table, info, m', rest);
        ReadAndGroup(n, k - 1, table, info, m, [AndT] + w + rest);
        AndStep(ts, GroupShape(n, k - 1, table, info, m), w, Shape(c, table, info, m'), rest);
      }
    }
  }

  lemma {:induction false} ReadOrGroup(n: Node, k: nat, table: string, info: Schema, m: int, rest: seq<Tok>)
    requires IsGroup(n) && n.operator == "OR" && AllHaveOperands(n) && Printable(n) && k <= |n.children|
    requires NoAnd(rest)
    ensures var w := WhereUpTo(n, k, table, info, m).0; var es := GroupShape(n, k, table, info, m);
      if w == [] then es == [] && NoneSoFar(n, k) else ReadOr(w + rest) == OrThen(es, rest)
    decreases n, k
  {
    hide Where, Shape, ReadOr, OrThen;
    if k > 0 {
      var c := n.children[k - 1];
      if !OnTable(c) {
        ReadOrGroup(n, k - 1, table, info, m, rest);
      } else {
        var (ts, list) := WhereUpTo(n, k - 1, table, info, m);
        var m' := Advance(m, list);
        var w := Where(c, table, info, m').0;
        ReadNode(c, table, info, m', rest);
        ReadOrGroup(n, k - 1, table, info, m, [OrT] + w + rest);
        OrStep(ts, GroupShape(n, k - 1, table, info, m), w, Shape(c, table, info, m'), rest);
      }
    }
  }

  // ----- Meaning -----

  /** Position m of the final value list is where this condition's own values were put. */
  ghost predicate Bind(values: seq<Value>, m: int, list: seq<Value>) {
    m < 0 || (m + |list| <= |values| && values[m..m + |list|] == list)
  }

  lemma BindSplit(values: seq<Value>, m: int, a: seq<Value>, b: seq<Value>)
    requires Bind(values, m, a + b)
    ensures Bind(values, m, a) && Bind(values, Advance(m, a), b)
  {
    if m >= 0 {
      assert a == (a + b)[..|a|] == values[m..m + |a + b|][..|a|];
      assert b == (a + b)[|a|..] == values[m..m + |a + b|][|a|..];
    }
  }

  lemma ArgMeaning(v: string, m: int, forceParam: bool, values: seq<Value>)
    requires m >= -1 && Bind(values, m, AppendValue(v, m, forceParam).1)
    ensures Resolve(AppendValue(v, m, forceParam).0, values) == ValueMeaning(v, forceParam)
  {
    if WordOf(v, forceParam).None? && m >= 0 {
      assert values[m..m + 1][0] == values[m];
    }
  }

  lemma {:induction false} ArgsMeaning(n: Node, k: nat, m: int, forceParam: bool, values: seq<Value>)
    requires k <= |n.values| && m >= -1 && Bind(values, m, ArgsUpTo(n, k, m, forceParam).1)
    ensures ResolveAll(ArgsUpTo(n, k, m, forceParam).0, values) == ValuesMeaning(n.values[..k], forceParam)
  {
    if k > 0 {
      var (args, list) := ArgsUpTo(n, k - 1, m, forceParam);
      var (a, l) := AppendValue(n.values[k - 1], Advance(m, list), forceParam);
      BindSplit(values, m, list, l);
      ArgsMeaning(n, k - 1, m, forceParam, values);
      ArgMeaning(n.values[k - 1], Advance(m, list), forceParam, values);
      assert ResolveAll(args + [a], values) == ResolveAll(args, values) + [Resolve(a, values)];
      assert ValuesMeaning(n.values[..k], forceParam)
          == ValuesMeaning(n.values[..k - 1], forceParam) + [ValueMeaning(n.values[k - 1], forceParam)];
    }
  }

  /** The environment in which a context's row carries the table's name. */
  ghost predicate Fits(env: Env, c: Context) {
    c.table in env.rows && env.rows[c.table] == c.row && env.meaning == c.meaning
  }

  lemma {:induction false} QuantifiedSnoc(n: Node, vs: seq<string>, v: string, c: Context)
    ensures QuantifiedMeaning(n, vs + [v], c)
         == if n.opModifier == "any"
            then Or3(QuantifiedMeaning(n, vs, c), Compared(n, n.operator, "", [], [ValueMeaning(v, ForceParam(n))], c))
            else And3(QuantifiedMeaning(n, vs, c), Compared(n, n.operator, "", [], [ValueMeaning(v, ForceParam(n))], c))
  {
    if vs == [] {
      assert vs + [v] == [v];
      assert [v][1..] == [];
    } else {
      assert (vs + [v])[1..] == vs[1..] + [v];
      QuantifiedSnoc(n, vs[1..], v, c);
    }
  }

  /** One value of an any/all list. */
  lemma ValueCompared(n: Node, v: string, m: int, env: Env, c: Context)
    requires m >= -1 && Fits(env, c) && Bind(env.values, m, AppendValue(v, m, ForceParam(n)).1)
    ensures Eval(Prim(Compare(OperandOf(n, c.table, c.info), n.operator, "", [], [AppendValue(v, m, ForceParam(n)).0])), env)
         == Compared(n, n.operator, "", [], [ValueMeaning(v, ForceParam(n))], c)
  {
    var a := AppendValue(v, m, ForceParam(n)).0;
    ArgMeaning(v, m, ForceParam(n), env.values);
    assert ResolveAll([a], env.values) == [ValueMeaning(v, ForceParam(n))];
  }

  lemma DisjunctionsSnoc(es: seq<Expr>, p: Expr)
    ensures AsDisjunctions(es + [p]) == AsDisjunctions(es) + [All([p])]
  {
  }

  lemma {:induction false} ModifiedMeaning(n: Node, k: nat, m: int, env: Env, c: Context)
    requires k <= |n.values| && m >= -1 && Fits(env, c)
    requires Bind(env.values, m, ModifiedUpTo(n, k, c.table, c.info, m).1)
    ensures var es := ModifiedShape(n, k, c.table, c.info, m);
      (if n.opModifier == "any" then EvalAny(AsDisjunctions(es), env) else EvalAll(es, env))
        == QuantifiedMeaning(n, n.values[..k], c)
  {
    hide AppendValue, OperandOf, Compared, Eval, EvalAny, EvalAll, QuantifiedMeaning, AsDisjunctions;
    if k == 0 {
      NothingQuantified(n, c, env);
    } else {
      var (ts, list) := ModifiedUpTo(n, k - 1, c.table, c.info, m);
      var (a, l) := AppendValue(n.values[k - 1], Advance(m, list), ForceParam(n));
      BindSplit(env.values, m, list, l);
      ModifiedMeaning(n, k - 1, m, env, c);
      ValueCompared(n, n.values[k - 1], Advance(m, list), env, c);
      var es := ModifiedShape(n, k - 1, c.table, c.info, m);
      var p := Prim(Compare(OperandOf(n, c.table, c.info), n.operator, "", [], [a]));
      assert n.values[..k] == n.values[..k - 1] + [n.values[k - 1]];
      QuantifiedSnoc(n, n.values[..k - 1], n.values[k - 1], c);
      EvalSingle(p, env);
      if n.opModifier == "any" {
        DisjunctionsSnoc(es, p);
        EvalAnyConcat(AsDisjunctions(es), [All([p])], env);
      } else {
        EvalAllConcat(es, [p], env);
      }
    }
  }

  lemma NothingQuantified(n: Node, c: Context, env: Env)
    ensures QuantifiedMeaning(n, n.values[..0], c) == if n.opModifier == "any" then False else True
    ensures EvalAny(AsDisjunctions([]), env) == False && EvalAll([], env) == True
  {
  }

  lemma EvalSingle(e: Expr, env: Env)
    ensures EvalAll([e], env) == Eval(e, env)
    ensures EvalAny([e], env) == Eval(e, env)
    ensures EvalAny([All([e])], env) == Eval(e, env)
  {
    assert [e][1..] == [];
    assert [All([e])][1..] == [];
  }

  lemma ModifiedLeafMeaning(n: Node, m: int, env: Env, c: Context)
    requires !IsGroup(n) && HasOperands(n) && n.opModifier != "" && m >= -1 && Fits(env, c)
    requires Bind(env.values, m, LeafWhere(n, c.table, c.info, m).1)
    ensures Eval(LeafShape(n, c.table, c.info, m), env) == Meaning(n, c)
  {
    hide ModifiedUpTo, AppendValue;
    ModifiedMeaning(n, |n.values|, m, env, c);
    assert n.values[..|n.values|] == n.values;
    EvalSingle(All(ModifiedShape(n, |n.values|, c.table, c.info, m)), env);
  }

  lemma LeafMeaning(n: Node, m: int, env: Env, c: Context)
    requires !IsGroup(n) && HasOperands(n) && m >= -1 && Fits(env, c)
    requires Bind(env.values, m, LeafWhere(n, c.table, c.info, m).1)
    ensures Eval(LeafShape(n, c.table, c.info, m), env) == Meaning(n, c)
  {
    hide ModifiedUpTo, AppendValue, ModifiedShape;
    if n.opModifier != "" {
      ModifiedLeafMeaning(n, m, env, c);
    } else if n.operator == "IN" && n.values == [] {
      assert ResolveAll([], env.values) == [];
    } else if n.operator == "IN" {
      ArgsMeaning(n, |n.values|, m, ForceParam(n), env.values);
      assert n.values[..|n.values|] == n.values;
    } else {
      var force := n.operator != "@@" && ForceParam(n);
      ArgMeaning(n.values[0], m, force, env.values);
      assert ResolveAll([AppendValue(n.values[0], m, force).0], env.values) == [ValueMeaning(n.values[0], force)];
    }
  }

  lemma {:induction false} ShapeMeaning(n: Node, m: int, env: Env, c: Context)
    requires AllHaveOperands(n) && Printable(n) && m >= -1 && Fits(env, c)
    requires Bind(env.values, m, Where(n, c.table, c.info, m).1)
    ensures EvalAll(Shape(n, c.table, c.info, m), env) == Meaning(n, c)
    decreases n, |n.children| + 1
  {
    if !IsGroup(n) {
      LeafMeaning(n, m, env, c);
      EvalSingle(LeafShape(n, c.table, c.info, m), env);
    } else {
      GroupShapeMeaning(n, |n.children|, m, env, c);
      var es := GroupShape(n, |n.children|, c.table, c.info, m);
      EvalSingle(All(es), env);
      EvalSingle(Wrap(n, es), env);
      EvalSingle(Wrap(n, [All(es)]), env);
    }
  }

  lemma {:induction false} GroupShapeMeaning(n: Node, k: nat, m: int, env: Env, c: Context)
    requires IsGroup(n) && AllHaveOperands(n) && Printable(n) && k <= |n.children| && m >= -1 && Fits(env, c)
    requires Bind(env.values, m, WhereUpTo(n, k, c.table, c.info, m).1)
    ensures var es := GroupShape(n, k, c.table, c.info, m);
      (if n.operator == "OR" then EvalAny(es, env) else EvalAll(es, env)) == GroupMeaning(n, k, c)
    decreases n, k
  {
    hide Where, Shape, Bind, Meaning;
    if k > 0 {
      var child := n.children[k - 1];
      if !OnTable(child) {
        GroupShapeMeaning(n, k - 1, m, env, c);
      } else {
        var (ts, list) := WhereUpTo(n, k - 1, c.table, c.info, m);
        var m' := Advance(m, list);
        var (ts', list') := Where(child, c.table, c.info, m');
        BindSplit(env.values, m, list, list');
        GroupShapeMeaning(n, k - 1, m, env, c);
        ShapeMeaning(child, m', env, c);
        var es := GroupShape(n, k - 1, c.table, c.info, m);
        var s := Shape(child, c.table, c.info, m');
        if n.operator == "OR" {
          EvalAnyConcat(es, [All(s)], env);
          EvalSingle(All(s), env);
        } else {
          EvalAllConcat(es, s, env);
        }
      }
    }
  }

  /** Main result: the emitted text is readable, and in any environment in which the values sit
      where the markers point, it evaluates to the meaning of the tree. */
  lemma PrintedConditionMeansTree(n: Node, m: int, env: Env, c: Context)
    requires AllHaveOperands(n) && Printable(n) && m >= -1 && Fits(env, c)
    requires Bind(env.values, m, Where(n, c.table, c.info, m).1)
    ensures var r := Read(Where(n, c.table, c.info, m).0);
      r.Some? && Eval(r.value, env) == Meaning(n, c)
  {
    var w := Where(n, c.table, c.info, m).0;
    ReadNode(n, c.table, c.info, m, []);
    assert w + [] == w;
    ShapeMeaning(n, m, env, c);
    EvalSingle(All(Shape(n, c.table, c.info, m)), env);
  }

  // ----- Conditions glued together with AND -----

  /** A token sequence that reads as these conjuncts whatever follows it. */
  ghost predicate Conjunction(w: seq<Tok>, es: seq<Expr>) {
    w != [] && forall rest :: ReadAnd(w + rest) == AndThen(es, rest)
  }

  lemma NodeIsConjunction(n: Node, table: string, info: Schema, m: int)
    requires AllHaveOperands(n) && Printable(n)
    ensures Conjunction(Where(n, table, info, m).0, Shape(n, table, info, m))
  {
    forall rest ensures ReadAnd(Where(n, table, info, m).0 + rest) == AndThen(Shape(n, table, info, m), rest) {
      ReadNode(n, table, info, m, rest);
    }
    ReadNode(n, table, info, m, []);
  }

  lemma AtomIsConjunction(not: bool, a: Atom)
    ensures Conjunction((if not then [NotT] else []) + [Cond(a)], [if not then Neg(Prim(a)) else Prim(a)])
  {
    var w := (if not then [NotT] else []) + [Cond(a)];
    forall rest ensures ReadAnd(w + rest) == AndThen([if not then Neg(Prim(a)) else Prim(a)], rest) {
      assert ([Cond(a)] + rest)[1..] == rest;
      Prefixed(not, Prim(a), [Cond(a)], rest);
    }
  }

  lemma JoinConjunctions(w: seq<Tok>, es: seq<Expr>, w': seq<Tok>, es': seq<Expr>)
    requires Conjunction(w, es) && Conjunction(w', es')
    ensures Conjunction(w + [AndT] + w', es + es')
  {
    forall rest ensures ReadAnd(w + [AndT] + w' + rest) == AndThen(es + es', rest) {
      assert w + [AndT] + w' + rest == w + ([AndT] + w' + rest);
      assert ReadAnd(w' + rest) == AndThen(es', rest);
      AndThenConcat(es, es', w', rest);
    }
  }

  lemma ConjunctionKeeps(w: seq<Tok>, es: seq<Expr>, env: Env)
    requires Conjunction(w, es)
    ensures Keeps(w, env) <==> EvalAll(es, env).True?
  {
    assert w + [] == w;
    assert ReadAnd(w + []) == AndThen(es, []);
    EvalSingle(All(es), env);
  }
}
