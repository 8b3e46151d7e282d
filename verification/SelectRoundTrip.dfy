/** Printing a select list and then scanning and parsing the text gives the list back. */
module SelectRoundTrip {
  import opened Sql
  import opened Filters
  import opened Scanner
  import opened FilterGrammar
  import opened SelectGrammar
  import opened Sequences
  import R = FilterRoundTrip

  // ----- Lists that have a text -----

  /** The parser does not look at quotes here, so these are marks even as names. */
  predicate IsWord(s: string) { s != "" && s != "..." && s != "," && s != ")" }

  predicate IsCast(c: string) { c == "" || IsCastType(c) }

  /** A column, perhaps under a label, cast, and aggregated under a label. */
  predicate IsColumn(f: SelectField, scope: string, aggregates: bool)
    requires f.Selected?
  {
    && f.field == NO_FIELD.(name := f.field.name, tablename := scope)
    && IsWord(f.field.name) && (f.alias == "" || IsWord(f.alias)) && IsCast(f.cast) && IsCast(f.aggCast)
    && (f.aggregate == "" ==> f.aggCast == "")
    && (f.aggregate != "" ==> aggregates && IsAggregate(f.aggregate) && ToUpper(f.aggregate) == f.aggregate && f.alias != "")
  }

  /** A relation with what is selected of it. */
  predicate IsRelation(f: SelectField, scope: string)
    requires f.Embedded?
  {
    var r := f.relation;
    && r.parent == scope && IsWord(r.name) && (f.alias == "" || IsWord(f.alias))
    && (r.inner ==> r.fk == "") && r.fk != "inner" && r.fk != "left"
    && (r.fields == [] ==> !IsAggregate(r.name))
  }

  predicate IsItem(f: SelectField, scope: string, aggregates: bool)
    decreases f
  {
    if f.Selected? then IsColumn(f, scope, aggregates)
    else IsRelation(f, scope) && forall g :: g in f.relation.fields ==> IsItem(g, f.relation.name, aggregates)
  }

  // ----- The tokens of a list -----

  function Mark(s: string): Token { Token(s, false) }

  function Name(s: string): Token { Token(s, true) }

  function LabelTokens(a: string): seq<Token> { if a == "" then [] else [Name(a), Mark(":")] }

  function CastTokens(c: string): seq<Token> { if c == "" then [] else [Mark("::"), Name(c)] }

  function AggregateTokens(a: string): seq<Token> { if a == "" then [] else [Mark("."), Name(a), Mark("()")] }

  function HintTokens(r: SelectRelation): seq<Token> {
    if r.inner then [Mark("!"), Name("inner")] else if r.fk != "" then [Mark("!"), Name(r.fk)] else []
  }

  function StartTokens(spread: bool, alias: string, name: string): seq<Token> {
    (if spread then [Mark("...")] else []) + LabelTokens(alias) + [Name(name)]
  }

  function ItemTokens(f: SelectField): seq<Token>
    decreases f
  {
    match f
    case Selected(field, alias, cast, aggregate, aggCast) =>
      StartTokens(false, alias, field.name) + (CastTokens(cast) + (AggregateTokens(aggregate) + CastTokens(aggCast)))
    case Embedded(alias, r) => StartTokens(r.spread, alias, r.name) + (HintTokens(r) + InsideTokens(r.fields))
  }

  function InsideTokens(fs: seq<SelectField>): seq<Token>
    decreases fs
  {
    if fs == [] then [Mark("()")] else [Mark("(")] + (ListTokens(fs) + [Mark(")")])
  }

  function ListTokens(fs: seq<SelectField>): seq<Token>
    decreases fs, 0
  {
    if fs == [] then [] else if |fs| == 1 then ItemTokens(fs[0]) else ItemTokens(fs[0]) + ([Mark(",")] + ListTokens(fs[1..]))
  }

  // ----- Parsing the tokens -----

  lemma StartIsRead(ts: seq<Token>, i: nat, spread: bool, alias: string, name: string)
    requires R.At(ts, i, StartTokens(spread, alias, name)) && IsWord(name) && (alias == "" || IsWord(alias))
    requires Peek(ts, i + |StartTokens(spread, alias, name)|) != ":"
    ensures i < |ts| && Peek(ts, i) != "" && (Peek(ts, i) == "..." <==> spread)
    ensures var j := NamePlace(ts, i);
      j == i + |StartTokens(spread, alias, name)| - 1 && j < |ts| && Peek(ts, j) == name && After(ts, j) == j + 1
    ensures LabelAt(ts, i) == if alias == "" then None else Some(alias)
  {
    var toks := StartTokens(spread, alias, name);
    R.AtPeek(ts, i, toks, 0);
    R.AtPeek(ts, i, toks, |toks| - 1);
    if |toks| > 1 { R.AtPeek(ts, i, toks, 1); }
    if |toks| > 2 { R.AtPeek(ts, i, toks, 2); }
  }

  /** No json path follows. */
  predicate IsQuiet(t: string) { t != "->" && t != "->>" }

  lemma NameIsField(ts: seq<Token>, i: nat, name: string)
    requires i < |ts| && ts[i] == Name(name) && name != "" && IsQuiet(Peek(ts, i + 1))
    ensures FieldAt(ts, i, false, true) == Ok(NO_FIELD.(name := name), i + 1)
  {
  }

  lemma FieldCastIsRead(ts: seq<Token>, i: nat, name: string, cast: string)
    requires R.At(ts, i, [Name(name)] + CastTokens(cast)) && name != ""
    requires var next := Peek(ts, i + 1 + |CastTokens(cast)|); IsQuiet(next) && next != "::"
    ensures i < |ts| && FieldCastAt(ts, i) == Ok((NO_FIELD.(name := name), cast), i + 1 + |CastTokens(cast)|)
  {
    hide FieldAt;
    var toks := [Name(name)] + CastTokens(cast);
    R.AtPeek(ts, i, toks, 0);
    if cast != "" {
      R.AtPeek(ts, i, toks, 1);
      R.AtPeek(ts, i, toks, 2);
    }
    NameIsField(ts, i, name);
  }

  lemma AggregateIsSeen(ts: seq<Token>, k: nat, aggregate: string)
    requires R.At(ts, k, AggregateTokens(aggregate)) && (aggregate != "" ==> IsAggregate(aggregate))
    requires aggregate == "" ==> Peek(ts, k) != "."
    ensures HasAggregate(ts, k) <==> aggregate != ""
    ensures aggregate != "" ==> Peek(ts, k) == "." && k + 3 <= |ts| && ts[k + 1].text == aggregate
  {
    hide IsAggregate;
    if aggregate != "" {
      R.AtPeek(ts, k, AggregateTokens(aggregate), 0);
      R.AtPeek(ts, k, AggregateTokens(aggregate), 1);
      R.AtPeek(ts, k, AggregateTokens(aggregate), 2);
    }
  }

  /** The token behind the name does not make it an aggregate by itself. */
  lemma NotBare(ts: seq<Token>, i: nat, name: string, cast: string, aggregate: string)
    requires R.At(ts, i, [Name(name)] + (CastTokens(cast) + AggregateTokens(aggregate)))
    requires CastTokens(cast) + AggregateTokens(aggregate) == [] && Peek(ts, i + 1) == "()" ==> !IsAggregate(name)
    ensures i < |ts| && !(IsAggregate(name) && Peek(ts, i + 1) == "()")
  {
    hide IsAggregate;
    var toks := [Name(name)] + (CastTokens(cast) + AggregateTokens(aggregate));
    R.AtPeek(ts, i, toks, 0);
    if |toks| > 1 {
      R.AtPeek(ts, i, toks, 1);
    }
  }

  lemma FieldHeadIsRead(ts: seq<Token>, i: nat, name: string, alias: string, cast: string, aggregate: string, aggregates: bool)
    requires R.At(ts, i, [Name(name)] + (CastTokens(cast) + AggregateTokens(aggregate))) && name != ""
    requires aggregate != "" ==> aggregates && IsAggregate(aggregate) && ToUpper(aggregate) == aggregate && alias != ""
    requires var next := Peek(ts, i + 1 + |CastTokens(cast)| + |AggregateTokens(aggregate)|);
      aggregate == "" ==> IsQuiet(next) && next != "::" && next != "."
    ensures i < |ts|
    ensures FieldHead(ts, i, if alias == "" then None else Some(alias), aggregates)
      == Ok(Head(NO_FIELD.(name := name), alias, cast, aggregate), i + 1 + |CastTokens(cast)| + |AggregateTokens(aggregate)|)
  {
    hide FieldCastAt, IsAggregate, ToUpper, ToLower, HasAggregate, R.At, CastTokens;
    var k := i + 1 + |CastTokens(cast)|;
    Regroup([Name(name)], CastTokens(cast), AggregateTokens(aggregate));
    R.AtSplit(ts, i, [Name(name)] + CastTokens(cast), AggregateTokens(aggregate));
    AggregateIsSeen(ts, k, aggregate);
    FieldCastIsRead(ts, i, name, cast);
  }

  /** The head of an item: the token of the name at i has been taken and is put back. */
  lemma HeadIsRead(ts: seq<Token>, i: nat, name: string, alias: string, cast: string, aggregate: string, aggregates: bool)
    requires R.At(ts, i, [Name(name)] + (CastTokens(cast) + AggregateTokens(aggregate))) && name != ""
    requires aggregate != "" ==> aggregates && IsAggregate(aggregate) && ToUpper(aggregate) == aggregate && alias != ""
    requires var n := |CastTokens(cast)| + |AggregateTokens(aggregate)|; var next := Peek(ts, i + 1 + n);
      (aggregate == "" ==> IsQuiet(next) && next != "::" && next != ".") && (n == 0 && next == "()" ==> !IsAggregate(name))
    ensures i < |ts|
    ensures HeadAt(ts, i + 1, name, if alias == "" then None else Some(alias), aggregates)
      == Ok(Head(NO_FIELD.(name := name), alias, cast, aggregate), i + 1 + |CastTokens(cast)| + |AggregateTokens(aggregate)|)
  {
    hide FieldHead, IsAggregate, ToUpper, ToLower, R.At, CastTokens, AggregateTokens;
    NotBare(ts, i, name, cast, aggregate);
    FieldHeadIsRead(ts, i, name, alias, cast, aggregate, aggregates);
  }

  lemma AggCastIsRead(ts: seq<Token>, i: nat, h: Head, aggCast: string)
    requires R.At(ts, i, CastTokens(aggCast)) && IsCast(h.cast) && IsCast(aggCast) && (h.aggregate == "" ==> aggCast == "")
    requires aggCast == "" ==> Peek(ts, i) != "::"
    ensures i <= |ts| && CastsAt(ts, i, h) == Ok((h.cast, aggCast), i + |CastTokens(aggCast)|)
  {
    hide IsCastType;
    if aggCast != "" {
      R.AtPeek(ts, i, CastTokens(aggCast), 0);
      R.AtPeek(ts, i, CastTokens(aggCast), 1);
    }
  }

  lemma HintIsRead(ts: seq<Token>, i: nat, r: SelectRelation)
    requires R.At(ts, i, HintTokens(r)) && (r.inner ==> r.fk == "") && r.fk != "inner" && r.fk != "left"
    requires HintTokens(r) == [] ==> Peek(ts, i) != "!"
    ensures i <= |ts| && HintAt(ts, i) == (r.fk, r.inner, i + |HintTokens(r)|)
  {
    if HintTokens(r) != [] {
      R.AtPeek(ts, i, HintTokens(r), 0);
      R.AtPeek(ts, i, HintTokens(r), 1);
    }
  }

  predicate Follows(t: string) { t == "" || t == "," || t == ")" }

  /** Two stretches that follow each other are one. */
  lemma Together(ts: seq<Token>, i: nat, a: seq<Token>, b: seq<Token>)
    requires R.At(ts, i, a) && R.At(ts, i + |a|, b)
    ensures R.At(ts, i, a + b)
  {
    assert ts[i..i + |a + b|] == ts[i..i + |a|] + ts[i + |a|..i + |a| + |b|];
  }

  /** The start of an item, and its name with everything behind it. */
  lemma NameAndRest(ts: seq<Token>, i: nat, spread: bool, alias: string, name: string, rest: seq<Token>)
    requires R.At(ts, i, StartTokens(spread, alias, name) + rest)
    ensures var n := |StartTokens(spread, alias, name)|;
      n > 0 && R.At(ts, i, StartTokens(spread, alias, name)) && R.At(ts, i + n, rest) && R.At(ts, i + n - 1, [Name(name)] + rest)
  {
    hide R.At;
    var start := StartTokens(spread, alias, name);
    var before := (if spread then [Mark("...")] else []) + LabelTokens(alias);
    R.AtSplit(ts, i, start, rest);
    R.AtSplit(ts, i, before, [Name(name)]);
    Together(ts, i + |start| - 1, [Name(name)], rest);
  }

  /** What stands behind the name of a column, and behind its aggregate. */
  lemma ColumnParts(ts: seq<Token>, i: nat, name: string, f: SelectField)
    requires f.Selected? && R.At(ts, i, [Name(name)] + (CastTokens(f.cast) + (AggregateTokens(f.aggregate) + CastTokens(f.aggCast))))
    ensures var k := i + 1 + |CastTokens(f.cast)| + |AggregateTokens(f.aggregate)|;
      R.At(ts, i, [Name(name)] + (CastTokens(f.cast) + AggregateTokens(f.aggregate))) && R.At(ts, k, CastTokens(f.aggCast))
  {
    hide R.At;
    var cast, agg, last := CastTokens(f.cast), AggregateTokens(f.aggregate), CastTokens(f.aggCast);
    Regroup(cast, agg, last);
    Regroup([Name(name)], cast + agg, last);
    R.AtSplit(ts, i, [Name(name)] + (cast + agg), last);
  }

  lemma NoColon(ts: seq<Token>, i: nat, f: SelectField)
    requires f.Selected? && R.At(ts, i, CastTokens(f.cast) + (AggregateTokens(f.aggregate) + CastTokens(f.aggCast)))
    requires Follows(Peek(ts, i + |CastTokens(f.cast) + (AggregateTokens(f.aggregate) + CastTokens(f.aggCast))|))
    ensures Peek(ts, i) != ":"
  {
    var toks := CastTokens(f.cast) + (AggregateTokens(f.aggregate) + CastTokens(f.aggCast));
    if toks != [] {
      R.AtPeek(ts, i, toks, 0);
    }
  }

  /** A column from its name on. */
  lemma ColumnHeadIsRead(ts: seq<Token>, i: nat, f: SelectField, scope: string, aggregates: bool)
    requires f.Selected? && IsColumn(f, scope, aggregates)
    requires R.At(ts, i, [Name(f.field.name)] + (CastTokens(f.cast) + (AggregateTokens(f.aggregate) + CastTokens(f.aggCast))))
    requires Follows(Peek(ts, i + 1 + |CastTokens(f.cast)| + |AggregateTokens(f.aggregate)| + |CastTokens(f.aggCast)|))
    ensures var k := i + 1 + |CastTokens(f.cast)| + |AggregateTokens(f.aggregate)|;
      var h := Head(NO_FIELD.(name := f.field.name), f.alias, f.cast, f.aggregate);
      && k <= |ts| && HeadAt(ts, i + 1, f.field.name, if f.alias == "" then None else Some(f.alias), aggregates) == Ok(h, k)
      && CastsAt(ts, k, h) == Ok((f.cast, f.aggCast), k + |CastTokens(f.aggCast)|)
  {
    hide HeadAt, CastsAt, IsAggregate, IsCastType, ToUpper, R.At;
    var k := i + 1 + |CastTokens(f.cast)| + |AggregateTokens(f.aggregate)|;
    ColumnParts(ts, i, f.field.name, f);
    if f.aggCast != "" {
      R.AtPeek(ts, k, CastTokens(f.aggCast), 0);
    }
    HeadIsRead(ts, i, f.field.name, f.alias, f.cast, f.aggregate, aggregates);
    AggCastIsRead(ts, k, Head(NO_FIELD.(name := f.field.name), f.alias, f.cast, f.aggregate), f.aggCast);
  }

  /** An item put together from its parts. */
  lemma ItemIsEntry(ts: seq<Token>, i: nat, scope: string, aggregates: bool, j: nat, h: Head, k: nat, t: Tail, e: nat)
    requires i < |ts| && Peek(ts, i) != "" && NamePlace(ts, i) == j < |ts| && k <= |ts|
    requires HeadAt(ts, j + 1, Peek(ts, j), LabelAt(ts, i), aggregates) == Ok(h, k)
    requires CastsAt(ts, k, h).Ok? && CastsAt(ts, k, h).value == (t.cast, t.aggCast)
    requires HintAt(ts, CastsAt(ts, k, h).cur) == (t.fk, t.inner, e)
    ensures SelectItemAt(ts, i, scope, aggregates) == EntryAt(ts, e, scope, aggregates, Peek(ts, i) == "...", h, t)
  {
    hide HeadAt, CastsAt, HintAt, NamePlace, LabelAt, EntryAt;
  }

  lemma ColumnIsRead(ts: seq<Token>, i: nat, f: SelectField, scope: string, aggregates: bool)
    requires f.Selected? && IsColumn(f, scope, aggregates) && R.At(ts, i, ItemTokens(f)) && Follows(Peek(ts, i + |ItemTokens(f)|))
    ensures i <= |ts| && SelectItemAt(ts, i, scope, aggregates) == Ok([f], i + |ItemTokens(f)|)
  {
    hide HeadAt, CastsAt, NamePlace, LabelAt, SelectItemAt, IsAggregate, IsCastType, ToUpper, R.At, StartTokens, CastTokens, AggregateTokens, InsideAt;
    var rest := CastTokens(f.cast) + (AggregateTokens(f.aggregate) + CastTokens(f.aggCast));
    var start := StartTokens(false, f.alias, f.field.name);
    NameAndRest(ts, i, false, f.alias, f.field.name, rest);
    NoColon(ts, i + |start|, f);
    StartIsRead(ts, i, false, f.alias, f.field.name);
    ColumnHeadIsRead(ts, i + |start| - 1, f, scope, aggregates);
    var h := Head(NO_FIELD.(name := f.field.name), f.alias, f.cast, f.aggregate);
    ItemIsEntry(ts, i, scope, aggregates, i + |start| - 1, h, i + |start| + |CastTokens(f.cast)| + |AggregateTokens(f.aggregate)|,
                Tail(f.cast, f.aggCast, "", false), i + |ItemTokens(f)|);
  }

  // ----- Relations -----

  lemma InsideBegins(fs: seq<SelectField>)
    ensures InsideTokens(fs) != [] && InsideTokens(fs)[0].text == if fs == [] then "()" else "("
  {
    hide ListTokens;
  }

  /** The hint behind the name of a relation, and the parenthesis. */
  lemma HintAndInside(ts: seq<Token>, i: nat, f: SelectField, scope: string)
    requires f.Embedded? && IsRelation(f, scope) && R.At(ts, i, HintTokens(f.relation) + InsideTokens(f.relation.fields))
    ensures var r, e := f.relation, i + |HintTokens(f.relation)|;
      && e < |ts| && HintAt(ts, i) == (r.fk, r.inner, e) && R.At(ts, e, InsideTokens(r.fields))
      && Peek(ts, e) == (if r.fields == [] then "()" else "(")
      && Peek(ts, i) == if HintTokens(r) == [] then Peek(ts, e) else "!"
  {
    hide HintAt, R.At, InsideTokens;
    var r := f.relation;
    InsideBegins(r.fields);
    R.AtSplit(ts, i, HintTokens(r), InsideTokens(r.fields));
    R.AtPeek(ts, i + |HintTokens(r)|, InsideTokens(r.fields), 0);
    if HintTokens(r) != [] {
      R.AtPeek(ts, i, HintTokens(r), 0);
    }
    HintIsRead(ts, i, r);
  }

  /** A relation from its name on: the head, no casts, the hint, and the parenthesis. */
  lemma RelationHeadIsRead(ts: seq<Token>, i: nat, f: SelectField, scope: string, aggregates: bool)
    requires f.Embedded? && IsRelation(f, scope)
    requires R.At(ts, i, [Name(f.relation.name)] + (HintTokens(f.relation) + InsideTokens(f.relation.fields)))
    ensures var r, e := f.relation, i + 1 + |HintTokens(f.relation)|; var h := Head(NO_FIELD.(name := r.name), f.alias, "", "");
      && e < |ts| && HeadAt(ts, i + 1, r.name, if f.alias == "" then None else Some(f.alias), aggregates) == Ok(h, i + 1)
      && CastsAt(ts, i + 1, h) == Ok(("", ""), i + 1) && HintAt(ts, i + 1) == (r.fk, r.inner, e)
      && R.At(ts, e, InsideTokens(r.fields)) && Peek(ts, e) == (if r.fields == [] then "()" else "(") && Peek(ts, i + 1) != ":"
  {
    hide HeadAt, HintAt, IsAggregate, R.At, InsideTokens, HintTokens;
    var r := f.relation;
    R.AtSplit(ts, i, [Name(r.name)], HintTokens(r) + InsideTokens(r.fields));
    HintAndInside(ts, i + 1, f, scope);
    assert [Name(r.name)] + (CastTokens("") + AggregateTokens("")) == [Name(r.name)];
    HeadIsRead(ts, i, r.name, f.alias, "", "", aggregates);
  }

  /** A relation up to its list. */
  lemma RelationBegins(ts: seq<Token>, i: nat, f: SelectField, scope: string, aggregates: bool)
    requires f.Embedded? && IsRelation(f, scope) && R.At(ts, i, ItemTokens(f))
    ensures var r := f.relation;
      var e := i + |StartTokens(r.spread, f.alias, r.name)| + |HintTokens(r)|;
      && i <= |ts| && e < |ts| && R.At(ts, e, InsideTokens(r.fields)) && Peek(ts, e) == (if r.fields == [] then "()" else "(")
      && SelectItemAt(ts, i, scope, aggregates)
         == EntryAt(ts, e, scope, aggregates, r.spread, Head(NO_FIELD.(name := r.name), f.alias, "", ""), Tail("", "", r.fk, r.inner))
  {
    hide HeadAt, CastsAt, HintAt, NamePlace, LabelAt, SelectItemAt, EntryAt, IsAggregate, R.At, StartTokens, HintTokens, InsideTokens;
    var r := f.relation;
    var start := StartTokens(r.spread, f.alias, r.name);
    NameAndRest(ts, i, r.spread, f.alias, r.name, HintTokens(r) + InsideTokens(r.fields));
    RelationHeadIsRead(ts, i + |start| - 1, f, scope, aggregates);
    StartIsRead(ts, i, r.spread, f.alias, r.name);
    ItemIsEntry(ts, i, scope, aggregates, i + |start| - 1, Head(NO_FIELD.(name := r.name), f.alias, "", ""), i + |start|,
                Tail("", "", r.fk, r.inner), i + |start| + |HintTokens(r)|);
  }

  lemma {:induction false} RelationIsRead(ts: seq<Token>, i: nat, f: SelectField, scope: string, aggregates: bool)
    requires f.Embedded? && IsItem(f, scope, aggregates) && R.At(ts, i, ItemTokens(f))
    ensures i <= |ts| && SelectItemAt(ts, i, scope, aggregates) == Ok([f], i + |ItemTokens(f)|)
    decreases f, 1
  {
    hide SelectItemAt, R.At, StartTokens, HintTokens, InsideTokens, InsideAt;
    var r := f.relation;
    RelationBegins(ts, i, f, scope, aggregates);
    InsideIsRead(ts, i + |StartTokens(r.spread, f.alias, r.name)| + |HintTokens(r)|, r.fields, r.name, aggregates);
  }

  lemma {:induction false} InsideIsRead(ts: seq<Token>, i: nat, fs: seq<SelectField>, name: string, aggregates: bool)
    requires R.At(ts, i, InsideTokens(fs)) && forall g :: g in fs ==> IsItem(g, name, aggregates)
    ensures i < |ts| && InsideAt(ts, i, name, aggregates) == Ok(fs, i + |InsideTokens(fs)|)
    decreases fs, 2
  {
    hide R.At, SelectListAt, ListTokens, IsItem;
    if fs == [] {
      R.AtPeek(ts, i, InsideTokens(fs), 0);
    } else {
      var list := ListTokens(fs);
      R.AtPeek(ts, i, InsideTokens(fs), 0);
      R.AtSplit(ts, i, [Mark("(")], list + [Mark(")")]);
      R.AtSplit(ts, i + 1, list, [Mark(")")]);
      R.AtPeek(ts, i + 1 + |list|, [Mark(")")], 0);
      ListBegins(ts, i + 1, fs, name, aggregates);
      ListIsRead(ts, i + 1, fs, name, aggregates, []);
      assert [] + fs == fs;
    }
  }

  /** No list begins with a closing parenthesis. */
  lemma ListBegins(ts: seq<Token>, i: nat, fs: seq<SelectField>, name: string, aggregates: bool)
    requires fs != [] && IsItem(fs[0], name, aggregates) && R.At(ts, i, ListTokens(fs))
    ensures i < |ts| && Peek(ts, i) != ")"
  {
    hide R.At, IsItem, ListTokens, ItemTokens, Peek;
    FirstToken(fs[0], name, aggregates);
    FirstOfList(fs);
    R.AtPeek(ts, i, ListTokens(fs), 0);
  }

  lemma FirstOfList(fs: seq<SelectField>)
    requires fs != [] && ItemTokens(fs[0]) != []
    ensures ListTokens(fs) != [] && ListTokens(fs)[0] == ItemTokens(fs[0])[0]
  {
    hide ItemTokens;
  }

  lemma FirstToken(f: SelectField, name: string, aggregates: bool)
    requires IsItem(f, name, aggregates)
    ensures ItemTokens(f) != [] && ItemTokens(f)[0].text != ")"
  {
    hide IsAggregate, IsCastType, InsideTokens;
  }

  /** A list and what ends it: a closing parenthesis or nothing. */
  lemma {:induction false} ListIsRead(ts: seq<Token>, i: nat, fs: seq<SelectField>, scope: string, aggregates: bool, acc: seq<SelectField>)
    requires fs != [] && R.At(ts, i, ListTokens(fs)) && forall g :: g in fs ==> IsItem(g, scope, aggregates)
    requires Peek(ts, i + |ListTokens(fs)|) == "" || Peek(ts, i + |ListTokens(fs)|) == ")"
    ensures i <= |ts| && SelectListAt(ts, i, scope, aggregates, acc) == Ok(acc + fs, i + |ListTokens(fs)|)
    decreases fs, 1
  {
    hide R.At, SelectItemAt, SelectListAt, ItemTokens, IsItem;
    var f := fs[0];
    var n := |ItemTokens(f)|;
    assert f in fs;
    if |fs| == 1 {
      assert fs == [f];
      ItemIsRead(ts, i, f, scope, aggregates);
      ListStep(ts, i, scope, aggregates, acc);
    } else {
      var more := ListTokens(fs[1..]);
      R.AtSplit(ts, i, ItemTokens(f), [Mark(",")] + more);
      R.AtSplit(ts, i + n, [Mark(",")], more);
      R.AtPeek(ts, i + n, [Mark(",")], 0);
      ItemIsRead(ts, i, f, scope, aggregates);
      ListIsRead(ts, i + n + 1, fs[1..], scope, aggregates, acc + [f]);
      ListStep(ts, i, scope, aggregates, acc);
      assert acc + [f] + fs[1..] == acc + fs;
    }
  }

  lemma {:induction false} ItemIsRead(ts: seq<Token>, i: nat, f: SelectField, scope: string, aggregates: bool)
    requires IsItem(f, scope, aggregates) && R.At(ts, i, ItemTokens(f)) && Follows(Peek(ts, i + |ItemTokens(f)|))
    ensures i <= |ts| && SelectItemAt(ts, i, scope, aggregates) == Ok([f], i + |ItemTokens(f)|)
    decreases f, 2
  {
    hide R.At, SelectItemAt, ItemTokens;
    if f.Selected? {
      ColumnIsRead(ts, i, f, scope, aggregates);
    } else {
      RelationIsRead(ts, i, f, scope, aggregates);
    }
  }

  // ----- Printing: every name quoted -----

  function PrintStart(spread: bool, alias: string, name: string): string {
    (if spread then "..." else "") + ((if alias == "" then "" else Quote(alias) + ":") + Quote(name))
  }

  function PrintCast(c: string): string { if c == "" then "" else "::" + Quote(c) }

  function PrintAggregate(a: string): string { if a == "" then "" else "." + Quote(a) + "()" }

  function PrintHint(r: SelectRelation): string {
    if r.inner then "!" + Quote("inner") else if r.fk != "" then "!" + Quote(r.fk) else ""
  }

  function PrintItem(f: SelectField): string
    decreases f
  {
    match f
    case Selected(field, alias, cast, aggregate, aggCast) =>
      PrintStart(false, alias, field.name) + (PrintCast(cast) + (PrintAggregate(aggregate) + PrintCast(aggCast)))
    case Embedded(alias, r) => PrintStart(r.spread, alias, r.name) + (PrintHint(r) + PrintInside(r.fields))
  }

  function PrintInside(fs: seq<SelectField>): string
    decreases fs
  {
    if fs == [] then "()" else "(" + (PrintList(fs) + ")")
  }

  function PrintList(fs: seq<SelectField>): string
    decreases fs, 0
  {
    if fs == [] then "" else if |fs| == 1 then PrintItem(fs[0]) else PrintItem(fs[0]) + ("," + PrintList(fs[1..]))
  }

  // ----- Scanning the text -----

  const SELECT_MARKS := Separators(SELECT_SEP, SELECT_LONG)

  lemma ReadsName(s: string)
    ensures Reads(Quote(s), [Name(s)], SELECT_MARKS)
  {
    assert "->>"[0] == '-' && "->"[0] == '-' && "::"[0] == ':' && "..."[0] == '.' && "()"[0] == '(';
    ReadsQuoted(s, SELECT_MARKS);
  }

  /** A long mark. */
  lemma ReadsLong(l: string)
    requires l == "::" || l == "..." || l == "()"
    ensures Reads(l, [Mark(l)], SELECT_MARKS)
  {
    hide Scan;
    forall rest ensures ScanRest(l + rest, SELECT_MARKS) == [Mark(l)] + ScanRest(rest, SELECT_MARKS) {
      LongIsFound(l, rest);
      ScanLong(l, rest);
    }
  }

  lemma {:induction false} FirstFound(r: string, longSep: seq<string>, k: nat)
    requires k < |longSep| && longSep[k] <= r && forall i :: 0 <= i < k ==> !(longSep[i] <= r)
    ensures LongSepAt(r, longSep) == longSep[k]
  {
    if k > 0 {
      FirstFound(r, longSep[1..], k - 1);
    }
  }

  lemma LongIsFound(l: string, rest: string)
    requires l == "::" || l == "..." || l == "()"
    ensures LongSepAt(l + rest, SELECT_LONG) == l
  {
    var r := l + rest;
    assert r[0] == l[0] && l <= r;
    assert "->>"[0] == '-' && "->"[0] == '-' && "::"[0] == ':' && "..."[0] == '.' && "()"[0] == '(';
    FirstFound(r, SELECT_LONG, if l == "::" then 2 else if l == "..." then 3 else 4);
  }

  lemma ScanLong(l: string, rest: string)
    requires l != "" && LongSepAt(l + rest, SELECT_LONG) == l && l[0] != ' ' && l[0] != '\\'
    ensures ScanRest(l + rest, SELECT_MARKS) == [Mark(l)] + ScanRest(rest, SELECT_MARKS)
  {
    hide LongSepAt;
    assert (l + rest)[|l|..] == rest;
    assert Flush("") + [Mark(l)] == [Mark(l)] && (l + rest)[0] == l[0];
  }

  /** c and what follows do not begin a long mark. */
  predicate IsApart(c: char, text: string) {
    text != "" && text[0] != c && !(c == '(' && text[0] == ')')
  }

  lemma NoLongMark(c: char, text: string, rest: string)
    requires c in SELECT_SEP && (IsApart(c, text) || c == ',' || c == ')' || c == '!')
    ensures LongSepAt([c] + (text + rest), SELECT_LONG) == ""
  {
    var r := [c] + (text + rest);
    assert r[0] == c && (text != "" ==> r[1] == text[0]);
    assert "->>"[0] == '-' && "->"[0] == '-' && "::"[0] == ':' && "::"[1] == ':' && "..."[0] == '.' && "..."[1] == '.' && "()"[0] == '(' && "()"[1] == ')';
    NoneIsFound(r, SELECT_LONG);
  }

  lemma {:induction false} NoneIsFound(r: string, longSep: seq<string>)
    requires forall l :: l in longSep ==> !(l <= r)
    ensures LongSepAt(r, longSep) == ""
  {
    if longSep != [] {
      assert longSep[0] in longSep && forall l :: l in longSep[1..] ==> l in longSep;
      NoneIsFound(r, longSep[1..]);
    }
  }

  /** A single mark and what follows it. */
  lemma ReadsMark(c: char, text: string, toks: seq<Token>)
    requires c in SELECT_SEP && Reads(text, toks, SELECT_MARKS) && (IsApart(c, text) || c == ',' || c == ')' || c == '!')
    ensures Reads([c] + text, [Mark([c])] + toks, SELECT_MARKS)
  {
    hide Scan, IsApart, Reads;
    forall rest ensures ScanRest([c] + text + rest, SELECT_MARKS) == [Mark([c])] + toks + ScanRest(rest, SELECT_MARKS) {
      assert [c] + text + rest == [c] + (text + rest);
      NoLongMark(c, text, rest);
      ScanMark(c, text + rest);
      ReadsAt(text, toks, rest, SELECT_MARKS);
      assert [Mark([c])] + toks + ScanRest(rest, SELECT_MARKS) == [Mark([c])] + (toks + ScanRest(rest, SELECT_MARKS));
    }
    ReadsAll([c] + text, [Mark([c])] + toks);
  }

  lemma ReadsAll(text: string, toks: seq<Token>)
    requires forall rest {:trigger ScanRest(text + rest, SELECT_MARKS)} :: ScanRest(text + rest, SELECT_MARKS) == toks + ScanRest(rest, SELECT_MARKS)
    ensures Reads(text, toks, SELECT_MARKS)
  {
  }

  lemma ScanMark(c: char, rest: string)
    requires c in SELECT_SEP && LongSepAt([c] + rest, SELECT_LONG) == ""
    ensures ScanRest([c] + rest, SELECT_MARKS) == [Mark([c])] + ScanRest(rest, SELECT_MARKS)
  {
    hide LongSepAt;
    assert ([c] + rest)[1..] == rest;
    assert Flush("") + [Mark([c])] == [Mark([c])];
  }

  lemma ReadsStart(spread: bool, alias: string, name: string)
    ensures Reads(PrintStart(spread, alias, name), StartTokens(spread, alias, name), SELECT_MARKS)
  {
    hide Reads, Quote;
    ReadsName(name);
    ReadsName(alias);
    ReadsNothing(SELECT_MARKS);
    ReadsLong("...");
    QuoteBegins(name);
    ReadsMark(':', Quote(name), [Name(name)]);
    if alias == "" {
      assert "" + Quote(name) == Quote(name) && LabelTokens(alias) + [Name(name)] == [Name(name)];
    } else {
      ReadsConcat(Quote(alias), [Name(alias)], ":" + Quote(name), [Mark(":")] + [Name(name)], SELECT_MARKS);
      assert Quote(alias) + ":" + Quote(name) == Quote(alias) + (":" + Quote(name));
      assert LabelTokens(alias) + [Name(name)] == [Name(alias)] + ([Mark(":")] + [Name(name)]);
    }
    var body := (if alias == "" then "" else Quote(alias) + ":") + Quote(name);
    ReadsConcat(if spread then "..." else "", if spread then [Mark("...")] else [], body, LabelTokens(alias) + [Name(name)], SELECT_MARKS);
    Regroup(if spread then [Mark("...")] else [], LabelTokens(alias), [Name(name)]);
  }

  lemma QuoteBegins(s: string)
    ensures Quote(s) != "" && Quote(s)[0] == '"'
  {
  }

  lemma ReadsCast(c: string)
    ensures Reads(PrintCast(c), CastTokens(c), SELECT_MARKS)
  {
    hide Reads, Quote;
    if c == "" {
      ReadsNothing(SELECT_MARKS);
    } else {
      ReadsName(c);
      ReadsLong("::");
      ReadsConcat("::", [Mark("::")], Quote(c), [Name(c)], SELECT_MARKS);
      assert [Mark("::")] + [Name(c)] == CastTokens(c);
    }
  }

  lemma ReadsAggregate(a: string)
    ensures Reads(PrintAggregate(a), AggregateTokens(a), SELECT_MARKS)
  {
    hide Reads, Quote;
    if a == "" {
      ReadsNothing(SELECT_MARKS);
    } else {
      ReadsName(a);
      QuoteBegins(a);
      ReadsLong("()");
      ReadsMark('.', Quote(a), [Name(a)]);
      ReadsConcat("." + Quote(a), [Mark(".")] + [Name(a)], "()", [Mark("()")], SELECT_MARKS);
      assert [Mark(".")] + [Name(a)] + [Mark("()")] == AggregateTokens(a);
    }
  }

  lemma ReadsHint(r: SelectRelation)
    ensures Reads(PrintHint(r), HintTokens(r), SELECT_MARKS)
  {
    hide Reads, Quote;
    var name := if r.inner then "inner" else r.fk;
    ReadsNothing(SELECT_MARKS);
    ReadsName(name);
    ReadsMark('!', Quote(name), [Name(name)]);
    assert [Mark("!")] + [Name(name)] == [Mark("!"), Name(name)];
  }

  lemma {:induction false} ReadsItem(f: SelectField)
    ensures Reads(PrintItem(f), ItemTokens(f), SELECT_MARKS)
    decreases f, 1
  {
    hide Reads, PrintStart, StartTokens, PrintCast, CastTokens, PrintAggregate, AggregateTokens, PrintHint, HintTokens, PrintInside, InsideTokens;
    match f
    case Selected(field, alias, cast, aggregate, aggCast) =>
      ReadsStart(false, alias, field.name);
      ReadsCast(cast);
      ReadsAggregate(aggregate);
      ReadsCast(aggCast);
      ReadsConcat(PrintAggregate(aggregate), AggregateTokens(aggregate), PrintCast(aggCast), CastTokens(aggCast), SELECT_MARKS);
      ReadsConcat(PrintCast(cast), CastTokens(cast), PrintAggregate(aggregate) + PrintCast(aggCast), AggregateTokens(aggregate) + CastTokens(aggCast), SELECT_MARKS);
      ReadsConcat(PrintStart(false, alias, field.name), StartTokens(false, alias, field.name),
                  PrintCast(cast) + (PrintAggregate(aggregate) + PrintCast(aggCast)), CastTokens(cast) + (AggregateTokens(aggregate) + CastTokens(aggCast)), SELECT_MARKS);
    case Embedded(alias, r) =>
      ReadsStart(r.spread, alias, r.name);
      ReadsHint(r);
      ReadsInside(r.fields);
      ReadsConcat(PrintHint(r), HintTokens(r), PrintInside(r.fields), InsideTokens(r.fields), SELECT_MARKS);
      ReadsConcat(PrintStart(r.spread, alias, r.name), StartTokens(r.spread, alias, r.name),
                  PrintHint(r) + PrintInside(r.fields), HintTokens(r) + InsideTokens(r.fields), SELECT_MARKS);
  }

  lemma {:induction false} ReadsInside(fs: seq<SelectField>)
    ensures Reads(PrintInside(fs), InsideTokens(fs), SELECT_MARKS)
    decreases fs, 2
  {
    hide Reads, PrintList, ListTokens;
    if fs == [] {
      ReadsLong("()");
    } else {
      ReadsList(fs);
      ReadsNothing(SELECT_MARKS);
      ReadsMark(')', "", []);
      assert [')'] + "" == ")" && [Mark(")")] + [] == [Mark(")")];
      ReadsConcat(PrintList(fs), ListTokens(fs), ")", [Mark(")")], SELECT_MARKS);
      ListTextBegins(fs);
      ReadsMark('(', PrintList(fs) + ")", ListTokens(fs) + [Mark(")")]);
    }
  }

  lemma ListTextBegins(fs: seq<SelectField>)
    requires fs != []
    ensures PrintList(fs) != "" && PrintList(fs)[0] in ".\""
  {
    hide Quote, PrintCast, PrintAggregate, PrintHint, PrintInside;
    var f := fs[0];
    QuoteBegins(if f.Selected? then f.field.name else f.relation.name);
    QuoteBegins(f.alias);
    assert PrintItem(f) <= PrintList(fs);
    assert PrintItem(f) != "" && PrintItem(f)[0] in ".\"";
  }

  lemma {:induction false} ReadsList(fs: seq<SelectField>)
    ensures Reads(PrintList(fs), ListTokens(fs), SELECT_MARKS)
    decreases fs, 1
  {
    hide Reads, PrintItem, ItemTokens;
    if fs == [] {
      ReadsNothing(SELECT_MARKS);
    } else {
      ReadsItem(fs[0]);
      if |fs| > 1 {
        ReadsList(fs[1..]);
        ReadsMark(',', PrintList(fs[1..]), ListTokens(fs[1..]));
        ReadsConcat(PrintItem(fs[0]), ItemTokens(fs[0]), "," + PrintList(fs[1..]), [Mark(",")] + ListTokens(fs[1..]), SELECT_MARKS);
      }
    }
  }

  /** Main result: a select list with labels, casts, aggregates, hints and relations nested to any
      depth, printed with whatever names, scans and parses to itself. */
  lemma PrintedSelectIsReadBack(fs: seq<SelectField>, aggregates: bool)
    requires forall f :: f in fs ==> IsItem(f, "", aggregates)
    ensures var ts := Scan(PrintList(fs), START, SELECT_SEP, SELECT_LONG);
      SelectListAt(ts, 0, "", aggregates, []) == Ok(fs, |ts|)
  {
    hide Reads, PrintList, Scan, SelectListAt, ListTokens, IsItem;
    ReadsList(fs);
    ReadsAlone(PrintList(fs), ListTokens(fs), SELECT_MARKS);
    var ts := ListTokens(fs);
    if fs == [] {
      EmptySelect(aggregates);
    } else {
      assert R.At(ts, 0, ts);
      ListIsRead(ts, 0, fs, "", aggregates, []);
      assert [] + fs == fs;
    }
  }

  lemma EmptySelect(aggregates: bool)
    ensures ListTokens([]) == [] && SelectListAt([], 0, "", aggregates, []) == Ok([], 0)
  {
    ListStep([], 0, "", aggregates, []);
    assert SelectItemAt([], 0, "", aggregates) == Ok([], 0);
    var none: seq<SelectField> := [];
    assert none + none == none;
  }
}
