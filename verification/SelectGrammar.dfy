/** What the select list parser accepts and reads (database/requestparser.go, selectList and
    selectItem), as functions of the token list and the cursor, and what holds of everything read. */
module SelectGrammar {
  import opened Sql
  import opened Filters
  import opened Scanner
  import opened FilterGrammar

  const SELECT_SEP := ".,():!"
  const SELECT_LONG := ["->>", "->", "::", "...", "()"]

  datatype SelectField =
    | Selected(field: Field, alias: string, cast: string, aggregate: string, aggCast: string)
    | Embedded(alias: string, relation: SelectRelation)

  datatype SelectRelation = SelectRelation(
    name: string, parent: string, spread: bool, inner: bool, fk: string, fields: seq<SelectField>)

  predicate IsAggregate(fn: string) { ToLower(fn) in {"avg", "count", "max", "min", "sum"} }

  function ToUpper(s: string): string {
    seq(|s|, i requires 0 <= i < |s| => if 'a' <= s[i] <= 'z' then (s[i] as int - 'a' as int + 'A' as int) as char else s[i])
  }

  predicate IsIdentStart(c: char) { 'a' <= c <= 'z' || 'A' <= c <= 'Z' || c == '_' }

  predicate IsIdent(s: string) {
    s != "" && IsIdentStart(s[0]) && forall i :: 0 <= i < |s| ==> IsIdentStart(s[i]) || '0' <= s[i] <= '9'
  }

  function TrimBrackets(s: string): string
    decreases |s|
  {
    if EndsWith(s, "[]") then TrimBrackets(s[..|s| - 2]) else s
  }

  /** A type name, perhaps with a schema, perhaps an array of them; or one of the standard's names
      of several words. */
  predicate IsCastType(s: string) {
    var base := TrimBrackets(s);
    s != ""
    && (ToLower(base) in {"double precision", "character varying", "bit varying", "timestamp with time zone",
                          "timestamp without time zone", "time with time zone", "time without time zone"}
        || IsIdent(base)
        || exists i :: 0 <= i < |base| && base[i] == '.' && IsIdent(base[..i]) && IsIdent(base[i + 1..]))
  }

  /** What may stand in the name of a type. */
  predicate IsHarmless(c: char) { IsIdentStart(c) || '0' <= c <= '9' || c == '.' || c == ' ' || c == '[' || c == ']' }

  predicate AllHarmless(s: string) { forall i :: 0 <= i < |s| ==> IsHarmless(s[i]) }

  lemma {:induction false} TrimmedIsHarmless(s: string)
    requires AllHarmless(TrimBrackets(s))
    ensures AllHarmless(s)
    decreases |s|
  {
    if EndsWith(s, "[]") {
      var n := |s| - 2;
      TrimmedIsHarmless(s[..n]);
      assert s[n..][0] == s[n] && s[n..][1] == s[n + 1];
    }
  }

  lemma StandardNamesAreHarmless(s: string)
    requires AllHarmless(ToLower(s))
    ensures AllHarmless(s)
  {
    forall i | 0 <= i < |s| ensures IsHarmless(s[i]) {
      assert IsHarmless(ToLower(s)[i]);
    }
  }

  lemma IdentIsHarmless(s: string)
    requires IsIdent(s)
    ensures AllHarmless(s)
  {
  }

  lemma QualifiedIsHarmless(s: string, i: nat)
    requires i < |s| && s[i] == '.' && IsIdent(s[..i]) && IsIdent(s[i + 1..])
    ensures AllHarmless(s)
  {
    forall j | 0 <= j < |s| ensures IsHarmless(s[j]) {
      assert j < i ==> s[j] == s[..i][j];
      assert j > i ==> s[j] == s[i + 1..][j - i - 1];
    }
  }

  lemma StandardNames()
    ensures AllHarmless("double precision") && AllHarmless("character varying") && AllHarmless("bit varying")
    ensures AllHarmless("timestamp with time zone") && AllHarmless("timestamp without time zone")
    ensures AllHarmless("time with time zone") && AllHarmless("time without time zone")
  {
  }

  /** A cast that is let through has no quote, parenthesis or semicolon in it, nor anything else that
      could end the expression. */
  lemma CastsAreHarmless(s: string)
    requires IsCastType(s)
    ensures AllHarmless(s)
  {
    hide ToLower, TrimBrackets, EndsWith, AllHarmless, IsIdent;
    var base := TrimBrackets(s);
    if i :| 0 <= i < |base| && base[i] == '.' && IsIdent(base[..i]) && IsIdent(base[i + 1..]) {
      QualifiedIsHarmless(base, i);
    } else if IsIdent(base) {
      IdentIsHarmless(base);
    } else {
      StandardNames();
      StandardNamesAreHarmless(base);
    }
    TrimmedIsHarmless(s);
  }

  // ----- One item -----

  /** A column with what may follow it, so far. */
  datatype Head = Head(field: Field, alias: string, cast: string, aggregate: string)

  /** The token that the item begins with, behind `...` and behind a given. */
  function NamePlace(ts: seq<Token>, i: nat): (j: nat)
    requires i < |ts|
    ensures i <= j <= |ts|
  {
    var first := if Peek(ts, i) == "..." then i + 1 else i;
    if Peek(ts, After(ts, first)) == ":" then After(ts, After(ts, first)) else first
  }

  function LabelAt(ts: seq<Token>, i: nat): Option<string>
    requires i < |ts|
  {
    var first := if Peek(ts, i) == "..." then i + 1 else i;
    if Peek(ts, After(ts, first)) == ":" then Some(Peek(ts, first)) else None
  }

  /** `.avg()` and the like */
  predicate HasAggregate(ts: seq<Token>, i: nat) {
    Peek(ts, i) == "." && i + 2 < |ts| && IsAggregate(ts[i + 1].text) && ts[i + 2].text == "()"
  }

  /** A field and its cast */
  function FieldCastAt(ts: seq<Token>, i: nat): (r: Parsed<(Field, string)>)
    requires i < |ts|
    ensures r.Ok? ==> i < r.cur <= |ts| && r.value.0.tablename == ""
  {
    match FieldAt(ts, i, false, true)
    case Err(m) => Err(m)
    case Ok(f, j) =>
      FieldMovesOn(ts, i);
      if Peek(ts, j) == "::" then Ok((f, Peek(ts, After(ts, j))), After(ts, After(ts, j))) else Ok((f, ""), j)
  }

  /** A field, its cast, its aggregate. */
  function FieldHead(ts: seq<Token>, i: nat, given: Option<string>, aggregates: bool): (r: Parsed<Head>)
    requires i < |ts|
    ensures r.Ok? ==> i < r.cur <= |ts| && r.value.field.tablename == ""
  {
    match FieldCastAt(ts, i)
    case Err(m) => Err(m)
    case Ok((f, cast), k) =>
      var alias := if given.GetOr("") == "" then f.last else given.value;
      if !HasAggregate(ts, k) then Ok(Head(f, alias, cast, ""), k)
      else if !aggregates then Err("Use of aggregate functions is not allowed")
      else Ok(Head(f, if given.Some? then alias else ToLower(ts[k + 1].text), cast, ToUpper(ts[k + 1].text)), k + 3)
  }

  /** A field takes at least one token while there is one, and no table path without leave. */
  lemma FieldMovesOn(ts: seq<Token>, i: nat)
    requires i < |ts|
    ensures var r := FieldAt(ts, i, false, true); r.Ok? ==> r.cur > i && r.value.tablename == ""
  {
    hide JsonMembers, TablePath;
  }

  /** The item behind its name token, which ends at c: an aggregate by itself, or the token is put
      back and a field is read. */
  function HeadAt(ts: seq<Token>, c: nat, token: string, given: Option<string>, aggregates: bool): (r: Parsed<Head>)
    requires 0 < c <= |ts|
    ensures r.Ok? ==> c <= r.cur <= |ts| && r.value.field.tablename == ""
  {
    if !(IsAggregate(token) && Peek(ts, c) == "()") then FieldHead(ts, c - 1, given, aggregates)
    else if !aggregates then Err("Use of aggregate functions is not allowed")
    else
      Ok(Head(NO_FIELD.(name := "*"), if given.GetOr("") == "" then ToLower(token) else given.value, "", ToUpper(token)), After(ts, c))
  }

  /** The cast behind, of the aggregate if there is one. Casts go into the text of the query, so only
      names of types are let through. */
  function CastsAt(ts: seq<Token>, i: nat, h: Head): (r: Parsed<(string, string)>)
    requires i <= |ts|
    ensures r.Ok? ==> i <= r.cur <= |ts|
    ensures r.Ok? ==> (r.value.0 == "" || IsCastType(r.value.0)) && (r.value.1 == "" || IsCastType(r.value.1))
  {
    var isCast := Peek(ts, i) == "::";
    var late := if isCast then Peek(ts, After(ts, i)) else "";
    var cast := if isCast && h.aggregate == "" then late else h.cast;
    var aggCast := if isCast && h.aggregate != "" then late else "";
    if cast != "" && !IsCastType(cast) then Err("invalid cast type: " + cast)
    else if aggCast != "" && !IsCastType(aggCast) then Err("invalid cast type: " + aggCast)
    else Ok((cast, aggCast), if isCast then After(ts, After(ts, i)) else i)
  }

  /** !inner, !left or !fk: the foreign key, whether the join is inner, and the cursor. */
  function HintAt(ts: seq<Token>, i: nat): (r: (string, bool, nat))
    requires i <= |ts|
    ensures i <= r.2 <= |ts|
  {
    if Peek(ts, i) != "!" then ("", false, i)
    else
      var fk := Peek(ts, After(ts, i));
      (if fk == "inner" || fk == "left" then "" else fk, fk == "inner", After(ts, After(ts, i)))
  }

  /** What follows the name of an item. */
  datatype Tail = Tail(cast: string, aggCast: string, fk: string, inner: bool)

  /** [...] [label:] field, aggregate or relation */
  function SelectItemAt(ts: seq<Token>, i: nat, scope: string, aggregates: bool): (r: Parsed<seq<SelectField>>)
    requires i <= |ts|
    ensures r.Ok? ==> i <= r.cur <= |ts|
    decreases |ts| - i, 2
  {
    if Peek(ts, i) == "" then Ok([], After(ts, i))
    else
      var j := NamePlace(ts, i);
      match HeadAt(ts, After(ts, j), Peek(ts, j), LabelAt(ts, i), aggregates)
      case Err(m) => Err(m)
      case Ok(h, k) =>
        match CastsAt(ts, k, h)
        case Err(m) => Err(m)
        case Ok((cast, aggCast), l) =>
          var (fk, inner, e) := HintAt(ts, l);
          EntryAt(ts, e, scope, aggregates, Peek(ts, i) == "...", h, Tail(cast, aggCast, fk, inner))
  }

  /** The item is a column, or a relation if a parenthesis follows. */
  function EntryAt(ts: seq<Token>, i: nat, scope: string, aggregates: bool, spread: bool, h: Head, t: Tail): (r: Parsed<seq<SelectField>>)
    requires 0 < i <= |ts|
    ensures r.Ok? ==> i - 1 <= r.cur <= |ts|
    decreases |ts| - i, 1
  {
    if Peek(ts, i) != "(" && Peek(ts, i) != "()" then
      if spread then Err("cannot use the spread operator on fields")
      else if h.field.name == "," then Ok([], i - 1)
      else Ok([Selected(h.field.(tablename := scope), h.alias, t.cast, h.aggregate, t.aggCast)], i)
    else if t.cast != "" then Err("table cannot have cast")
    else if h.aggregate != "" then Err("table cannot have aggregate function")
    else
      match InsideAt(ts, i, h.field.name, aggregates)
      case Err(m) => Err(m)
      case Ok(inside, end) => Ok([Embedded(h.alias, SelectRelation(h.field.name, scope, spread, t.inner, t.fk, inside))], end)
  }

  /** "()" or '(' SelectList ')' */
  function InsideAt(ts: seq<Token>, i: nat, name: string, aggregates: bool): (r: Parsed<seq<SelectField>>)
    requires i < |ts|
    ensures r.Ok? ==> i < r.cur <= |ts|
    decreases |ts| - i, 0
  {
    if Peek(ts, i) == "()" then Ok([], i + 1)
    else if Peek(ts, i + 1) == ")" then Ok([], i + 2)
    else
      match SelectListAt(ts, i + 1, name, aggregates, [])
      case Err(m) => Err(m)
      case Ok(fields, j) => if Peek(ts, j) == ")" then Ok(fields, j + 1) else Err(") expected")
  }

  /** SelectItem (',' SelectItem)* */
  function SelectListAt(ts: seq<Token>, i: nat, scope: string, aggregates: bool, acc: seq<SelectField>): (r: Parsed<seq<SelectField>>)
    requires i <= |ts|
    ensures r.Ok? ==> i <= r.cur <= |ts|
    decreases |ts| - i, 3
  {
    match SelectItemAt(ts, i, scope, aggregates)
    case Err(m) => Err(m)
    case Ok(fields, j) =>
      if Peek(ts, j) == "," then SelectListAt(ts, j + 1, scope, aggregates, acc + fields) else Ok(acc + fields, j)
  }

  /** The list from i on, unfolded once. */
  lemma ListStep(ts: seq<Token>, i: nat, scope: string, aggregates: bool, acc: seq<SelectField>)
    requires i <= |ts|
    ensures var r := SelectItemAt(ts, i, scope, aggregates);
      SelectListAt(ts, i, scope, aggregates, acc) ==
        if r.Err? then r
        else if Peek(ts, r.cur) == "," then SelectListAt(ts, r.cur + 1, scope, aggregates, acc + r.value)
        else Ok(acc + r.value, r.cur)
  {
    hide SelectItemAt;
  }

  // ----- What holds of everything read -----

  /** What stands in the parentheses of `scope`, at the top of no relation (""): columns of it, with
      casts that are types, and relations whose parent it is. */
  ghost predicate InScope(f: SelectField, scope: string) {
    match f
    case Selected(field, _, cast, _, aggCast) =>
      field.tablename == scope && (cast == "" || IsCastType(cast)) && (aggCast == "" || IsCastType(aggCast))
    case Embedded(_, r) => r.parent == scope && forall i :: 0 <= i < |r.fields| ==> InScope(r.fields[i], r.name)
  }

  ghost predicate AllInScope(fs: seq<SelectField>, scope: string) { forall i :: 0 <= i < |fs| ==> InScope(fs[i], scope) }

  /** Main result: on every token sequence, each column and relation read is hung under the relation
      in whose parentheses it stands, and each cast let through is the name of a type. */
  lemma {:induction false} ReadInScope(ts: seq<Token>, i: nat, scope: string, aggregates: bool, acc: seq<SelectField>)
    requires i <= |ts| && AllInScope(acc, scope) && SelectListAt(ts, i, scope, aggregates, acc).Ok?
    ensures AllInScope(SelectListAt(ts, i, scope, aggregates, acc).value, scope)
    decreases |ts| - i, 3
  {
    hide SelectItemAt, InScope;
    var r := SelectItemAt(ts, i, scope, aggregates);
    ItemInScope(ts, i, scope, aggregates);
    if Peek(ts, r.cur) == "," {
      ReadInScope(ts, r.cur + 1, scope, aggregates, acc + r.value);
    }
  }

  lemma {:induction false} ItemInScope(ts: seq<Token>, i: nat, scope: string, aggregates: bool)
    requires i <= |ts| && SelectItemAt(ts, i, scope, aggregates).Ok?
    ensures AllInScope(SelectItemAt(ts, i, scope, aggregates).value, scope)
    decreases |ts| - i, 2
  {
    hide HeadAt, CastsAt, HintAt, EntryAt, InScope;
    if Peek(ts, i) != "" {
      var j := NamePlace(ts, i);
      var h := HeadAt(ts, After(ts, j), Peek(ts, j), LabelAt(ts, i), aggregates);
      var c := CastsAt(ts, h.cur, h.value);
      var (fk, inner, e) := HintAt(ts, c.cur);
      EntryInScope(ts, e, scope, aggregates, Peek(ts, i) == "...", h.value, Tail(c.value.0, c.value.1, fk, inner));
    }
  }

  lemma {:induction false} EntryInScope(ts: seq<Token>, i: nat, scope: string, aggregates: bool, spread: bool, h: Head, t: Tail)
    requires 0 < i <= |ts| && EntryAt(ts, i, scope, aggregates, spread, h, t).Ok?
    requires (t.cast == "" || IsCastType(t.cast)) && (t.aggCast == "" || IsCastType(t.aggCast))
    ensures AllInScope(EntryAt(ts, i, scope, aggregates, spread, h, t).value, scope)
    decreases |ts| - i, 1
  {
    hide InsideAt, IsCastType;
    if (Peek(ts, i) == "(" || Peek(ts, i) == "()") && t.cast == "" && h.aggregate == "" {
      InsideInScope(ts, i, h.field.name, aggregates);
    }
  }

  lemma {:induction false} InsideInScope(ts: seq<Token>, i: nat, name: string, aggregates: bool)
    requires i < |ts| && InsideAt(ts, i, name, aggregates).Ok?
    ensures AllInScope(InsideAt(ts, i, name, aggregates).value, name)
    decreases |ts| - i, 0
  {
    hide SelectListAt, InScope;
    if Peek(ts, i) != "()" && Peek(ts, i + 1) != ")" {
      ReadInScope(ts, i + 1, name, aggregates, []);
    }
  }
}
