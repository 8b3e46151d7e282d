/** The select list parser as it runs (database/requestparser.go, selectList and selectItem): a mutual
    recursion over a cursor that also steps back. Each method is a step of SelectGrammar. */
module SelectParser {
  import opened Sql
  import opened Filters
  import opened FilterGrammar
  import opened FilterParser
  import opened Scanner
  import opened SelectGrammar

  /** SelectItem (',' SelectItem)* */
  method SelectList(p: PostgRestParser, scope: string, aggregates: bool) returns (fields: seq<SelectField>, err: Option<string>)
    requires p.Valid()
    modifies p`cur
    ensures p.Valid() && p.Reached(SelectListAt(p.Stream(), old(p.cur), scope, aggregates, []), fields, err)
    decreases |p.tokens| - p.cur, 3
  {
    hide SelectItemAt, SelectListAt;
    ListStep(p.Stream(), p.cur, scope, aggregates, []);
    fields, err := SelectItem(p, scope, aggregates);
    if err.Some? {
      return [], err;
    }
    assert [] + fields == fields;
    var token := p.LookAhead();
    while token == ","
      invariant p.Valid() && token == Peek(p.Stream(), p.cur) && p.cur >= old(p.cur) && err.None?
      invariant SelectListAt(p.Stream(), old(p.cur), scope, aggregates, [])
             == if token == "," then SelectListAt(p.Stream(), p.cur + 1, scope, aggregates, fields) else Ok(fields, p.cur)
      decreases |p.tokens| - p.cur
    {
      var comma := p.Next();
      ListStep(p.Stream(), p.cur, scope, aggregates, fields);
      var more;
      more, err := SelectItem(p, scope, aggregates);
      if err.Some? {
        return [], err;
      }
      fields := fields + more;
      token := p.LookAhead();
    }
  }

  /** [spread] [label:] field, aggregate or relation */
  method SelectItem(p: PostgRestParser, scope: string, aggregates: bool) returns (fields: seq<SelectField>, err: Option<string>)
    requires p.Valid()
    modifies p`cur
    ensures p.Valid() && p.Reached(SelectItemAt(p.Stream(), old(p.cur), scope, aggregates), fields, err)
    decreases |p.tokens| - p.cur, 2
  {
    hide HeadAt, CastsAt, HintAt, EntryAt, NamePlace, LabelAt;
    fields, err := [], None;
    var token := p.LookAhead();
    if token == "" {
      token := p.Next();
      return;
    }
    var spread, alias, explicitAlias;
    spread, alias, explicitAlias, token := ItemStart(p);
    var field, cast, aggregate, aggCast;
    field, alias, cast, aggregate, err := FieldOrAggregate(p, token, alias, explicitAlias, aggregates);
    if err.Some? {
      return;
    }
    ghost var h := Head(field, alias, cast, aggregate);
    cast, aggCast, err := Casts(p, h, cast, aggregate);
    if err.Some? {
      return;
    }
    var fk, inner := Hint(p);
    fields, err := Entry(p, scope, aggregates, spread, h, Tail(cast, aggCast, fk, inner), field, alias, aggregate);
  }

  /** The spread operator, the label, and the token that is the name. */
  method ItemStart(p: PostgRestParser) returns (spread: bool, alias: string, explicitAlias: bool, token: string)
    requires p.Valid() && Peek(p.Stream(), p.cur) != ""
    modifies p`cur
    ensures p.Valid() && p.cur == After(p.Stream(), NamePlace(p.Stream(), old(p.cur))) && p.cur > old(p.cur)
    ensures token == Peek(p.Stream(), NamePlace(p.Stream(), old(p.cur))) && spread == (Peek(p.Stream(), old(p.cur)) == "...")
    ensures LabelAt(p.Stream(), old(p.cur)) == (if explicitAlias then Some(alias) else None) && (!explicitAlias ==> alias == "")
  {
    spread, alias, explicitAlias := false, "", false;
    token := p.Next();
    if token == "..." {
      spread := true;
      token := p.Next();
    }
    var ahead := p.LookAhead();
    if ahead == ":" {
      alias := token;
      explicitAlias := true;
      ahead := p.Next();
      token := p.Next();
    }
  }

  /** A column, or a relation with what is in its parentheses. */
  method Entry(p: PostgRestParser, scope: string, aggregates: bool, spread: bool, ghost h: Head, t: Tail,
               field: Field, alias: string, aggregate: string)
    returns (fields: seq<SelectField>, err: Option<string>)
    requires p.Valid() && p.cur > 0 && h.field == field && h.alias == alias && h.aggregate == aggregate
    modifies p`cur
    ensures p.Valid() && p.Reached(EntryAt(p.Stream(), old(p.cur), scope, aggregates, spread, h, t), fields, err)
    decreases |p.tokens| - p.cur, 1
  {
    hide InsideAt;
    fields, err := [], None;
    var ahead := p.LookAhead();
    if ahead != "(" && ahead != "()" {
      if spread {
        return [], Some("cannot use the spread operator on fields");
      }
      if field.name != "," {
        fields := [Selected(field.(tablename := scope), alias, t.cast, aggregate, t.aggCast)];
      } else {
        p.Back();
      }
      return;
    }
    if t.cast != "" {
      return [], Some("table cannot have cast");
    }
    if aggregate != "" {
      return [], Some("table cannot have aggregate function");
    }
    var inside;
    inside, err := Inside(p, field.name, aggregates);
    if err.None? {
      fields := [Embedded(alias, SelectRelation(field.name, scope, spread, t.inner, t.fk, inside))];
    }
  }

  /** "()" or '(' SelectList ')' */
  method Inside(p: PostgRestParser, name: string, aggregates: bool) returns (inside: seq<SelectField>, err: Option<string>)
    requires p.Valid() && (Peek(p.Stream(), p.cur) == "(" || Peek(p.Stream(), p.cur) == "()")
    modifies p`cur
    ensures p.Valid() && p.Reached(InsideAt(p.Stream(), old(p.cur), name, aggregates), inside, err)
    decreases |p.tokens| - p.cur, 0
  {
    hide SelectListAt;
    inside, err := [], None;
    var paren := p.Next();
    var ahead := p.LookAhead();
    if paren != "()" && ahead != ")" {
      inside, err := SelectList(p, name, aggregates);
      if err.Some? {
        return [], err;
      }
    }
    if paren == "(" {
      var token := p.Next();
      if token != ")" {
        return [], Some(") expected");
      }
    }
  }

  /** A bare aggregate, or a field with what may follow it; `token` has been read and is put back. */
  method FieldOrAggregate(p: PostgRestParser, token: string, alias: string, explicitAlias: bool, aggregates: bool)
    returns (field: Field, alias': string, cast: string, aggregate: string, err: Option<string>)
    requires p.Valid() && p.cur > 0 && (!explicitAlias ==> alias == "")
    modifies p`cur
    ensures p.Valid()
    ensures p.Reached(HeadAt(p.Stream(), old(p.cur), token, if explicitAlias then Some(alias) else None, aggregates),
                      Head(field, alias', cast, aggregate), err)
  {
    hide FieldHead, ToLower, ToUpper;
    var ahead := p.LookAhead();
    if !IsAggregate(token) || ahead != "()" {
      p.Back();
      field, alias', cast, aggregate, err := FieldAndAggregate(p, alias, explicitAlias, aggregates);
      return;
    }
    field, alias', cast, aggregate, err := NO_FIELD.(name := "*"), alias, "", "", None;
    if !aggregates {
      err := Some("Use of aggregate functions is not allowed");
      return;
    }
    ahead := p.Next();
    aggregate := ToUpper(token);
    if alias' == "" {
      alias' := ToLower(token);
    }
  }

  method FieldAndCast(p: PostgRestParser) returns (field: Field, cast: string, err: Option<string>)
    requires p.Valid() && p.cur < |p.tokens|
    modifies p`cur
    ensures p.Valid() && p.Reached(FieldCastAt(p.Stream(), old(p.cur)), (field, cast), err)
  {
    hide FieldAt;
    cast := "";
    field, err := p.ParseField(false, true);
    if err.Some? {
      return;
    }
    var ahead := p.LookAhead();
    if ahead == "::" {
      ahead := p.Next();
      cast := p.Next();
    }
  }

  /** A look at three tokens. */
  method LooksAtAggregate(p: PostgRestParser) returns (b: bool)
    requires p.Valid()
    ensures b == HasAggregate(p.Stream(), p.cur) && (b ==> p.cur + 2 < |p.tokens|)
  {
    hide IsAggregate;
    var ahead := p.LookAhead();
    b := ahead == "." && p.cur + 2 < |p.tokens| && IsAggregate(p.tokens[p.cur + 1]) && p.tokens[p.cur + 2] == "()";
  }

  method FieldAndAggregate(p: PostgRestParser, alias: string, explicitAlias: bool, aggregates: bool)
    returns (field: Field, alias': string, cast: string, aggregate: string, err: Option<string>)
    requires p.Valid() && p.cur < |p.tokens| && (!explicitAlias ==> alias == "")
    modifies p`cur
    ensures p.Valid()
    ensures p.Reached(FieldHead(p.Stream(), old(p.cur), if explicitAlias then Some(alias) else None, aggregates),
                      Head(field, alias', cast, aggregate), err)
  {
    hide FieldCastAt, HasAggregate, ToLower, ToUpper;
    alias', aggregate := alias, "";
    field, cast, err := FieldAndCast(p);
    if err.Some? {
      return;
    }
    if alias' == "" {
      alias' := field.last;
    }
    var isAggregate := LooksAtAggregate(p);
    if isAggregate {
      if !aggregates {
        err := Some("Use of aggregate functions is not allowed");
        return;
      }
      var ahead := p.Next();
      var name := p.Next();
      ahead := p.Next();
      aggregate := ToUpper(name);
      if !explicitAlias {
        alias' := ToLower(name);
      }
    }
  }

  /** The cast behind, of the aggregate if there is one. */
  method Casts(p: PostgRestParser, ghost h: Head, cast: string, aggregate: string)
    returns (cast': string, aggCast: string, err: Option<string>)
    requires p.Valid() && h.cast == cast && h.aggregate == aggregate
    modifies p`cur
    ensures p.Valid() && p.Reached(CastsAt(p.Stream(), old(p.cur), h), (cast', aggCast), err)
  {
    hide IsCastType;
    cast', aggCast, err := cast, "", None;
    var ahead := p.LookAhead();
    if ahead == "::" {
      ahead := p.Next();
      if aggregate != "" {
        aggCast := p.Next();
      } else {
        cast' := p.Next();
      }
    }
    if cast' != "" && !IsCastType(cast') {
      err := Some("invalid cast type: " + cast');
    } else if aggCast != "" && !IsCastType(aggCast) {
      err := Some("invalid cast type: " + aggCast);
    }
  }

  /** !inner, !left or !fk */
  method Hint(p: PostgRestParser) returns (fk: string, inner: bool)
    requires p.Valid()
    modifies p`cur
    ensures p.Valid() && (fk, inner, p.cur) == HintAt(p.Stream(), old(p.cur))
  {
    fk, inner := "", false;
    var ahead := p.LookAhead();
    if ahead == "!" {
      ahead := p.Next();
      fk := p.Next();
      if fk == "inner" {
        fk, inner := "", true;
      } else if fk == "left" {
        fk := "";
      }
    }
  }

  /** parseSelect: the whole list of a query string. */
  method ParseSelect(p: PostgRestParser, text: string, aggregates: bool) returns (fields: seq<SelectField>, err: Option<string>)
    requires p.Valid()
    modifies p
    ensures p.Valid() && p.Stream() == old(p.Stream()) + Scan(text, START, SELECT_SEP, SELECT_LONG)
    ensures p.Reached(SelectListAt(p.Stream(), old(p.cur), "", aggregates, []), fields, err)
  {
    hide SelectListAt, Scan;
    p.ScanText(text, SELECT_SEP, SELECT_LONG);
    fields, err := SelectList(p, "", aggregates);
  }
}
