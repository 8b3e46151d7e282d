/** The request parser as it runs: a token list with a cursor that every method moves, and
    condition nodes that are filled in place and hung under their parents. */
module FilterParser {
  import opened Sql
  import opened Filters
  import opened Scanner
  import opened FilterGrammar
  import opened WhereConditions

  function Zip(tokens: seq<string>, quoted: seq<bool>): (ts: seq<Token>)
    requires |tokens| == |quoted|
    ensures |ts| == |tokens|
    ensures forall i :: 0 <= i < |ts| ==> ts[i] == Token(tokens[i], quoted[i])
  {
    seq(|tokens|, i requires 0 <= i < |tokens| => Token(tokens[i], quoted[i]))
  }

  class PostgRestParser {
    var tokens: seq<string>
    var quoted: seq<bool>
    var cur: nat
    var depth: nat

    ghost predicate Valid()
      reads this
    {
      |tokens| == |quoted| && cur <= |tokens|
    }

    /** The two parallel lists seen as one. */
    ghost function Stream(): (ts: seq<Token>)
      requires |tokens| == |quoted|
      reads `tokens, `quoted
      ensures |ts| == |tokens|
    {
      Zip(tokens, quoted)
    }

    constructor ()
      ensures Valid() && Stream() == [] && cur == 0 && depth == 0
    {
      tokens, quoted, cur, depth := [], [], 0, 0;
    }

    method Reset()
      modifies this
      ensures Valid() && Stream() == [] && cur == 0 && depth == 0
    {
      tokens, quoted, cur, depth := [], [], 0, 0;
    }

    method AddToken(t: string, q: bool)
      requires Valid()
      modifies this
      ensures Valid() && Stream() == old(Stream()) + [Token(t, q)] && cur == old(cur) && depth == old(depth)
    {
      tokens := tokens + [t];
      quoted := quoted + [q];
    }

    /** scan: the byte loop with its two buffers and three flags. */
    method ScanText(s: string, sep: string, longSep: seq<string>)
      requires Valid()
      modifies this
      ensures Valid() && Stream() == old(Stream()) + Scan(s, START, sep, longSep)
      ensures cur == old(cur) && depth == old(depth)
    {
      hide ScanStep;
      var quot, esc, wasSep := false, false, true;
      var normal, text := "", "";
      var i := 0;
      while i < |s|
        invariant 0 <= i <= |s| && Valid() && cur == old(cur) && depth == old(depth)
        invariant Stream() + Scan(s[i..], ScanState(quot, esc, normal, text, wasSep), sep, longSep)
               == old(Stream()) + Scan(s, START, sep, longSep)
      {
        ghost var st := ScanState(quot, esc, normal, text, wasSep);
        ghost var before := Stream();
        ghost var (ts, st', n) := ScanStep(s[i..], st, sep, longSep);
        assert s[i..][n..] == s[i + n..];
        assert before + Scan(s[i..], st, sep, longSep) == before + ts + Scan(s[i + n..], st', sep, longSep);
        quot, esc, normal, text, wasSep, i := ScanByte(s, i, quot, esc, normal, text, wasSep, sep, longSep);
      }
      assert s[i..] == "";
      if |normal| != 0 {
        AddToken(normal, false);
      }
    }

    /** The body of that loop. */
    method ScanByte(s: string, i: nat, quot: bool, esc: bool, normal: string, text: string, wasSep: bool, sep: string, longSep: seq<string>)
      returns (quot': bool, esc': bool, normal': string, text': string, wasSep': bool, i': nat)
      requires Valid() && i < |s|
      modifies this
      ensures Valid() && cur == old(cur) && depth == old(depth)
      ensures var (ts, st', n) := ScanStep(s[i..], ScanState(quot, esc, normal, text, wasSep), sep, longSep);
        && Stream() == old(Stream()) + ts && ScanState(quot', esc', normal', text', wasSep') == st' && i' == i + n
    {
      quot', esc', normal', text', wasSep', i' := quot, esc, normal, text, wasSep, i + 1;
      var c := s[i];
      if !quot && !esc {
        if wasSep && c == ' ' {
          return;
        }
        if c == '\\' {
          esc' := true;
          return;
        }
        var l := FindLongSep(s, i, longSep);
        if l != "" {
          if |normal| != 0 {
            AddToken(normal, false);
            normal' := "";
          }
          AddToken(l, false);
          i' := i + |l|;
          wasSep' := true;
          return;
        }
        if c == '"' || c == '\'' {
          if |normal| != 0 {
            AddToken(normal, false);
            normal' := "";
          }
          quot', text', wasSep' := true, "", false;
        } else if c in sep {
          if |normal| != 0 {
            AddToken(normal, false);
            normal' := "";
          }
          AddToken([c], false);
          wasSep' := true;
        } else {
          normal', wasSep' := normal + [c], false;
        }
      } else if quot && !esc {
        if c == '"' || c == '\'' {
          quot' := false;
          AddToken(text, true);
          wasSep' := true;
        } else if c == '\\' {
          esc' := true;
        } else {
          text' := text + [c];
        }
      } else {
        esc' := false;
        if quot {
          text' := text + [c];
        } else {
          normal' := normal + [c];
        }
      }
    }

    method FindLongSep(s: string, i: nat, longSep: seq<string>) returns (l: string)
      requires i < |s|
      ensures l == LongSepAt(s[i..], longSep)
    {
      l := "";
      for k := 0 to |longSep|
        invariant LongSepAt(s[i..], longSep) == LongSepAt(s[i..], longSep[k..])
      {
        assert longSep[k..][1..] == longSep[k + 1..];
        if i + |longSep[k]| <= |s| && longSep[k] == s[i..i + |longSep[k]|] {
          assert longSep[k] <= s[i..];
          return longSep[k];
        }
      }
    }

    // ----- The cursor -----

    method Next() returns (t: string)
      requires Valid()
      modifies this`cur
      ensures Valid() && t == Peek(Stream(), old(cur)) && cur == After(Stream(), old(cur))
    {
      if cur == |tokens| {
        return "";
      }
      t := tokens[cur];
      cur := cur + 1;
    }

    method NextQuoted() returns (t: string, q: bool)
      requires Valid()
      modifies this`cur
      ensures Valid() && t == Peek(Stream(), old(cur)) && q == PeekQuoted(Stream(), old(cur)) && cur == After(Stream(), old(cur))
    {
      if cur == |tokens| {
        return "", false;
      }
      t, q := tokens[cur], quoted[cur];
      cur := cur + 1;
    }

    method Back()
      requires Valid()
      modifies this`cur
      ensures Valid() && cur == if old(cur) == 0 then 0 else old(cur) - 1
    {
      if cur != 0 {
        cur := cur - 1;
      }
    }

    method LookAhead() returns (t: string)
      requires Valid()
      ensures t == Peek(Stream(), cur)
    {
      if cur == |tokens| {
        return "";
      }
      t := tokens[cur];
    }

    // ----- Fields -----

    /** The outcome of a method that parses at the cursor: the function's result, with the cursor
        moved to the function's cursor when there is no error. */
    ghost predicate Reached<T>(r: Parsed<T>, value: T, err: Option<string>)
      reads this
    {
      match r
      case Ok(v, j) => err.None? && value == v && cur == j
      case Err(m) => err == Some(m)
    }

    method ParseField(mayHaveTable: bool, mayBeEmpty: bool) returns (f: Field, err: Option<string>)
      requires Valid()
      modifies this`cur
      ensures Valid() && Reached(FieldAt(Stream(), old(cur), mayHaveTable, mayBeEmpty), f, err)
    {
      hide TablePath, JsonMembers;
      f, err := NO_FIELD, None;
      var token := Next();
      if token == "" {
        if mayBeEmpty {
          token := "*";
        } else {
          return f, Some("field expected");
        }
      }
      var path := [];
      if mayHaveTable {
        path, token := ParseTablePath(token);
      }
      var jsonPath, last;
      jsonPath, last, err := ParseJsonPath();
      if err.None? {
        if jsonPath != "" && last == "" {
          last := token;
        }
        f := Field(token, if path != [] then path[|path| - 1] else "", path, jsonPath, last);
      }
    }

    method ParseTablePath(first: string) returns (path: seq<string>, token: string)
      requires Valid()
      modifies this`cur
      ensures Valid() && (path, token, cur) == TablePath(Stream(), old(cur), first, [])
    {
      path, token := [], first;
      var ahead := LookAhead();
      while ahead == "."
        invariant Valid() && ahead == Peek(Stream(), cur)
        invariant TablePath(Stream(), cur, token, path) == TablePath(Stream(), old(cur), first, [])
        decreases |tokens| - cur
      {
        path := path + [token];
        var dot := Next();
        token := Next();
        ahead := LookAhead();
      }
    }

    method ParseJsonPath() returns (path: string, last: string, err: Option<string>)
      requires Valid()
      modifies this`cur
      ensures Valid() && Reached(JsonMembers(Stream(), old(cur), "", ""), (path, last), err)
    {
      path, last, err := "", "", None;
      var token := LookAhead();
      while token == "->>" || token == "->"
        invariant Valid() && token == Peek(Stream(), cur)
        invariant JsonMembers(Stream(), cur, path, last) == JsonMembers(Stream(), old(cur), "", "")
        decreases |tokens| - cur
      {
        path := path + token;
        var arrow := Next();
        token := Next();
        if token == "" {
          return path, last, Some("json path member expected");
        }
        if IsInteger(token) {
          path := path + token;
        } else {
          path := path + QuoteLit(token);
          last := token;
        }
        token := LookAhead();
      }
    }

    // ----- Values -----

    method CompleteIfFloat() returns (tail: string)
      requires Valid()
      modifies this`cur
      ensures Valid() && tail == FloatTail(Stream(), old(cur)) && cur == AfterFloat(Stream(), old(cur))
    {
      tail := "";
      var ahead := LookAhead();
      if ahead == "." {
        var dot := Next();
        tail := Next();
        tail := dot + tail;
      }
    }

    method ParseBrackets(first: string) returns (value: string, err: Option<string>)
      requires Valid()
      modifies this`cur
      ensures Valid() && Reached(Brackets(Stream(), old(cur), 1, first), value, err)
    {
      value, err := first, None;
      var level: nat := 1;
      while level > 0
        invariant Valid()
        invariant Brackets(Stream(), cur, level, value) == Brackets(Stream(), old(cur), 1, first)
        decreases |tokens| - cur, level
      {
        var token, q := NextQuoted();
        if q {
          token := QuoteJsonString(token);
        } else if token == "(" || token == "[" {
          level := level + 1;
        } else if token == ")" || token == "]" {
          level := level - 1;
        } else if token == "" {
          return value, Some("')' or ']' expected");
        }
        var tail := CompleteIfFloat();
        value := value + token + tail;
      }
    }

    method ParseBraces(first: string) returns (value: string, err: Option<string>)
      requires Valid()
      modifies this`cur
      ensures Valid() && Reached(Braces(Stream(), old(cur), 1, first), value, err)
    {
      value, err := first, None;
      var level: nat := 1;
      while level > 0
        invariant Valid()
        invariant Braces(Stream(), cur, level, value) == Braces(Stream(), old(cur), 1, first)
        decreases |tokens| - cur, level
      {
        var token, q := NextQuoted();
        if q {
          token := QuoteJsonString(token);
        } else if token == "{" {
          level := level + 1;
        } else if token == "}" {
          level := level - 1;
        } else if token == "" {
          return value, Some("'}' expected");
        } else if token == "true" || token == "false" || token == "null" {
          // bare JSON literals stay bare
        } else if IsLetter(token[0]) {
          token := QuoteJsonString(token);
        }
        var tail := CompleteIfFloat();
        value := value + token + tail;
      }
    }

    /** One value; none for the empty IN list, whose parenthesis is left to the caller. */
    method ParseOneValue(operator: string, jsonPath: string) returns (vs: seq<string>, err: Option<string>)
      requires Valid()
      modifies this`cur
      ensures Valid() && Reached(ValueAt(Stream(), old(cur), operator, jsonPath), vs, err)
    {
      hide Brackets, Braces, LastIndex;
      vs, err := [], None;
      var token, q := NextQuoted();
      if token == "" && !q {
        return [], Some("value expected");
      }
      if token == ")" && !q {
        Back();
        return;
      }
      var value := token;
      if !q && (token == "(" || token == "[") {
        value, err := ParseBrackets(token);
      } else if !q && token == "{" {
        value, err := ParseBraces(token);
      } else if q {
        if IsJsonTyped(jsonPath) {
          value := QuoteJsonString(value);
        }
      } else {
        var lvalue := ToLower(value);
        if lvalue == "null" || lvalue == "true" || lvalue == "false" || lvalue == "unknown" {
          value := lvalue;
        } else if lvalue == "not_null" {
          value := "not_null";
        } else if operator == "IS" {
          return [], Some("IS operator requires null, not_null, true, false or unknown");
        } else {
          var tail := CompleteIfFloat();
          value := value + tail;
        }
      }
      if err.None? {
        if operator == "LIKE" || operator == "ILIKE" {
          value := StarsToPercent(value);
        }
        vs := [value];
      }
    }

    /** value: appends to the node. */
    method ParseValue(node: WhereConditionNode) returns (err: Option<string>)
      requires Valid() && node.Valid() && this !in node.Repr
      modifies this`cur, node`values, node`tree
      ensures Valid() && node.Valid() && node.Repr == old(node.Repr)
      ensures match ValueAt(Stream(), old(cur), node.operator, node.field.jsonPath)
        case Ok(vs, j) => err.None? && cur == j && node.tree == old(node.tree).(values := old(node.tree).values + vs)
        case Err(m) => err == Some(m)
    {
      hide ValueAt;
      var vs;
      vs, err := ParseOneValue(node.operator, node.field.jsonPath);
      if err.None? {
        node.AddValues(vs);
      }
    }

    /** The loop shared by IN lists and any/all lists, with its brackets. */
    method ParseClosedList(node: WhereConditionNode, open: string, close: string) returns (err: Option<string>)
      requires Valid() && node.Valid() && this !in node.Repr && node.values == []
      modifies this`cur, node`values, node`tree
      ensures Valid() && node.Valid() && node.Repr == old(node.Repr)
      ensures match ClosedList(Stream(), old(cur), open, close, node.operator, node.field.jsonPath)
        case Ok(vs, j) => err.None? && cur == j && node.tree == old(node.tree).(values := vs)
        case Err(m) => err == Some(m)
    {
      hide ValueList;
      var token := Next();
      if token != open {
        return Some("'" + open + "' expected");
      }
      token, err := ParseValues(node);
      if err.None? && token != close {
        err := Some("'" + close + "' expected");
      }
    }

    method ParseValues(node: WhereConditionNode) returns (token: string, err: Option<string>)
      requires Valid() && node.Valid() && this !in node.Repr
      modifies this`cur, node`values, node`tree
      ensures Valid() && node.Valid() && node.Repr == old(node.Repr)
      ensures match ValueList(Stream(), old(cur), node.operator, node.field.jsonPath, old(node.values))
        case Ok((vs, end), j) => err.None? && cur == j && token == end && node.tree == old(node.tree).(values := vs)
        case Err(m) => err == Some(m)
    {
      hide ValueAt;
      ghost var t0 := node.tree;
      while true
        invariant Valid() && node.Valid() && node.Repr == old(node.Repr)
        invariant node.tree == t0.(values := node.values)
        invariant ValueList(Stream(), cur, node.operator, node.field.jsonPath, node.values)
               == ValueList(Stream(), old(cur), node.operator, node.field.jsonPath, old(node.values))
        decreases |tokens| - cur
      {
        err := ParseValue(node);
        if err.Some? {
          return "", err;
        }
        token := Next();
        if token != "," {
          return token, None;
        }
      }
    }

    // ----- Comparisons -----

    method ParseFtsArgs() returns (args: seq<string>, token: string)
      requires Valid()
      modifies this`cur
      ensures Valid() && (args, token, cur) == FtsArgs(Stream(), old(cur), [])
    {
      args := [];
      while true
        invariant Valid() && FtsArgs(Stream(), cur, args) == FtsArgs(Stream(), old(cur), [])
        decreases |tokens| - cur
      {
        var arg := Next();
        args := args + [arg];
        token := Next();
        if token != "," {
          break;
        }
      }
    }

    /** What follows the operator's name, up to the token that tells whether values follow. */
    method ParseSuffix(op: string) returns (opArgs: seq<string>, opModifier: string, token: string, err: Option<string>)
      requires Valid()
      modifies this`cur
      ensures Valid()
      ensures match SuffixAt(Stream(), old(cur), op)
        case Ok(suffix, j) => err.None? && suffix == Suffix(opArgs, opModifier) && token == Peek(Stream(), j) && cur == After(Stream(), j)
        case Err(m) => err == Some(m)
    {
      hide FtsArgs;
      opArgs, opModifier, err := [], "", None;
      token := Next();
      if token == "(" {
        if op == "@@" {
          opArgs, token := ParseFtsArgs();
          if token != ")" {
            return opArgs, "", token, Some("')' expected");
          }
        } else {
          opModifier := Next();
          if opModifier != "any" && opModifier != "all" {
            return [], "", token, Some("'any' or 'all' expected");
          }
          token := Next();
          if token != ")" {
            return [], "", token, Some("')' expected");
          }
        }
        token := Next();
      }
    }

    /** The values after the dot, if there is one. */
    method ParseOperands(node: WhereConditionNode, token: string, ghost j: nat) returns (err: Option<string>)
      requires Valid() && node.Valid() && this !in node.Repr && node.values == []
      requires j <= |tokens| && token == Peek(Stream(), j) && cur == After(Stream(), j)
      modifies this`cur, node`values, node`tree
      ensures Valid() && node.Valid() && node.Repr == old(node.Repr)
      ensures match OperandsAt(Stream(), j, node.operator, node.opModifier, node.field.jsonPath)
        case Ok(vs, k) => err.None? && cur == k && node.tree == old(node.tree).(values := vs)
        case Err(m) => err == Some(m)
    {
      hide ClosedList, ValueAt;
      err := None;
      if token == "." {
        if node.operator == "IN" {
          err := ParseClosedList(node, "(", ")");
        } else if node.opModifier != "" {
          err := ParseClosedList(node, "{", "}");
        } else {
          err := ParseValue(node);
        }
      }
    }

    /** op[(...)][.values], into a node that so far has its field. */
    method ParseNamedOperation(node: WhereConditionNode) returns (err: Option<string>)
      requires Valid() && node.Valid() && this !in node.Repr
      requires node.tree == ROOT.(field := node.field, not := node.not)
      modifies this`cur, node`operator, node`opSource, node`opArgs, node`opModifier, node`values, node`tree
      ensures Valid() && node.Valid() && node.Repr == old(node.Repr)
      ensures match NamedOperation(Stream(), old(cur), node.not, node.field)
        case Ok(n, j) => err.None? && cur == j && node.tree == n
        case Err(m) => err == Some(m)
    {
      hide SqlOperator, SuffixAt, OperandsAt;
      var token := Next();
      var op := SqlOperator(token);
      if op.None? {
        return Some("valid sql operator expected");
      }
      node.operator := op.value;
      node.opSource := token;
      ghost var j := cur;
      node.opArgs, node.opModifier, token, err := ParseSuffix(op.value);
      node.Sync();
      if err.None? {
        j := SuffixAt(Stream(), j, op.value).cur;
        err := ParseOperands(node, token, j);
      }
    }

    /** Separator, [not.]operation */
    method ParseOperation(node: WhereConditionNode, nextSep: string) returns (err: Option<string>)
      requires Valid() && node.Valid() && this !in node.Repr && node.tree == ROOT.(field := node.field)
      modifies this`cur, node`not, node`operator, node`opSource, node`opArgs, node`opModifier, node`values, node`tree
      ensures Valid() && node.Valid() && node.Repr == old(node.Repr)
      ensures match OperationAt(Stream(), old(cur), nextSep, node.field)
        case Ok(n, j) => err.None? && cur == j && node.tree == n
        case Err(m) => err == Some(m)
    {
      hide NamedOperation;
      var token := Next();
      if token != nextSep {
        return Some("'=' expected");
      }
      token := LookAhead();
      if token == "not" {
        token := Next();
        node.not := true;
        node.Sync();
        token := Next();
        if token != "." {
          return Some("'.' expected");
        }
      }
      err := ParseNamedOperation(node);
    }

    /** The comparison branch of cond. */
    method ParseComparison(mainTable: string, parent: WhereConditionNode, node: WhereConditionNode) returns (err: Option<string>)
      requires Valid() && node.Valid() && this !in node.Repr && node.tree == ROOT
      requires parent.Valid() && parent !in node.Repr && node !in parent.Repr && this !in parent.Repr
      modifies this`cur, node
      ensures Valid() && node.Valid() && node.Repr == old(node.Repr) && parent.Valid()
      ensures match ComparisonAt(Stream(), old(cur), mainTable, parent.tree)
        case Ok(n, j) => err.None? && cur == j && node.tree == n
        case Err(m) => err == Some(m)
    {
      hide FieldAt, OperationAt;
      var isRoot := parent.operator == "" && parent.field.name == "";
      var f;
      f, err := ParseField(isRoot, false);
      if err.Some? {
        return err;
      }
      if f.tablename == "" {
        if parent.field.tablename != "" {
          f := f.(tablename := parent.field.tablename, relPath := parent.field.relPath);
        } else {
          f := f.(tablename := mainTable);
        }
      }
      node.field := f;
      node.Sync();
      err := ParseOperation(node, if isRoot then "=" else ".");
    }

    // ----- Boolean operators -----

    method ParseBooleanTable() returns (path: seq<string>, err: Option<string>)
      requires Valid()
      modifies this`cur
      ensures Valid() && Reached(BooleanTable(Stream(), old(cur), []), path, err)
    {
      path, err := [], None;
      while true
        invariant Valid() && BooleanTable(Stream(), cur, path) == BooleanTable(Stream(), old(cur), [])
        decreases |tokens| - cur
      {
        var token := LookAhead();
        if IsBooleanOpStrict(token) {
          break;
        }
        token := Next();
        path := path + [token];
        token := Next();
        if token != "." {
          return path, Some("'.' expected");
        }
      }
    }

    method ParseBooleanHead(node: WhereConditionNode) returns (err: Option<string>)
      requires Valid() && node.Valid() && this !in node.Repr && node.children == [] && !node.not
      modifies this`cur, node`not, node`operator, node`tree
      ensures Valid() && node.Valid() && node.Repr == old(node.Repr)
      ensures match BooleanHead(Stream(), old(cur), old(node.tree))
        case Ok(n, j) => err.None? && cur == j && node.tree == n
        case Err(m) => err == Some(m)
    {
      var token := Next();
      if token == "not" {
        node.not := true;
        node.Sync();
        token := Next();
        if token != "." {
          return Some("'.' expected");
        }
        token := Next();
      }
      if token != "and" && token != "or" {
        return Some("boolean operator expected");
      }
      node.operator := if token == "and" then "AND" else "OR";
      node.Sync();
      token := Next();
      if token != "(" {
        return Some("'(' expected");
      }
      err := None;
    }

    /** booleanOp: fills the node with the operator and its members. */
    method ParseBooleanOp(table: string, node: WhereConditionNode) returns (err: Option<string>)
      requires Valid() && node.Valid() && this !in node.Repr && node.children == [] && !node.not
      modifies this`cur, this`depth, node
      ensures Valid() && depth == old(depth)
      ensures match BooleanAt(Stream(), old(cur), depth, table, old(node.tree))
        case Ok(n, j) => err.None? && cur == j && node.Valid() && node.tree == n && fresh(node.Repr - old(node.Repr)) && this !in node.Repr
        case Err(m) => err == Some(m)
      decreases |tokens| - cur, 0
    {
      hide BooleanHead, MembersAt;
      err := ParseBooleanHead(node);
      if err.None? {
        err := ParseMembers(table, node);
      }
    }

    /** The comma-separated members up to the closing parenthesis. */
    method ParseMembers(table: string, node: WhereConditionNode) returns (err: Option<string>)
      requires Valid() && node.Valid() && this !in node.Repr
      modifies this`cur, this`depth, node`children, node`tree, node`Repr
      ensures Valid() && depth == old(depth)
      ensures match MembersAt(Stream(), old(cur), depth, table, old(node.tree))
        case Ok(n, j) => err.None? && cur == j && node.Valid() && node.tree == n && fresh(node.Repr - old(node.Repr)) && this !in node.Repr
        case Err(m) => err == Some(m)
      decreases |tokens| - cur, 5
    {
      hide CondAt, MembersAt;
      ghost var goal := MembersAt(Stream(), cur, depth, table, node.tree);
      var token;
      token, err := ParseMember(table, node, goal);
      while err.None? && token == ","
        invariant Valid() && depth == old(depth)
        invariant err.None? ==> node.Valid() && this !in node.Repr && fresh(node.Repr - old(node.Repr)) && cur > old(cur)
        invariant AfterMember(token, err, table, node, goal)
        decreases if err.None? then |tokens| - cur + 1 else 0
      {
        token, err := ParseMember(table, node, goal);
      }
      if err.None? && token != ")" {
        err := Some("')' expected");
      }
    }

    /** What is left to do for the group once a member and the token behind it have been read. */
    ghost predicate AfterMember(token: string, err: Option<string>, table: string, node: WhereConditionNode, goal: Parsed<Node>)
      requires Valid()
      reads this, node`tree
    {
      match err
      case Some(m) => goal == Err(m)
      case None =>
        if token == "," then goal == MembersAt(Stream(), cur, depth, table, node.tree)
        else if token == ")" then goal == Ok(node.tree, cur)
        else goal == Err("')' expected")
    }

    /** One member and the token behind it. */
    method ParseMember(table: string, node: WhereConditionNode, ghost goal: Parsed<Node>) returns (token: string, err: Option<string>)
      requires Valid() && node.Valid() && this !in node.Repr
      requires goal == MembersAt(Stream(), cur, depth, table, node.tree)
      modifies this`cur, this`depth, node`children, node`tree, node`Repr
      ensures Valid() && depth == old(depth)
      ensures err.None? ==> node.Valid() && this !in node.Repr && fresh(node.Repr - old(node.Repr)) && cur > old(cur)
      ensures AfterMember(token, err, table, node, goal)
      decreases |tokens| - cur, 4
    {
      hide CondAt;
      token := "";
      err := ParseCond(table, node);
      if err.None? {
        ghost var j := cur;
        token := Next();
        assert token == Peek(Stream(), j);
      }
    }

    /** cond: parses one condition and hangs it under parent. */
    method ParseCond(mainTable: string, parent: WhereConditionNode) returns (err: Option<string>)
      requires Valid() && parent.Valid() && this !in parent.Repr
      modifies this`cur, this`depth, parent`children, parent`tree, parent`Repr
      ensures Valid() && depth == old(depth)
      ensures parent.Valid() && fresh(parent.Repr - old(parent.Repr)) && this !in parent.Repr
      ensures match CondAt(Stream(), old(cur), depth, mainTable, old(parent.tree))
        case Ok(n, j) => err.None? && cur == j && parent.tree == old(parent.tree).(children := old(parent.tree).children + [n])
        case Err(m) => err == Some(m) && parent.tree == old(parent.tree)
      decreases |tokens| - cur, 3
    {
      depth := depth + 1;
      if depth > MAX_FILTER_DEPTH {
        depth := depth - 1;
        return Some("filter nesting too deep");
      }
      hide CondAt;
      var node := new WhereConditionNode();
      err := ParseCondInto(mainTable, parent, node);
      depth := depth - 1;
      if err.None? {
        parent.AddChild(node);
      }
    }

    /** The branches of cond, which fill the fresh node. */
    method ParseCondInto(mainTable: string, parent: WhereConditionNode, node: WhereConditionNode) returns (err: Option<string>)
      requires Valid() && 1 <= depth <= MAX_FILTER_DEPTH && node.Valid() && this !in node.Repr && node.tree == ROOT
      requires parent.Valid() && parent !in node.Repr && node !in parent.Repr && this !in parent.Repr
      modifies this`cur, this`depth, node
      ensures Valid() && depth == old(depth) && parent.Valid()
      ensures match CondAt(Stream(), old(cur), depth - 1, mainTable, parent.tree)
        case Ok(n, j) => err.None? && cur == j && node.Valid() && node.tree == n && fresh(node.Repr - old(node.Repr)) && this !in node.Repr
        case Err(m) => err == Some(m)
      decreases |tokens| - cur, 2
    {
      hide ComparisonAt, BooleanAt, BooleanTable;
      var token := LookAhead();
      if token == BOOLEAN_LATER {
        err := ParseEmbeddedGroup(mainTable, parent.tree, node);
      } else if IsBooleanOpStrict(token) {
        node.field := NO_FIELD.(tablename := mainTable);
        node.Sync();
        err := ParseBooleanOp(mainTable, node);
      } else {
        err := ParseComparison(mainTable, parent, node);
      }
    }

    /** The branch of a boolean operator behind a table path. */
    method ParseEmbeddedGroup(mainTable: string, ghost parent: Node, node: WhereConditionNode) returns (err: Option<string>)
      requires Valid() && 1 <= depth <= MAX_FILTER_DEPTH && node.Valid() && this !in node.Repr && node.tree == ROOT
      requires Peek(Stream(), cur) == BOOLEAN_LATER
      modifies this`cur, this`depth, node
      ensures Valid() && depth == old(depth)
      ensures match CondAt(Stream(), old(cur), depth - 1, mainTable, parent)
        case Ok(n, j) => err.None? && cur == j && node.Valid() && node.tree == n && fresh(node.Repr - old(node.Repr)) && this !in node.Repr
        case Err(m) => err == Some(m)
      decreases |tokens| - cur, 1
    {
      hide BooleanAt, BooleanTable;
      var token := Next();
      token := Next();
      var path;
      path, err := ParseBooleanTable();
      if err.None? {
        if path == [] {
          path := [mainTable];
        }
        var table := path[|path| - 1];
        node.field := NO_FIELD.(tablename := table, relPath := path);
        node.Sync();
        err := ParseBooleanOp(table, node);
      }
    }

    /** parseWhereCondition: one key and value of the query string, parsed into the root. */
    method ParseWhereCondition(mainTable: string, key: string, value: string, root: WhereConditionNode) returns (err: Option<string>)
      requires root.Valid() && root.tree == ROOT.(children := root.tree.children) && this !in root.Repr
      modifies this, root`children, root`tree, root`Repr
      ensures Valid() && depth == 0 && root.Valid() && fresh(root.Repr - old(root.Repr)) && this !in root.Repr
      ensures match CondAt(ScanCondition(key, value), 0, 0, mainTable, old(root.tree))
        case Ok(n, j) => err.None? && root.tree == old(root.tree).(children := old(root.tree).children + [n])
        case Err(m) => err == Some(m) && root.tree == old(root.tree)
    {
      hide CondAt;
      Reset();
      var text := value;
      if HasBooleanOp(key) {
        if IsBooleanOp(key) {
          text := key + value;
        } else {
          text := BOOLEAN_LATER + "." + key + value;
        }
      } else {
        text := key + "=" + value;
      }
      ScanText(text, SEP, LONG_SEP);
      assert Stream() == ScanCondition(key, value);
      err := ParseCond(mainTable, root);
    }
  }
}
