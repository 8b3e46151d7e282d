/** Rows in CSV (database/textserializer.go, appendField, fieldNeedsQuotes and the CSV Serialize).
    A character stands for a byte. */
module Csv {
  import opened Sql
  import JsonText
  import opened Sequences

  // ----- Fields -----

  /** unicode.IsSpace */
  predicate IsSpaceRune(code: int) {
    || 9 <= code <= 13 || code == 0x20 || code == 0x85 || code == 0xA0 || code == 0x1680 || 0x2000 <= code <= 0x200A
    || code == 0x2028 || code == 0x2029 || code == 0x202F || code == 0x205F || code == 0x3000
  }

  predicate IsSpecial(c: char) { c == '\n' || c == '\r' || c == '"' || c == ',' }

  predicate NeedsQuotes(s: string) {
    && s != ""
    && (s == "\\." || (exists i :: 0 <= i < |s| && IsSpecial(s[i])) || match JsonText.DecodeRune(s)
          case Rune(code, _) => IsSpaceRune(code)
          case Invalid => false)
  }

  /** Every quote doubled. */
  function Doubled(s: string): string {
    if s == "" then "" else (if s[0] == '"' then "\"\"" else [s[0]]) + Doubled(s[1..])
  }

  function Field(s: string): string { if NeedsQuotes(s) then "\"" + Doubled(s) + "\"" else s }

  /** Quotes are written around what needs them: a comma, a quote or a line end in it, a blank in
      front, or the end mark of COPY. Nothing is changed where none of it is. */
  lemma QuotedWhereNeeded(s: string)
    ensures Field("") == ""
    ensures s != "" && '!' <= s[0] <= '~' && s != "\\." && (forall i :: 0 <= i < |s| ==> s[i] !in ",\"\n\r") ==> Field(s) == s
    ensures s != "" && (s[0] == ' ' || s[0] == '\t' || s == "\\." || exists i :: 0 <= i < |s| && s[i] in ",\"\n\r") ==>
      Field(s)[0] == '"' && Field(s)[|Field(s)| - 1] == '"' && |Field(s)| >= |s| + 2
  {
    DoubledLength(s);
    assert ",\"\n\r"[0] == ',' && ",\"\n\r"[1] == '"' && ",\"\n\r"[2] == '\n' && ",\"\n\r"[3] == '\r';
  }

  lemma {:induction false} DoubledLength(s: string)
    ensures |Doubled(s)| >= |s|
  {
    if s != "" {
      DoubledLength(s[1..]);
    }
  }

  method FieldNeedsQuotes(field: string) returns (b: bool)
    ensures b == NeedsQuotes(field)
  {
    if field == "" {
      return false;
    }
    if field == "\\." {
      return true;
    }
    for i := 0 to |field|
      invariant forall j :: 0 <= j < i ==> !IsSpecial(field[j])
    {
      var c := field[i];
      if c == '\n' || c == '\r' || c == '"' || c == ',' {
        return true;
      }
    }
    var r1 := JsonText.DecodeRune(field);
    return r1.Rune? && IsSpaceRune(r1.code);
  }

  /** strings.IndexByte(field, '"'), or the length. */
  method IndexQuote(field: string) returns (i: nat)
    ensures i <= |field| && (forall j :: 0 <= j < i ==> field[j] != '"') && (i < |field| ==> field[i] == '"')
  {
    i := 0;
    while i < |field| && field[i] != '"'
      invariant i <= |field| && forall j :: 0 <= j < i ==> field[j] != '"'
    {
      i := i + 1;
    }
  }

  /** appendField */
  method AppendField(buf: string) returns (out: string)
    ensures out == Field(buf)
  {
    hide NeedsQuotes, Doubled;
    var quotes := FieldNeedsQuotes(buf);
    if !quotes {
      return buf;
    }
    out := "\"";
    var field := buf;
    while |field| > 0
      invariant out + Doubled(field) == "\"" + Doubled(buf)
      decreases |field|
    {
      var i := IndexQuote(field);
      DoubledStep(out, field, i);
      out := out + field[..i];
      field := field[i..];
      if |field| > 0 {
        out := out + "\"\"";
        field := field[1..];
      }
    }
    DoubledEnd(out);
    out := out + "\"";
  }

  lemma DoubledEnd(out: string)
    ensures out + Doubled("") == out
  {
  }

  /** What stands before the next quote, and the quote. */
  lemma DoubledStep(out: string, s: string, i: nat)
    requires i <= |s| && (forall j :: 0 <= j < i ==> s[j] != '"') && (i < |s| ==> s[i] == '"')
    ensures out + Doubled(s) == if i < |s| then out + s[..i] + "\"\"" + Doubled(s[i..][1..]) else out + s[..i] + Doubled(s[i..])
  {
    hide Doubled;
    DoubledRun(s, i);
    Regroup(out, s[..i], Doubled(s[i..]));
    if i < |s| {
      DoubledQuote(s[i..]);
      Regroup(out + s[..i], "\"\"", Doubled(s[i..][1..]));
    }
  }

  lemma DoubledQuote(s: string)
    requires s != "" && s[0] == '"'
    ensures Doubled(s) == "\"\"" + Doubled(s[1..])
  {
  }

  lemma {:induction false} DoubledRun(s: string, i: nat)
    requires i <= |s| && forall j :: 0 <= j < i ==> s[j] != '"'
    ensures Doubled(s) == s[..i] + Doubled(s[i..])
  {
    if i > 0 {
      DoubledRun(s[1..], i - 1);
      assert s[1..][i - 1..] == s[i..] && [s[0]] + s[1..][..i - 1] == s[..i];
    } else {
      assert s[0..] == s;
    }
  }

  // ----- Documents -----

  function Record(fields: seq<string>): string {
    if fields == [] then "" else if |fields| == 1 then Field(fields[0])
    else Record(fields[..|fields| - 1]) + "," + Field(fields[|fields| - 1])
  }

  function Lines(rows: seq<seq<string>>): string {
    if rows == [] then "" else if |rows| == 1 then Record(rows[0])
    else Lines(rows[..|rows| - 1]) + "\n" + Record(rows[|rows| - 1])
  }

  /** What a value shows: NULL is printed as nothing. */
  function Shown(v: Option<string>): string { match v case Some(s) => s case None => "" }

  function ShownRow(row: seq<Option<string>>): (r: seq<string>)
    ensures |r| == |row|
  {
    seq(|row|, i requires 0 <= i < |row| => Shown(row[i]))
  }

  function ShownRows(rows: seq<seq<Option<string>>>): (r: seq<seq<string>>)
    ensures |r| == |rows|
  {
    seq(|rows|, i requires 0 <= i < |rows| => ShownRow(rows[i]))
  }

  function Document(names: seq<string>, rows: seq<seq<Option<string>>>): string {
    Record(names) + "\n" + Lines(ShownRows(rows))
  }

  method PrintRecord(fields: seq<string>) returns (out: string)
    ensures out == Record(fields)
  {
    out := "";
    for i := 0 to |fields|
      invariant out == Record(fields[..i])
    {
      assert fields[..i + 1][..i] == fields[..i];
      if i > 0 {
        out := out + ",";
      }
      var f := AppendField(fields[i]);
      out := out + f;
    }
    assert fields[..|fields|] == fields;
  }

  /** appendType, for the values of text columns. */
  method AppendValue(v: Option<string>) returns (out: string)
    ensures out == Field(Shown(v))
  {
    match v
    case None => out := "";
    case Some(s) => out := AppendField(s);
  }

  method PrintRow(row: seq<Option<string>>) returns (out: string)
    ensures out == Record(ShownRow(row))
  {
    out := "";
    ghost var fields := ShownRow(row);
    for i := 0 to |row|
      invariant out == Record(fields[..i])
    {
      assert fields[..i + 1][..i] == fields[..i];
      if i > 0 {
        out := out + ",";
      }
      var f := AppendValue(row[i]);
      out := out + f;
    }
    assert fields[..|fields|] == fields;
  }

  lemma NextLine(shown: seq<seq<string>>)
    ensures Lines(shown[..0]) == "" && shown[..|shown|] == shown
    ensures forall i :: 0 <= i < |shown| ==>
      Lines(shown[..i + 1]) == if i == 0 then Record(shown[i]) else Lines(shown[..i]) + "\n" + Record(shown[i])
  {
    hide Record;
    forall i | 0 <= i < |shown|
      ensures Lines(shown[..i + 1]) == if i == 0 then Record(shown[i]) else Lines(shown[..i]) + "\n" + Record(shown[i])
    {
      assert shown[..i + 1][..i] == shown[..i];
    }
  }

  /** Serialize: the names, then the rows, with line feeds between them. */
  method Serialize(names: seq<string>, rows: seq<seq<Option<string>>>) returns (out: string)
    ensures out == Document(names, rows)
  {
    hide Record, ShownRow, Lines;
    NextLine(ShownRows(rows));
    var head := PrintRecord(names);
    out := head + "\n";
    ghost var shown := ShownRows(rows);
    for count := 0 to |rows|
      invariant out == head + "\n" + Lines(shown[..count])
    {
      if count > 0 {
        out := out + "\n";
      }
      var r := PrintRow(rows[count]);
      out := out + r;
    }
    assert shown[..|shown|] == shown;
  }

  // ----- Reading (section 2 of RFC 4180, with bare line feeds) -----

  datatype Read<T> = Read(value: T, rest: string) | Malformed

  predicate Ends(t: string) { t == "" || t[0] == ',' || t[0] == '\n' }

  /** A quoted field, from behind its opening quote. */
  function ReadQuoted(t: string): (r: Read<string>)
    ensures r.Read? ==> |r.rest| < |t|
  {
    if t == "" then Malformed
    else if t[0] != '"' then
      match ReadQuoted(t[1..]) case Read(s, rest) => Read([t[0]] + s, rest) case Malformed => Malformed
    else if |t| >= 2 && t[1] == '"' then
      match ReadQuoted(t[2..]) case Read(s, rest) => Read("\"" + s, rest) case Malformed => Malformed
    else Read("", t[1..])
  }

  function ReadPlain(t: string): (r: Read<string>)
    ensures r.Read? ==> |r.rest| <= |t|
  {
    if Ends(t) then Read("", t)
    else if IsSpecial(t[0]) then Malformed
    else match ReadPlain(t[1..]) case Read(s, rest) => Read([t[0]] + s, rest) case Malformed => Malformed
  }

  function ReadField(t: string): (r: Read<string>)
    ensures r.Read? ==> |r.rest| <= |t|
  {
    if t != "" && t[0] == '"' then ReadQuoted(t[1..]) else ReadPlain(t)
  }

  function ReadRecord(t: string): (r: Read<seq<string>>)
    ensures r.Read? ==> |r.rest| <= |t| && (r.rest == "" || r.rest[0] == '\n')
    decreases |t|
  {
    match ReadField(t)
    case Malformed => Malformed
    case Read(f, rest) =>
      if rest == "" || rest[0] == '\n' then Read([f], rest)
      else if rest[0] != ',' then Malformed
      else match ReadRecord(rest[1..]) case Read(fs, more) => Read([f] + fs, more) case Malformed => Malformed
  }

  /** All records; the last one may or may not have a line break behind it. */
  function ReadAll(t: string): Option<seq<seq<string>>>
    decreases |t|
  {
    if t == "" then Some([])
    else match ReadRecord(t)
      case Malformed => None
      case Read(fs, rest) =>
        if rest == "" then Some([fs])
        else match ReadAll(rest[1..]) case Some(more) => Some([fs] + more) case None => None
  }

  // ----- Round trips -----

  lemma {:induction false} QuotedIsRead(s: string, t: string)
    requires Ends(t)
    ensures ReadQuoted(Doubled(s) + "\"" + t) == Read(s, t)
  {
    hide Doubled;
    DoubledHead(s, t);
    if s == "" {
      assert ("\"" + t)[1..] == t;
    } else {
      var more := Doubled(s[1..]) + "\"" + t;
      QuotedIsRead(s[1..], t);
      assert if s[0] == '"' then ("\"\"" + more)[2..] == more else ([s[0]] + more)[1..] == more;
      assert [s[0]] + s[1..] == s;
    }
  }

  lemma DoubledHead(s: string, t: string)
    ensures s == "" ==> Doubled(s) + "\"" + t == "\"" + t
    ensures s != "" ==> Doubled(s) + "\"" + t == (if s[0] == '"' then "\"\"" else [s[0]]) + (Doubled(s[1..]) + "\"" + t)
  {
  }

  lemma {:induction false} PlainIsRead(s: string, t: string)
    requires Ends(t) && forall i :: 0 <= i < |s| ==> !IsSpecial(s[i])
    ensures ReadPlain(s + t) == Read(s, t)
  {
    if s == "" {
      assert s + t == t;
    } else {
      assert (s + t)[1..] == s[1..] + t;
      PlainIsRead(s[1..], t);
      assert [s[0]] + s[1..] == s;
    }
  }

  /** Every byte string is read back, whatever it contains. */
  lemma FieldIsReadBack(s: string, t: string)
    requires Ends(t)
    ensures ReadField(Field(s) + t) == Read(s, t)
  {
    if NeedsQuotes(s) {
      QuotedIsRead(s, t);
      assert Field(s) + t == "\"" + (Doubled(s) + "\"" + t);
      assert ("\"" + (Doubled(s) + "\"" + t))[1..] == Doubled(s) + "\"" + t;
    } else {
      PlainIsRead(s, t);
      assert s != "" ==> (s + t)[0] == s[0] && !IsSpecial(s[0]);
    }
  }

  lemma {:induction false} RecordHead(fields: seq<string>)
    requires |fields| > 1
    ensures Record(fields) == Field(fields[0]) + ("," + Record(fields[1..]))
  {
    hide Field;
    var k := |fields| - 1;
    assert fields[1..][..k - 1] == fields[..k][1..];
    if k > 1 {
      RecordHead(fields[..k]);
      assert Record(fields) == Field(fields[0]) + ("," + Record(fields[..k][1..])) + "," + Field(fields[k]);
    }
  }

  lemma OneOfEach(fields: seq<string>, rows: seq<seq<string>>)
    ensures |fields| == 1 ==> Record(fields) == Field(fields[0])
    ensures |rows| == 1 ==> Lines(rows) == Record(rows[0])
    ensures Lines([]) == ""
  {
  }

  /** A record reads back as its fields. */
  lemma {:induction false} RecordIsReadBack(fields: seq<string>, t: string)
    requires fields != [] && (t == "" || t[0] == '\n')
    ensures ReadRecord(Record(fields) + t) == Read(fields, t)
    decreases |fields|
  {
    hide Field, Record, ReadField;
    if |fields| == 1 {
      OneOfEach(fields, []);
      FieldIsReadBack(fields[0], t);
      assert [fields[0]] == fields;
    } else {
      var more := "," + Record(fields[1..]) + t;
      RecordHead(fields);
      assert Record(fields) + t == Field(fields[0]) + more;
      FieldIsReadBack(fields[0], more);
      assert more[1..] == Record(fields[1..]) + t;
      RecordIsReadBack(fields[1..], t);
      assert [fields[0]] + fields[1..] == fields;
    }
  }

  lemma EmptyRecord(fields: seq<string>)
    requires fields != []
    ensures Record(fields) == "" <==> fields == [""]
  {
    if |fields| > 1 {
      RecordHead(fields);
    } else {
      assert fields == [fields[0]];
    }
  }

  lemma {:induction false} LinesHead(rows: seq<seq<string>>)
    requires |rows| > 1
    ensures Lines(rows) == Record(rows[0]) + ("\n" + Lines(rows[1..]))
  {
    hide Record;
    var k := |rows| - 1;
    assert rows[1..][..k - 1] == rows[..k][1..];
    if k > 1 {
      LinesHead(rows[..k]);
      assert Lines(rows) == Record(rows[0]) + ("\n" + Lines(rows[..k][1..])) + "\n" + Record(rows[k]);
    }
  }

  /** What is read of printed rows: a last row that prints as nothing cannot be seen. */
  function Visible(rows: seq<seq<string>>): seq<seq<string>> {
    if rows != [] && rows[|rows| - 1] == [""] then rows[..|rows| - 1] else rows
  }

  lemma {:induction false} LinesAreReadBack(rows: seq<seq<string>>)
    requires forall row :: row in rows ==> row != []
    ensures ReadAll(Lines(rows)) == Some(Visible(rows))
    decreases |rows|
  {
    hide Record, Lines, ReadRecord;
    OneOfEach([], rows);
    if |rows| == 1 {
      assert rows[0] in rows && [rows[0]] == rows;
      EmptyRecord(rows[0]);
      RecordIsReadBack(rows[0], "");
      assert Record(rows[0]) + "" == Record(rows[0]);
    } else if |rows| > 1 {
      var more := "\n" + Lines(rows[1..]);
      assert rows[0] in rows && more[1..] == Lines(rows[1..]);
      LinesHead(rows);
      RecordIsReadBack(rows[0], more);
      assert forall row :: row in rows[1..] ==> row in rows;
      LinesAreReadBack(rows[1..]);
      assert [rows[0]] + Visible(rows[1..]) == Visible(rows);
    }
  }

  /** Main result: the document reads back as the names and the rows shown. */
  lemma DocumentIsReadBack(names: seq<string>, rows: seq<seq<Option<string>>>)
    requires names != [] && forall i :: 0 <= i < |rows| ==> |rows[i]| == |names|
    ensures ReadAll(Document(names, rows)) == Some([names] + Visible(ShownRows(rows)))
  {
    hide Record, Lines, ReadRecord;
    var shown := ShownRows(rows);
    var more := "\n" + Lines(shown);
    assert Document(names, rows) == Record(names) + more && more[1..] == Lines(shown);
    RecordIsReadBack(names, more);
    LinesAreReadBack(shown);
  }

  /** Exactly one document is not what it shows: a single column whose last value shows nothing. */
  lemma NothingIsLostExactly(names: seq<string>, rows: seq<seq<Option<string>>>)
    requires names != [] && forall i :: 0 <= i < |rows| ==> |rows[i]| == |names|
    ensures ReadAll(Document(names, rows)) == Some([names] + ShownRows(rows))
        <==> !(|names| == 1 && rows != [] && Shown(rows[|rows| - 1][0]) == "")
  {
    DocumentIsReadBack(names, rows);
    var shown := ShownRows(rows);
    if rows != [] {
      var last := shown[|rows| - 1];
      assert last == ShownRow(rows[|rows| - 1]);
      assert last == [""] <==> |names| == 1 && Shown(rows[|rows| - 1][0]) == "";
      if last == [""] {
        assert |[names] + Visible(shown)| != |[names] + shown|;
      }
    }
  }

  /** A finding, exactly: two documents of as many rows are the same if and only if their values show
      the same, and NULL shows what the empty string shows. */
  lemma NullsShowAsEmptyExactly(names: seq<string>, rows: seq<seq<Option<string>>>, rows': seq<seq<Option<string>>>)
    requires names != [] && |rows| == |rows'| && forall i :: 0 <= i < |rows| ==> |rows[i]| == |rows'[i]| == |names|
    ensures Document(names, rows) == Document(names, rows')
        <==> forall i, j :: 0 <= i < |rows| && 0 <= j < |names| ==> Shown(rows[i][j]) == Shown(rows'[i][j])
    ensures Shown(None) == Shown(Some(""))
  {
    hide Lines, Record, ReadAll;
    var shown, shown' := ShownRows(rows), ShownRows(rows');
    DocumentIsReadBack(names, rows);
    DocumentIsReadBack(names, rows');
    if Document(names, rows) == Document(names, rows') {
      assert [names] + Visible(shown) == [names] + Visible(shown');
      assert Visible(shown) == ([names] + Visible(shown))[1..] == Visible(shown');
      SameVisible(shown, shown');
      forall i, j | 0 <= i < |rows| && 0 <= j < |names| ensures Shown(rows[i][j]) == Shown(rows'[i][j]) {
        assert shown[i][j] == shown'[i][j];
      }
    }
    if forall i, j :: 0 <= i < |rows| && 0 <= j < |names| ==> Shown(rows[i][j]) == Shown(rows'[i][j]) {
      forall i | 0 <= i < |rows| ensures shown[i] == shown'[i] {
      }
      assert shown == shown';
    }
  }

  lemma SameVisible(shown: seq<seq<string>>, shown': seq<seq<string>>)
    requires |shown| == |shown'| && Visible(shown) == Visible(shown')
    ensures shown == shown'
  {
    if shown != [] {
      var k := |shown| - 1;
      assert shown == shown[..k] + [shown[k]] && shown' == shown'[..k] + [shown'[k]];
    }
  }
}
