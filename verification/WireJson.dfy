/** What a reader of JSON makes of the text printed for a value: the value itself. */
module WireJson {
  import opened Decimals
  import opened Numeric
  import opened JsonReader
  import opened Sequences
  import opened Wire
  import opened WireValues
  import JsonText

  // ----- The tree of a value -----

  /** Bytes that are not UTF-8 cannot be kept; everything else is. */
  function TreeOf(v: Val, info: SchemaInfo): Tree
    decreases v, 1
  {
    match v
    case Null(_) => JNull
    case Int(_, n) => JNumber(Signed(n))
    case Bool(b) => JBool(b)
    case Text(_, s) => JString(JsonText.Sanitize(s))
    case Json(_, s) => (match ReadValue(s) case Got(tree, _) => tree case Bad => JNull)
    case Num(buf) => JNumber(JsonOf(v, info))
    case Oid(n) => JNumber(Dec(n))
    case Enum(_, name) => JString(name)
    case Unknown(_, s) => JString(JsonText.Sanitize(s))
    case Arr(_, _, elems) => JArray(TreesOf(elems, info))
    case Row(typ, fields) => JObject(MembersOf(if IsComposite(typ, info) then info.types[typ].names else [], fields, info))
  }

  function TreesOf(vs: seq<Val>, info: SchemaInfo): seq<Tree> {
    if vs == [] then [] else [TreeOf(vs[0], info)] + TreesOf(vs[1..], info)
  }

  function MembersOf(names: seq<string>, vs: seq<Val>, info: SchemaInfo): seq<(string, Tree)>
    decreases vs
  {
    if names == [] || vs == [] then [] else [(names[0], TreeOf(vs[0], info))] + MembersOf(names[1..], vs[1..], info)
  }

  /** A name that is printed as it is. */
  predicate IsPlainName(s: string) { forall i :: 0 <= i < |s| ==> s[i] as int >= 0x20 && s[i] != '"' && s[i] != '\\' }

  /** The first group of digits that is read; nothing is when the buffer seems to end before it. */
  function FirstGroup(buf: string): nat
    requires |buf| >= 8
  {
    if I16(9) >= I16(|buf|) then 0 else U16(buf, 8)
  }

  /** Neither NaN nor an infinity, and no zero printed in front of another group of digits. */
  predicate PrintsNumber(buf: string) {
    |buf| < 8 ||
    var h := HeaderOf(buf);
    && h.sign !in [0xC000, 0xD000, 0xF000]
    && (h.ndigits == 0 || (h.ndigits > 0 && (I16(h.weight + 1) <= 1 || FirstGroup(buf) != 0)))
  }

  /** Numerics that print numbers, texts that are JSON where they are copied, names and labels without
      escapes, and oids that are no negative numbers. */
  ghost predicate IsReadable(v: Val, info: SchemaInfo)
    decreases v
  {
    match v
    case Null(_) => true
    case Int(_, _) => true
    case Bool(_) => true
    case Text(_, _) => true
    case Json(_, s) => IsJsonText(s)
    case Num(buf) => PrintsNumber(buf)
    case Oid(n) => n < 0x8000_0000
    case Enum(_, name) => IsPlainName(name)
    case Unknown(_, _) => true
    case Arr(_, _, elems) => forall i :: 0 <= i < |elems| ==> IsReadable(elems[i], info)
    case Row(typ, fields) =>
      IsComposite(typ, info) && |info.types[typ].names| == |fields|
      && (forall i :: 0 <= i < |fields| ==> IsReadable(fields[i], info))
      && (forall i :: 0 <= i < |fields| ==> IsPlainName(info.types[typ].names[i]))
  }

  predicate IsJsonText(s: string) { ReadValue(s).Got? && ReadValue(s).rest == "" }

  // ----- Reading what was printed -----

  lemma NumberIsJson(s: string)
    requires IsNumber(s)
    ensures ReadValue(s) == Got(JNumber(s), "")
  {
    hide NumberLength, ReadItems, ReadMembers, JsonText.ReadString;
    NumberBegins(s);
    WordsBegin(s);
    assert s[..|s|] == s;
  }

  /** A number begins with a minus or a digit. */
  lemma NumberBegins(s: string)
    requires NumberLength(s) > 0
    ensures s != "" && (s[0] == '-' || IsDigit(s[0]))
  {
    hide FractionLength, ExponentLength;
    assert "0"[0] == '0';
  }

  /** What is JSON by itself is read the same in front of a separator. */
  lemma TextIsRead(s: string, tree: Tree, t: string)
    requires ReadValue(s) == Got(tree, "") && Ends(t)
    ensures ReadValue(s + t) == Got(tree, t)
  {
    hide ReadValue;
    ValueExtends(s, t);
    assert "" + t == t;
  }

  lemma {:induction false} DigitsAreRun(d: string, u: string)
    requires AllDigits(d) && (u == "" || !IsDigit(u[0]))
    ensures DigitRun(d + u) == |d|
  {
    if d == "" {
      assert d + u == u;
    } else {
      assert (d + u)[0] == d[0] && (d + u)[1..] == d[1..] + u;
      DigitsAreRun(d[1..], u);
    }
  }

  /** A point and at least one digit, or nothing. */
  predicate IsFraction(s: string) { s == "" || (s[0] == '.' && |s| > 1 && AllDigits(s[1..])) }

  lemma FractionIsMeasured(frac: string)
    requires IsFraction(frac)
    ensures FractionLength(frac) == |frac|
  {
    if frac != "" {
      DigitsAreRun(frac[1..], "");
      assert frac[1..] + "" == frac[1..];
    }
  }

  lemma WholeIsMeasured(whole: string, frac: string)
    requires AllDigits(whole) && whole != "" && IsFraction(frac)
    ensures WholeLength(whole + frac) == if whole[0] == '0' then 1 else |whole|
  {
    DigitsAreRun(whole, frac);
    assert (whole + frac)[0] == whole[0] && "0"[0] == '0';
    assert whole[0] == '0' ==> (whole + frac)[..1] == "0";
  }

  /** Sign, digits and fraction are a number exactly when no zero stands in front of the digits. */
  lemma PartsAreNumberExactly(sign: string, whole: string, frac: string)
    requires sign == "" || sign == "-"
    requires AllDigits(whole) && whole != "" && IsFraction(frac)
    ensures IsNumber(sign + whole + frac) <==> |whole| == 1 || whole[0] != '0'
  {
    hide WholeLength, FractionLength, ExponentLength, IsFraction;
    var text, m := sign + whole + frac, |sign|;
    assert IsDigit(whole[0]) && text[m] == whole[0] && text[m..] == whole + frac;
    WholeIsMeasured(whole, frac);
    if whole[0] == '0' && |whole| > 1 {
      assert text[m + 1] == whole[1] && IsDigit(whole[1]);
      NothingMore(text[m + 1..]);
    } else {
      assert text[m + |whole|..] == frac && text[|text|..] == "";
      FractionIsMeasured(frac);
      NothingMore("");
    }
  }

  lemma NothingMore(t: string)
    requires t == "" || IsDigit(t[0])
    ensures FractionLength(t) == 0 && ExponentLength(t) == 0
  {
  }

  lemma {:induction false} DecBegins(n: nat)
    ensures Dec(n)[0] == '0' <==> n == 0
    ensures n == 0 ==> Dec(n) == "0"
  {
    if n >= 10 {
      DecBegins(n / 10);
    }
  }

  lemma DecimalIsNumber(n: int)
    ensures IsNumber(Signed(n))
  {
    hide Dec, IsNumber;
    var m := if n < 0 then -n else n;
    DecBegins(m);
    PartsAreNumberExactly(if n < 0 then "-" else "", Dec(m), "");
    assert (if n < 0 then "-" else "") + Dec(m) + "" == Signed(n);
  }

  lemma FractionText(ds: seq<nat>, before: int, lead: int, dscale: int)
    ensures IsFraction(FracPart(ds, before, lead, dscale))
  {
    hide FracFrom;
    if dscale > 0 {
      var zeros, rest := Zeros(if before <= 0 && lead > 0 then lead else 0), FracFrom(ds, if before < 0 then 0 else before, dscale);
      assert ("." + zeros + rest)[1..] == zeros + rest;
    }
  }

  /** The integer part begins with a superfluous zero exactly when it has several groups and the
      first is zero. */
  lemma WholeText(ds: seq<nat>, before: int)
    requires ds != []
    ensures var whole := IntPart(ds, before); |whole| == 1 || whole[0] != '0' <==> before <= 1 || ds[0] != 0
  {
    hide Dec, Groups, Pad4;
    DecBegins(ds[0]);
    if 1 < before <= |ds| {
      LastGroup(ds[1..before]);
    } else if before > |ds| {
      NoZeros(Dec(ds[0]) + Groups(ds[1..]));
    } else if before == 1 {
      NoGroups(ds);
    }
  }

  lemma LastGroup(ds: seq<nat>)
    requires ds != []
    ensures |Groups(ds)| >= 4
  {
    hide Pad4;
  }

  lemma FirstDigits(buf: string, n: nat)
    requires |buf| >= 8 && n > 0
    ensures DigitsOf(buf, n, 0)[0] == FirstGroup(buf)
  {
  }

  /** The text of a numeric is a number under exactly that condition. */
  lemma NumberExactly(buf: string)
    ensures NumericText(buf).Some? && IsNumber(NumericText(buf).value) <==> PrintsNumber(buf)
  {
    hide IntPart, FracPart, DigitsOf, HeaderOf, IsFraction, IsNumber, FirstGroup;
    OtherTexts();
    if |buf| >= 8 && HeaderOf(buf).sign !in [0xC000, 0xD000, 0xF000] && HeaderOf(buf).ndigits > 0 {
      var h := HeaderOf(buf);
      var ds, before := DigitsOf(buf, h.ndigits, 0), I16(h.weight + 1);
      var frac := FracPart(ds, before, I16(I16(-before) * 4), h.dscale);
      FirstDigits(buf, h.ndigits);
      WholeText(ds, before);
      FractionText(ds, before, I16(I16(-before) * 4), h.dscale);
      PartsAreNumberExactly(if h.sign == 0x4000 then "-" else "", IntPart(ds, before), frac);
    }
  }

  lemma WithoutDigit(s: string)
    requires |s| > 1 && !IsDigit(s[0]) && !IsDigit(s[1])
    ensures !IsNumber(s)
  {
    hide FractionLength, ExponentLength;
    assert "0"[0] == '0' && s[0..] == s && s[1..][0] == s[1];
  }

  lemma OtherTexts()
    ensures IsNumber("0") && !IsNumber("NaN") && !IsNumber("Infinity") && !IsNumber("-Infinity")
  {
    hide IsNumber;
    WithoutDigit("NaN");
    WithoutDigit("Infinity");
    WithoutDigit("-Infinity");
    PartsAreNumberExactly("", "0", "");
    assert "" + "0" + "" == "0";
  }

  lemma StringIsJson(s: string)
    ensures ReadValue("\"" + JsonText.EscapeText(s, true) + "\"") == Got(JString(JsonText.Sanitize(s)), "")
  {
    hide JsonText.EscapeText, JsonText.Sanitize, JsonText.ReadString, ReadItems, ReadMembers, NumberLength;
    var text := "\"" + JsonText.EscapeText(s, true) + "\"";
    assert text[1..] == JsonText.EscapeText(s, true) + "\"" + "";
    JsonText.EscapedIsReadBack(s, true, "");
    assert text[0] == '"';
  }

  lemma {:induction false} NameIsRead(s: string, t: string)
    requires IsPlainName(s)
    ensures JsonText.ReadString(s + "\"" + t) == JsonText.Read(s, t)
  {
    if s == "" {
      assert (s + "\"" + t)[1..] == t;
    } else {
      assert (s + "\"" + t)[1..] == s[1..] + "\"" + t;
      NameIsRead(s[1..], t);
      assert [s[0]] + s[1..] == s;
    }
  }

  lemma WordsAreJson()
    ensures ReadValue("null") == Got(JNull, "")
    ensures ReadValue("true") == Got(JBool(true), "") && ReadValue("false") == Got(JBool(false), "")
  {
    assert "null"[4..] == "" && "true"[4..] == "" && "false"[5..] == "";
    assert "true"[0] == 't' && "false"[0] == 'f';
  }

  lemma LeafIsJson(v: Val, info: SchemaInfo)
    requires !v.Arr? && !v.Row? && IsReadable(v, info)
    ensures ReadValue(JsonOf(v, info)) == Got(TreeOf(v, info), "")
  {
    hide ReadValue, NumericText, Signed, JsonText.EscapeText;
    WordsAreJson();
    match v
    case Int(_, n) => DecimalIsNumber(n); NumberIsJson(Signed(n));
    case Num(buf) => NumberExactly(buf); NumberIsJson(NumericText(buf).value);
    case Text(_, s) => StringIsJson(s);
    case Unknown(_, s) => StringIsJson(s);
    case Oid(n) => DecimalIsNumber(n); DecIsSigned(n); NumberIsJson(Dec(n));
    case Enum(_, name) => LabelIsJson(name);
    case _ =>
  }

  lemma LabelIsJson(name: string)
    requires IsPlainName(name)
    ensures ReadValue("\"" + name + "\"") == Got(JString(name), "")
  {
    hide JsonText.ReadString, IsPlainName;
    NameIsRead(name, "");
    QuotedIsRead(name);
  }

  /** A text in quotes is read as a string, or it is not. */
  lemma QuotedIsRead(s: string)
    ensures ReadValue("\"" + s + "\"") == Got(JString(s), "") <==> JsonText.ReadString(s + "\"" + "") == JsonText.Read(s, "")
  {
    hide JsonText.ReadString, ReadItems, ReadMembers, NumberLength;
    var text, body := "\"" + s + "\"", s + "\"" + "";
    assert text[0] == '"' && text[1..] == body;
    ReadShrinks(body);
    match JsonText.ReadString(body)
    case Read(x, rest) => assert x == s ==> rest == "";
    case Malformed =>
  }

  lemma DecIsSigned(n: nat)
    ensures Signed(n) == Dec(n)
  {
  }

  /** Main result: the text printed for a value reads back as the tree of that value, and the
      reader stops behind it. */
  lemma {:induction false} JsonIsReadBack(v: Val, info: SchemaInfo, t: string)
    requires IsReadable(v, info) && Ends(t)
    ensures ReadValue(JsonOf(v, info) + t) == Got(TreeOf(v, info), t)
    decreases v, 1
  {
    hide ReadValue, ReadItems, ReadMembers, JsonOf, TreeOf, JsonElems, JsonFields, TreesOf, MembersOf;
    match v
    case Arr(_, _, elems) =>
      if elems != [] {
        assert forall e :: e in elems ==> IsReadable(e, info);
        ItemsAreReadBack(elems, info, t);
      }
      ArrayIsReadBack(v, info, t);
    case Row(typ, fields) =>
      if fields != [] {
        assert forall e :: e in fields ==> IsReadable(e, info);
        MembersAreReadBack(info.types[typ].names, fields, info, t);
      }
      RowIsReadBack(v, info, t);
    case _ =>
      LeafIsJson(v, info);
      TextIsRead(JsonOf(v, info), TreeOf(v, info), t);
  }

  lemma ArrayIsReadBack(v: Val, info: SchemaInfo, t: string)
    requires v.Arr? && Ends(t)
    requires v.elems != [] ==> ReadItems(JsonElems(v.elems, info) + "]" + t) == Got(TreesOf(v.elems, info), t)
    ensures ReadValue(JsonOf(v, info) + t) == Got(TreeOf(v, info), t)
  {
    hide ReadItems, ReadMembers, NumberLength, JsonText.ReadString, JsonElems, TreesOf;
    var text := JsonOf(v, info) + t;
    NothingPrinted(info);
    assert text[0] == '[' && text[1..] == JsonElems(v.elems, info) + "]" + t;
    if v.elems == [] {
      assert text[1..] == "]" + t && ("]" + t)[1..] == t;
    } else {
      ItemsBegin(text[1..]);
    }
  }

  lemma NothingPrinted(info: SchemaInfo)
    ensures JsonElems([], info) == "" && TreesOf([], info) == []
    ensures forall names :: JsonFields(names, [], info) == "" && MembersOf(names, [], info) == []
  {
  }

  lemma {:induction false} ItemsAreReadBack(vs: seq<Val>, info: SchemaInfo, t: string)
    requires vs != [] && forall e :: e in vs ==> IsReadable(e, info)
    ensures ReadItems(JsonElems(vs, info) + "]" + t) == Got(TreesOf(vs, info), t)
    decreases vs
  {
    hide ReadValue, JsonOf, TreeOf, IsReadable;
    var v := vs[0];
    assert v in vs;
    if |vs| == 1 {
      JsonIsReadBack(v, info, "]" + t);
      assert JsonElems(vs, info) + "]" + t == JsonOf(v, info) + ("]" + t) && ("]" + t)[1..] == t;
      assert TreesOf(vs, info) == [TreeOf(v, info)];
    } else {
      var more := JsonElems(vs[1..], info) + "]" + t;
      JsonIsReadBack(v, info, "," + more);
      ItemsAreReadBack(vs[1..], info, t);
      assert JsonElems(vs, info) + "]" + t == JsonOf(v, info) + ("," + more) && ("," + more)[1..] == more;
    }
  }

  lemma RowIsReadBack(v: Val, info: SchemaInfo, t: string)
    requires v.Row? && IsComposite(v.typ, info) && Ends(t)
    requires var names := info.types[v.typ].names;
      v.fields != [] ==> ReadMembers(JsonFields(names, v.fields, info) + "}" + t) == Got(MembersOf(names, v.fields, info), t)
    ensures ReadValue(JsonOf(v, info) + t) == Got(TreeOf(v, info), t)
  {
    hide ReadItems, ReadMembers, NumberLength, JsonText.ReadString, JsonFields, MembersOf;
    var text, names := JsonOf(v, info) + t, info.types[v.typ].names;
    NothingPrinted(info);
    assert text[0] == '{' && text[1..] == JsonFields(names, v.fields, info) + "}" + t;
    if v.fields == [] {
      assert text[1..] == "}" + t && ("}" + t)[1..] == t;
    } else {
      MembersBegin(text[1..]);
    }
  }

  /** The first field, and what is printed behind it. */
  lemma FirstField(names: seq<string>, vs: seq<Val>, info: SchemaInfo, t: string)
    requires names != [] && vs != [] && |names| == |vs|
    ensures var behind := if |vs| == 1 then "}" + t else "," + (JsonFields(names[1..], vs[1..], info) + "}" + t);
      JsonFields(names, vs, info) + "}" + t == "\"" + names[0] + "\":" + JsonOf(vs[0], info) + behind
    ensures var first := [(names[0], TreeOf(vs[0], info))];
      MembersOf(names, vs, info) == if |vs| == 1 then first else first + MembersOf(names[1..], vs[1..], info)
  {
    hide JsonOf, TreeOf;
    NothingPrinted(info);
  }

  lemma {:induction false} MembersAreReadBack(names: seq<string>, vs: seq<Val>, info: SchemaInfo, t: string)
    requires vs != [] && |names| == |vs| && (forall e :: e in vs ==> IsReadable(e, info))
    requires forall i :: 0 <= i < |names| ==> IsPlainName(names[i])
    ensures ReadMembers(JsonFields(names, vs, info) + "}" + t) == Got(MembersOf(names, vs, info), t)
    decreases vs
  {
    hide ReadValue, ReadMembers, JsonOf, JsonFields, MembersOf, TreeOf, IsReadable, IsPlainName, JsonText.ReadString;
    var v := vs[0];
    FirstField(names, vs, info, t);
    if |vs| == 1 {
      JsonIsReadBack(v, info, "}" + t);
      MemberIsRead(names[0], v, info, "}" + t);
      assert ("}" + t)[0] == '}' && ("}" + t)[1..] == t;
    } else {
      var more := JsonFields(names[1..], vs[1..], info) + "}" + t;
      JsonIsReadBack(v, info, "," + more);
      MembersAreReadBack(names[1..], vs[1..], info, t);
      MemberIsRead(names[0], v, info, "," + more);
      assert ("," + more)[0] == ',' && ("," + more)[1..] == more;
    }
  }

  lemma MemberName(name: string, u: string)
    requires IsPlainName(name)
    ensures ReadName("\"" + name + "\":" + u) == Got(name, u)
  {
    hide JsonText.ReadString, Skip, IsPlainName;
    var text, rest := "\"" + name + "\":" + u, ":" + u;
    NameIsRead(name, rest);
    assert text[0] == '"' && text[1..] == name + "\"" + rest && rest[0] == ':' && rest[1..] == u;
  }

  /** One member, and what comes after it. */
  lemma MemberIsRead(name: string, v: Val, info: SchemaInfo, t: string)
    requires IsPlainName(name) && Ends(t) && ReadValue(JsonOf(v, info) + t) == Got(TreeOf(v, info), t)
    ensures ReadMembers("\"" + name + "\":" + JsonOf(v, info) + t)
         == if t == "" || t[0] == ']' then Bad
            else if t[0] == '}' then Got([(name, TreeOf(v, info))], t[1..])
            else match ReadMembers(t[1..]) case Got(members, end) => Got([(name, TreeOf(v, info))] + members, end) case Bad => Bad
  {
    hide JsonOf, TreeOf, ReadValue, ReadName, IsPlainName;
    Regroup("\"" + name + "\":", JsonOf(v, info), t);
    MemberName(name, JsonOf(v, info) + t);
  }

  /** From the wire to a reader of JSON: the value arrives. */
  lemma SentIsRead(v: Val, info: SchemaInfo)
    requires Sendable(v, info) && IsReadable(v, info) && !v.Null?
    ensures TypeText(Encode(v), TypeOf(v), info).Ok?
    ensures ReadValue(TypeText(Encode(v), TypeOf(v), info).text) == Got(TreeOf(v, info), "")
  {
    hide ReadValue, TypeText, Encode, JsonOf, TreeOf;
    ValueIsDecoded(v, info);
    JsonIsReadBack(v, info, "");
    assert JsonOf(v, info) + "" == JsonOf(v, info);
  }

  // ----- Where it ends -----

  /** Reading never makes a string longer, and an escape makes it shorter. */
  lemma {:induction false} ReadShrinks(u: string)
    ensures match JsonText.ReadString(u)
      case Read(x, rest) => |x| + |rest| + 1 <= |u| && (u[0] == '\\' ==> |x| + |rest| + 1 < |u|)
      case Malformed => true
    decreases |u|
  {
    hide JsonText.Hex4, JsonText.LowSurrogate, JsonText.Utf8, JsonText.Utf8Pair;
    if u != "" {
      ReadShrinks(u[1..]);
      if |u| >= 2 { ReadShrinks(u[2..]); }
      if |u| >= 6 { ReadShrinks(u[6..]); }
      if |u| >= 12 { ReadShrinks(u[12..]); }
    }
  }

  /** A finding: the names of a composite are written without escapes. A name is read back exactly
      when it needs none. */
  lemma {:induction false} NameIsReadExactlyWhenPlain(s: string, t: string)
    ensures JsonText.ReadString(s + "\"" + t) == JsonText.Read(s, t) <==> IsPlainName(s)
  {
    var u := s + "\"" + t;
    if s == "" {
      NameIsRead(s, t);
    } else {
      assert u[0] == s[0] && u[1..] == s[1..] + "\"" + t && [s[0]] + s[1..] == s;
      NameIsReadExactlyWhenPlain(s[1..], t);
      ReadShrinks(u);
      if s[0] as int >= 0x20 && s[0] != '"' && s[0] != '\\' {
        PlainHead(s, t);
      }
    }
  }

  lemma PlainHead(s: string, t: string)
    requires s != "" && s[0] as int >= 0x20 && s[0] != '"' && s[0] != '\\'
    ensures IsPlainName(s) <==> IsPlainName(s[1..])
    ensures JsonText.ReadString(s + "\"" + t) == JsonText.Read(s, t)
        <==> JsonText.ReadString(s[1..] + "\"" + t) == JsonText.Read(s[1..], t)
  {
    var r := JsonText.ReadString(s[1..] + "\"" + t);
    assert (s + "\"" + t)[1..] == s[1..] + "\"" + t && [s[0]] + s[1..] == s;
    assert IsPlainName(s[1..]) ==> forall i :: 1 <= i < |s| ==> s[i] == s[1..][i - 1];
    if r.Read? {
      assert ([s[0]] + r.text)[1..] == r.text;
    }
  }

  /** A finding: the labels of an enum are written without escapes either. */
  lemma LabelIsReadExactlyWhenPlain(typ: nat, name: string, info: SchemaInfo)
    requires Sendable(Enum(typ, name), info)
    ensures var r := TypeText(name, typ, info);
      r.Ok? && (ReadValue(r.text) == Got(JString(name), "") <==> IsPlainName(name))
  {
    hide ReadValue, JsonText.ReadString, IsPlainName;
    ValueIsDecoded(Enum(typ, name), info);
    QuotedIsRead(name);
    NameIsReadExactlyWhenPlain(name, "");
  }

  /** And an oid is read as the number it is exactly below 2^31. */
  lemma OidIsReadExactly(n: nat, info: SchemaInfo)
    requires n < 0x1_0000_0000
    ensures var r := TypeText(BigEndian(n, 4), 26, info);
      r.Ok? && (ReadValue(r.text) == Got(JNumber(Dec(n)), "") <==> n < 0x8000_0000)
  {
    hide ReadValue, Dec, BigEndian, SignedText;
    OidIsSigned(n);
    var k := if n < 0x8000_0000 then n else n - 0x1_0000_0000;
    DecimalIsNumber(k);
    NumberIsJson(Signed(k));
    assert IsDigit(Dec(n)[0]);
  }

  /** A finding, exactly: the text of a numeric is read as that number if and only if it is a number.
      NaN and the infinities are printed as they are named, and a first group of zero is printed in
      front of the others, both of which is no JSON. */
  lemma NumericIsJsonExactly(buf: string)
    requires NumericText(buf).Some?
    ensures ReadValue(NumericText(buf).value) == Got(JNumber(NumericText(buf).value), "") <==> PrintsNumber(buf)
  {
    hide NumericText, PrintsNumber, IsNumber, ReadValue;
    var text := NumericText(buf).value;
    NumberExactly(buf);
    if IsNumber(text) {
      NumberIsJson(text);
    } else {
      NoNumberIsRead(text);
    }
  }

  lemma NoNumberIsRead(s: string)
    requires !IsNumber(s)
    ensures ReadValue(s) != Got(JNumber(s), "")
  {
    hide ReadItems, ReadMembers, JsonText.ReadString, NumberLength;
    var u := Skip(s);
    if ReadValue(s) == Got(JNumber(s), "") {
      BareNumber(u);
    }
  }

  lemma BareNumber(u: string)
    requires ReadBare(u).Got? && ReadBare(u).value.JNumber?
    ensures 0 < NumberLength(u) && ReadBare(u).value.text == u[..NumberLength(u)]
  {
    hide ReadItems, ReadMembers, JsonText.ReadString, NumberLength;
    WordsBegin(u);
  }

  /** So numerics as PostgreSQL makes them, complete and with a first group that is not zero, are
      read as the numbers printed. */
  lemma LeadingGroupIsJson(buf: string)
    requires |buf| >= 8 && HeaderOf(buf).sign !in [0xC000, 0xD000, 0xF000] && HeaderOf(buf).ndigits > 0
    requires 8 + 2 * HeaderOf(buf).ndigits <= |buf| < 0x8000 && U16(buf, 8) != 0
    ensures NumericText(buf).Some? && ReadValue(NumericText(buf).value) == Got(JNumber(NumericText(buf).value), "")
  {
    hide NumericText, ReadValue, HeaderOf, IsNumber;
    NumberExactly(buf);
    NumericIsJsonExactly(buf);
  }

  /** And those of 16380 digits and more are no JSON when they have two groups before the point. */
  lemma LongNumericsAreNoJson(buf: string)
    requires 0x8000 <= |buf| <= 0x1_0009
    requires var h := HeaderOf(buf); h.ndigits > 0 && 1 <= h.weight <= 32766 && h.sign !in [0xC000, 0xD000, 0xF000]
    ensures NumericText(buf).Some? && ReadValue(NumericText(buf).value) != Got(JNumber(NumericText(buf).value), "")
  {
    hide IntPart, FracPart, DigitsOf, ReadValue, HeaderOf;
    assert I16(|buf|) <= 9 == I16(9);
    NumericIsJsonExactly(buf);
  }
}
