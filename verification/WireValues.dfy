/** What values become on their way from PostgreSQL to JSON: decoding the binary form of a value,
    however nested, gives its JSON text. */
module WireValues {
  import opened Sql
  import opened Decimals
  import opened Numeric
  import opened Wire
  import JsonText

  /** A value with the number of its type in pg_type. Num carries its binary form; NumericValue says
      what it is worth. Unknown is any other type without parts, as ltree or citext. */
  datatype Val =
    | Null(typ: nat)
    | Int(typ: nat, n: int)
    | Bool(b: bool)
    | Text(typ: nat, s: string)
    | Json(typ: nat, s: string)
    | Num(buf: string)
    | Oid(oid: nat)
    | Enum(typ: nat, name: string)
    | Unknown(typ: nat, s: string)
    | Arr(typ: nat, elemOid: nat, elems: seq<Val>)
    | Row(typ: nat, fields: seq<Val>)

  function TypeOf(v: Val): nat {
    match v
    case Bool(_) => 16
    case Num(_) => 1700
    case Oid(_) => 26
    case _ => v.typ
  }

  /** The bytes of an integer type. */
  function Width(typ: nat): nat { if typ == 21 then 2 else if typ == 20 then 8 else 4 }

  // ----- The binary format -----

  /** n in k bytes, the highest first. */
  function BigEndian(n: nat, k: nat): (s: string)
    ensures |s| == k
  {
    if k == 0 then "" else BigEndian(n / 256, k - 1) + [(n % 256) as char]
  }

  function Encode(v: Val): string
    decreases v, 1
  {
    match v
    case Null(_) => ""
    case Int(typ, n) => BigEndian(if n < 0 && n + Limit(Width(typ)) >= 0 then n + Limit(Width(typ)) else if n < 0 then 0 else n, Width(typ))
    case Bool(b) => [if b then 1 as char else 0 as char]
    case Text(_, s) => s
    case Json(_, s) => s
    case Num(buf) => buf
    case Oid(n) => BigEndian(n, 4)
    case Enum(_, name) => name
    case Unknown(_, s) => s
    case Arr(_, elemOid, elems) =>
      if elems == [] then BigEndian(0, 4) + BigEndian(0, 4) + BigEndian(elemOid, 4)
      else ArrayHeader(elemOid, |elems|, exists e :: e in elems && e.Null?) + EncodeElems(elems)
    case Row(_, fields) => BigEndian(|fields|, 4) + EncodeFields(fields)
  }

  /** One dimension, whether there are NULLs, the type, the length, and the lower bound 1. */
  function ArrayHeader(elemOid: nat, count: nat, hasNull: bool): (s: string)
    ensures |s| == 20
  {
    BigEndian(1, 4) + BigEndian(if hasNull then 1 else 0, 4) + BigEndian(elemOid, 4) + BigEndian(count, 4) + BigEndian(1, 4)
  }

  /** The length, or the mark of NULL, and the bytes. */
  function Sized(v: Val): string
    decreases v, 2
  {
    if v.Null? then BigEndian(0xFFFF_FFFF, 4) else BigEndian(|Encode(v)|, 4) + Encode(v)
  }

  function EncodeElems(vs: seq<Val>): string {
    if vs == [] then "" else Sized(vs[0]) + EncodeElems(vs[1..])
  }

  function EncodeFields(vs: seq<Val>): string {
    if vs == [] then "" else BigEndian(TypeOf(vs[0]), 4) + Sized(vs[0]) + EncodeFields(vs[1..])
  }

  // ----- The JSON text -----

  function JsonOf(v: Val, info: SchemaInfo): string
    decreases v, 1
  {
    match v
    case Null(_) => "null"
    case Int(_, n) => Signed(n)
    case Bool(b) => if b then "true" else "false"
    case Text(_, s) => "\"" + JsonText.EscapeText(s, true) + "\""
    case Json(_, s) => s
    case Num(buf) => (match NumericText(buf) case Some(t) => t case None => "")
    case Oid(n) => Signed(if n < 0x8000_0000 then n else n - 0x1_0000_0000)
    case Enum(_, name) => "\"" + name + "\""
    case Unknown(_, s) => "\"" + JsonText.EscapeText(s, true) + "\""
    case Arr(_, _, elems) => "[" + JsonElems(elems, info) + "]"
    case Row(typ, fields) => "{" + JsonFields(if IsComposite(typ, info) then info.types[typ].names else [], fields, info) + "}"
  }

  function JsonElems(vs: seq<Val>, info: SchemaInfo): string {
    if vs == [] then "" else if |vs| == 1 then JsonOf(vs[0], info)
    else JsonOf(vs[0], info) + "," + JsonElems(vs[1..], info)
  }

  function JsonFields(names: seq<string>, vs: seq<Val>, info: SchemaInfo): string
    decreases vs
  {
    if names == [] || vs == [] then ""
    else if |vs| == 1 then "\"" + names[0] + "\":" + JsonOf(vs[0], info)
    else "\"" + names[0] + "\":" + JsonOf(vs[0], info) + "," + JsonFields(names[1..], vs[1..], info)
  }

  // ----- Values that PostgreSQL can send -----

  /** The types fit the schema and the lengths fit four bytes. */
  ghost predicate Sendable(v: Val, info: SchemaInfo)
    decreases v
  {
    && (v.Null? || |Encode(v)| < 0xFFFF_FFFF)
    && TypeOf(v) < 0x1_0000_0000
    && match v
       case Null(_) => true
       case Int(typ, n) => typ in {21, 23, 20} && -(Limit(Width(typ)) / 2) <= n < Limit(Width(typ)) / 2
       case Bool(_) => true
       case Text(typ, _) => typ in {25, 1043, 1042, 19, 3614}
       case Json(typ, _) => typ in {114, 3802}
       case Num(buf) => NumericText(buf).Some?
       case Oid(n) => n < 0x1_0000_0000
       case Enum(typ, _) => !IsBuiltIn(typ) && typ in info.types && info.types[typ].EnumType?
       case Unknown(typ, _) => !IsBuiltIn(typ) && (typ in info.types ==> info.types[typ].PlainType?)
       case Arr(typ, elemOid, elems) =>
         IsArray(typ, info) && elemOid < 0x1_0000_0000 && |elems| < 0x1_0000_0000
         && forall i :: 0 <= i < |elems| ==> TypeOf(elems[i]) == elemOid && Sendable(elems[i], info)
       case Row(typ, fields) =>
         IsComposite(typ, info) && |info.types[typ].names| == |fields| < 0x1_0000_0000
         && forall i :: 0 <= i < |fields| ==> Sendable(fields[i], info)
  }

  // ----- Numbers -----

  lemma {:induction false} UnsignedPrefix(a: string, b: string, k: nat)
    requires k <= |a|
    ensures Unsigned(a + b, k) == Unsigned(a, k)
  {
    if k > 0 {
      UnsignedPrefix(a, b, k - 1);
    }
  }

  lemma {:induction false} BigEndianIsRead(n: nat, k: nat)
    requires n < Limit(k)
    ensures Unsigned(BigEndian(n, k), k) == n
  {
    if k > 0 {
      BigEndianIsRead(n / 256, k - 1);
      UnsignedPrefix(BigEndian(n / 256, k - 1), [(n % 256) as char], k - 1);
    }
  }

  lemma FourBytes(n: nat)
    requires n < 0x1_0000_0000
    ensures var b := BigEndian(n, 4); 0x1_0000 * (256 * b[0] as int + b[1] as int) + (256 * b[2] as int + b[3] as int) == n
  {
    assert BigEndian(n, 4) == BigEndian(n / 256, 3) + [(n % 256) as char];
    assert BigEndian(n / 256, 3) == BigEndian(n / 256 / 256, 2) + [(n / 256 % 256) as char];
    assert BigEndian(n / 256 / 256, 2) == BigEndian(n / 256 / 256 / 256, 1) + [(n / 256 / 256 % 256) as char];
    assert BigEndian(n / 256 / 256 / 256, 1) == BigEndian(n / 256 / 256 / 256 / 256, 0) + [(n / 256 / 256 / 256 % 256) as char];
  }

  /** Four bytes at i. */
  lemma U32IsRead(buf: string, i: nat, n: nat)
    requires i + 4 <= |buf| && buf[i..i + 4] == BigEndian(n, 4) && n < 0x1_0000_0000
    ensures U32(buf, i) == Some(n)
  {
    hide BigEndian;
    FourBytes(n);
    var b := buf[i..i + 4];
    assert buf[i] == b[0] && buf[i + 1] == b[1] && buf[i + 2] == b[2] && buf[i + 3] == b[3];
  }

  lemma Limits()
    ensures Limit(2) == 0x1_0000 && Limit(4) == 0x1_0000_0000 && Limit(8) == 0x1_0000_0000_0000_0000
  {
    assert Limit(3) == 256 * Limit(2) && Limit(5) == 256 * Limit(4) && Limit(6) == 256 * Limit(5) && Limit(7) == 256 * Limit(6);
  }

  lemma IntIsRead(typ: nat, n: int)
    requires typ in {21, 23, 20} && -(Limit(Width(typ)) / 2) <= n < Limit(Width(typ)) / 2
    ensures SignedText(Encode(Int(typ, n)), Width(typ)) == Ok(Signed(n))
  {
    hide BigEndian, Unsigned, Dec;
    var k := Width(typ);
    Limits();
    BigEndianIsRead(if n < 0 then n + Limit(k) else n, k);
  }

  /** A finding: an oid is printed as a signed number, so from 2^31 on as a negative one. */
  lemma OidIsSigned(n: nat)
    requires n < 0x1_0000_0000
    ensures SignedText(BigEndian(n, 4), 4) == Ok(Signed(if n < 0x8000_0000 then n else n - 0x1_0000_0000))
  {
    hide BigEndian, Unsigned, Dec;
    Limits();
    BigEndianIsRead(n, 4);
  }

  // ----- Decoding -----

  lemma ScalarIsDecoded(v: Val, info: SchemaInfo)
    requires Sendable(v, info) && !v.Null? && !v.Arr? && !v.Row?
    ensures TypeText(Encode(v), TypeOf(v), info) == Ok(JsonOf(v, info))
  {
    hide SignedText, BigEndian;
    if v.Int? {
      IntIsRead(v.typ, v.n);
    } else if v.Oid? {
      OidIsSigned(v.oid);
    }
  }

  /** A value where its length says it is. */
  lemma SizedIsDecoded(buf: string, rp: nat, v: Val, info: SchemaInfo, rest: string)
    requires rp <= |buf| && buf[rp..] == Sized(v) + rest && Sendable(v, info)
    requires !v.Null? ==> TypeText(Encode(v), TypeOf(v), info) == Ok(JsonOf(v, info))
    ensures ValueAt(buf, rp, TypeOf(v), info) == (Ok(JsonOf(v, info)), rp + |Sized(v)|)
    ensures rp + |Sized(v)| <= |buf| && buf[rp + |Sized(v)|..] == rest
  {
    hide TypeText, BigEndian, U32, Encode;
    var n := if v.Null? then NULL_LENGTH else |Encode(v)|;
    assert buf[rp..rp + 4] == buf[rp..][..4] == BigEndian(n, 4);
    U32IsRead(buf, rp, n);
    assert buf[rp + |Sized(v)|..] == buf[rp..][|Sized(v)|..] == rest;
    if !v.Null? {
      assert buf[rp + 4..rp + 4 + n] == buf[rp..][4..4 + n] == Encode(v);
    }
  }

  lemma {:induction false} ElemsAreDecoded(buf: string, rp: nat, elemOid: nat, i: nat, vs: seq<Val>, info: SchemaInfo)
    requires rp <= |buf| && buf[rp..] == EncodeElems(vs)
    requires forall e :: e in vs ==> TypeOf(e) == elemOid && Sendable(e, info)
    ensures ElemsText(buf, rp, elemOid, i, i + |vs|, info) == Ok((if i > 0 && vs != [] then "," else "") + JsonElems(vs, info) + "]")
    decreases vs
  {
    hide Sized, ValueAt, JsonOf, Sendable;
    if vs != [] {
      var v := vs[0];
      assert v in vs;
      if !v.Null? {
        ValueIsDecoded(v, info);
      }
      SizedIsDecoded(buf, rp, v, info, EncodeElems(vs[1..]));
      ElemsAreDecoded(buf, rp + |Sized(v)|, elemOid, i + 1, vs[1..], info);
      ElemsJoin(if i > 0 then "," else "", vs, info);
    }
  }

  lemma ElemsJoin(comma: string, vs: seq<Val>, info: SchemaInfo)
    requires vs != []
    ensures comma + JsonOf(vs[0], info) + ((if vs[1..] != [] then "," else "") + JsonElems(vs[1..], info) + "]")
         == comma + JsonElems(vs, info) + "]"
  {
    hide JsonOf;
  }

  lemma {:induction false} FieldsAreDecoded(buf: string, rp: nat, names: seq<string>, i: nat, vs: seq<Val>, info: SchemaInfo)
    requires rp <= |buf| && buf[rp..] == EncodeFields(vs) && i + |vs| == |names|
    requires forall e :: e in vs ==> Sendable(e, info)
    ensures FieldsText(buf, rp, names, i, info)
         == Ok((if i > 0 && vs != [] then "," else "") + JsonFields(names[i..], vs, info) + "}")
    decreases vs
  {
    hide Sized, ValueAt, JsonOf, Sendable, BigEndian, U32;
    if vs == [] {
      assert names[i..] == [];
    } else {
      var v := vs[0];
      assert v in vs;
      if !v.Null? {
        ValueIsDecoded(v, info);
      }
      OidIsRead(buf, rp, v, Sized(v) + EncodeFields(vs[1..]), info);
      SizedIsDecoded(buf, rp + 4, v, info, EncodeFields(vs[1..]));
      FieldsAreDecoded(buf, rp + 4 + |Sized(v)|, names, i + 1, vs[1..], info);
      assert names[i..][1..] == names[i + 1..] && names[i..][0] == names[i];
      FieldsJoin(if i > 0 then "," else "", names[i..], vs, info);
    }
  }

  lemma OidIsRead(buf: string, rp: nat, v: Val, rest: string, info: SchemaInfo)
    requires rp <= |buf| && Sendable(v, info) && buf[rp..] == BigEndian(TypeOf(v), 4) + rest
    ensures U32(buf, rp) == Some(TypeOf(v)) && rp + 4 <= |buf| && buf[rp + 4..] == rest
  {
    hide BigEndian;
    assert buf[rp..rp + 4] == buf[rp..][..4];
    U32IsRead(buf, rp, TypeOf(v));
    assert buf[rp + 4..] == buf[rp..][4..];
  }

  lemma FieldsJoin(comma: string, names: seq<string>, vs: seq<Val>, info: SchemaInfo)
    requires vs != [] && |names| == |vs|
    ensures comma + "\"" + names[0] + "\":" + JsonOf(vs[0], info) + ((if vs[1..] != [] then "," else "") + JsonFields(names[1..], vs[1..], info) + "}")
         == comma + JsonFields(names, vs, info) + "}"
  {
    hide JsonOf;
    var more, value := JsonFields(names[1..], vs[1..], info), JsonOf(vs[0], info);
    if |vs| > 1 {
      hide JsonFields;
      JoinTexts(comma, names[0], value, "," + more);
      FieldsNext(names, vs, info);
      assert "\"" + names[0] + "\":" + value + ("," + more) == "\"" + names[0] + "\":" + value + "," + more;
    } else {
      JoinTexts(comma, names[0], value, "");
      assert "\"" + names[0] + "\":" + value + "" == "\"" + names[0] + "\":" + value;
    }
  }

  lemma FieldsNext(names: seq<string>, vs: seq<Val>, info: SchemaInfo)
    requires |vs| > 1 && |names| == |vs|
    ensures JsonFields(names, vs, info) == "\"" + names[0] + "\":" + JsonOf(vs[0], info) + "," + JsonFields(names[1..], vs[1..], info)
  {
    hide JsonOf;
  }

  lemma JoinTexts(comma: string, name: string, value: string, more: string)
    ensures comma + "\"" + name + "\":" + value + (more + "}") == comma + ("\"" + name + "\":" + value + more) + "}"
  {
  }

  lemma ArrayIsDecoded(v: Val, info: SchemaInfo)
    requires Sendable(v, info) && v.Arr?
    requires v.elems != [] ==> ElemsText(Encode(v), 20, v.elemOid, 0, |v.elems|, info) == Ok(JsonElems(v.elems, info) + "]")
    ensures TypeText(Encode(v), TypeOf(v), info) == Ok(JsonOf(v, info))
  {
    hide BigEndian, U32, ElemsText, JsonElems, EncodeElems;
    var buf := Encode(v);
    if v.elems == [] {
      assert buf[0..4] == BigEndian(0, 4);
      U32IsRead(buf, 0, 0);
      assert JsonElems([], info) == "" by { NoElems(info); }
      assert "[" + "" + "]" == "[]";
    } else {
      HeaderIsRead(buf, v.elemOid, |v.elems|, exists e :: e in v.elems && e.Null?, EncodeElems(v.elems));
      assert "[" + (JsonElems(v.elems, info) + "]") == "[" + JsonElems(v.elems, info) + "]";
    }
  }

  lemma NoElems(info: SchemaInfo)
    ensures JsonElems([], info) == ""
  {
  }

  lemma HeaderIsRead(buf: string, elemOid: nat, count: nat, hasNull: bool, rest: string)
    requires buf == ArrayHeader(elemOid, count, hasNull) + rest && elemOid < 0x1_0000_0000 && count < 0x1_0000_0000
    ensures U32(buf, 0) == Some(1) && U32(buf, 8) == Some(elemOid) && U32(buf, 12) == Some(count) && buf[20..] == rest
  {
    hide BigEndian, U32;
    assert buf[0..4] == BigEndian(1, 4);
    U32IsRead(buf, 0, 1);
    assert buf[8..12] == BigEndian(elemOid, 4);
    U32IsRead(buf, 8, elemOid);
    assert buf[12..16] == BigEndian(count, 4);
    U32IsRead(buf, 12, count);
  }

  /** Main result: the binary form of a value, with whatever nesting of arrays, rows and NULLs,
      is printed as the JSON text of the value. */
  lemma {:induction false} ValueIsDecoded(v: Val, info: SchemaInfo)
    requires Sendable(v, info) && !v.Null?
    ensures TypeText(Encode(v), TypeOf(v), info) == Ok(JsonOf(v, info))
    decreases v
  {
    match v
    case Arr(_, elemOid, elems) =>
      if elems != [] {
        EncodedElems(v);
        ElemsAreDecoded(Encode(v), 20, elemOid, 0, elems, info);
        assert "" + JsonElems(elems, info) == JsonElems(elems, info);
      }
      ArrayIsDecoded(v, info);
    case Row(typ, fields) =>
      EncodedFields(v);
      FieldsAreDecoded(Encode(v), 4, info.types[typ].names, 0, fields, info);
      RowIsDecoded(v, info);
    case _ =>
      ScalarIsDecoded(v, info);
  }

  lemma EncodedElems(v: Val)
    requires v.Arr? && v.elems != []
    ensures |Encode(v)| >= 20 && Encode(v)[20..] == EncodeElems(v.elems)
  {
    hide EncodeElems;
  }

  lemma EncodedFields(v: Val)
    requires v.Row?
    ensures |Encode(v)| >= 4 && Encode(v)[4..] == EncodeFields(v.fields) && Encode(v)[..4] == BigEndian(|v.fields|, 4)
  {
    hide EncodeFields, BigEndian;
  }

  lemma RowIsDecoded(v: Val, info: SchemaInfo)
    requires Sendable(v, info) && v.Row?
    requires var names := info.types[v.typ].names;
      FieldsText(Encode(v), 4, names, 0, info) == Ok((if 0 > 0 && v.fields != [] then "," else "") + JsonFields(names[0..], v.fields, info) + "}")
    ensures TypeText(Encode(v), TypeOf(v), info) == Ok(JsonOf(v, info))
  {
    hide BigEndian, U32, FieldsText, JsonFields, EncodeFields;
    var buf, names := Encode(v), info.types[v.typ].names;
    EncodedFields(v);
    assert buf[0..4] == buf[..4] && names[0..] == names;
    U32IsRead(buf, 0, |v.fields|);
    assert "{" + ("" + JsonFields(names, v.fields, info) + "}") == "{" + JsonFields(names, v.fields, info) + "}";
  }

  /** What is refused instead of guessed: arrays of several dimensions, and rows that do not have as
      many fields as their cached type. */
  lemma LayoutsRefused(n: nat, rest: string, typ: nat, info: SchemaInfo)
    requires n < 0x1_0000_0000
    ensures IsArray(typ, info) && n > 1 ==> TypeText(BigEndian(n, 4) + rest, typ, info) == Err(MultiDimensional)
    ensures IsComposite(typ, info) && n != |info.types[typ].names| ==> TypeText(BigEndian(n, 4) + rest, typ, info) == Err(FieldCount)
  {
    hide BigEndian, U32, ElemsText, FieldsText, IsBuiltIn;
    var buf := BigEndian(n, 4) + rest;
    assert buf[0..4] == BigEndian(n, 4);
    U32IsRead(buf, 0, n);
  }
}
