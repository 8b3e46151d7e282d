/** Values in PostgreSQL's binary format, printed as JSON (database/textserializer.go, appendType,
    appendArray, appendComposite). A character stands for a byte. An index past the end of a buffer
    panics in the source and is reported as a malformed value. */
module Wire {
  import opened Sql
  import opened Decimals
  import opened Numeric
  import JsonText

  datatype Error = MultiDimensional | FieldCount | Malformed
  datatype Outcome = Ok(text: string) | Err(error: Error)

  /** The cached types, and the text of the scalar types that are not modelled: floats, dates,
      times, intervals, uuids and ranges. */
  datatype Type = ArrayType | RangeType | CompositeType(names: seq<string>) | EnumType | PlainType
  datatype SchemaInfo = SchemaInfo(types: map<nat, Type>, other: (nat, string) -> Option<string>)

  const NULL_LENGTH := 0xFFFF_FFFF

  const INT2 := 21
  const INT4 := 23
  const OID := 26
  const INT8 := 20
  const BOOL := 16
  const TEXT := 25
  const NUMERIC := 1700
  const JSON := 114

  predicate IsText(typ: nat) { typ == TEXT || typ == 1043 || typ == 1042 || typ == 19 || typ == 3614 }
  predicate IsJson(typ: nat) { typ == JSON || typ == 3802 }

  /** float4, float8, date, timestamp, timestamptz, interval, uuid */
  predicate IsOther(typ: nat) { typ in {700, 701, 1082, 1114, 1184, 1186, 2950} }

  // ----- Numbers in a buffer -----

  function U32(buf: string, i: nat): (r: Option<nat>)
    ensures r.Some? ==> i + 4 <= |buf|
  {
    if i + 4 <= |buf| then Some(0x1_0000 * U16(buf, i) + U16(buf, i + 2)) else None
  }

  /** The number in the first k bytes. */
  function Unsigned(buf: string, k: nat): nat
    requires k <= |buf|
  {
    if k == 0 then 0 else 256 * Unsigned(buf, k - 1) + buf[k - 1] as int
  }

  function Limit(k: nat): nat { if k == 0 then 1 else 256 * Limit(k - 1) }

  /** Two's complement in k bytes. */
  function SignedText(buf: string, k: nat): Outcome {
    if |buf| < k then Err(Malformed)
    else
      var n := Unsigned(buf, k);
      if 2 * n < Limit(k) then Ok(Dec(n)) else Ok("-" + (if Limit(k) >= n then Dec(Limit(k) - n) else ""))
  }

  // ----- What is printed -----

  function Quoted(text: string): string { "\"" + text + "\"" }

  function ScalarText(buf: string, typ: nat, info: SchemaInfo): Outcome {
    if typ == INT2 then SignedText(buf, 2)
    else if typ == INT4 || typ == OID then SignedText(buf, 4)
    else if typ == INT8 then SignedText(buf, 8)
    else if typ == BOOL then (if buf == "" then Err(Malformed) else Ok(if buf[0] as int == 1 then "true" else "false"))
    else if IsText(typ) then Ok(Quoted(JsonText.EscapeText(buf, true)))
    else if IsJson(typ) then Ok(buf)
    else if typ == NUMERIC then (match NumericText(buf) case Some(t) => Ok(t) case None => Err(Malformed))
    else if IsOther(typ) || (typ in info.types && info.types[typ].RangeType?) then
      (match info.other(typ, buf) case Some(t) => Ok(t) case None => Err(Malformed))
    else if typ in info.types && info.types[typ].EnumType? then Ok(Quoted(buf))
    else Ok(Quoted(JsonText.EscapeText(buf, true)))
  }

  predicate IsBuiltIn(typ: nat) {
    typ in {INT2, INT4, OID, INT8, BOOL, NUMERIC} || IsText(typ) || IsJson(typ) || IsOther(typ)
  }

  predicate IsArray(typ: nat, info: SchemaInfo) { !IsBuiltIn(typ) && typ in info.types && info.types[typ].ArrayType? }
  predicate IsComposite(typ: nat, info: SchemaInfo) { !IsBuiltIn(typ) && typ in info.types && info.types[typ].CompositeType? }

  function TypeText(buf: string, typ: nat, info: SchemaInfo): Outcome
    decreases |buf|, 2, 0
  {
    if IsArray(typ, info) then ArrayText(buf, info)
    else if IsComposite(typ, info) then CompositeText(buf, info.types[typ].names, info)
    else ScalarText(buf, typ, info)
  }

  function ArrayText(buf: string, info: SchemaInfo): Outcome
    decreases |buf|, 1, 0
  {
    match U32(buf, 0)
    case None => Err(Malformed)
    case Some(numDims) =>
      if numDims == 0 then Ok("[]")
      else if numDims != 1 then Err(MultiDimensional)
      else match (U32(buf, 8), U32(buf, 12))
        case (Some(elemOid), Some(count)) => Following("[", ElemsText(buf, 20, elemOid, 0, count, info))
        case _ => Err(Malformed)
  }

  function Following(done: string, more: Outcome): Outcome {
    match more case Ok(text) => Ok(done + text) case Err(e) => Err(e)
  }

  /** A length and so many bytes at rp, or NULL: the text and the position behind it. */
  function ValueAt(buf: string, rp: nat, typ: nat, info: SchemaInfo): (r: (Outcome, nat))
    ensures r.0.Ok? ==> rp + 4 <= r.1 <= |buf|
    decreases |buf|, 0, 0
  {
    match U32(buf, rp)
    case None => (Err(Malformed), rp)
    case Some(len) =>
      if len == NULL_LENGTH then (Ok("null"), rp + 4)
      else if rp + 4 + len > |buf| then (Err(Malformed), rp)
      else (TypeText(buf[rp + 4..rp + 4 + len], typ, info), rp + 4 + len)
  }

  /** The elements from the i-th on, and the closing bracket. */
  function ElemsText(buf: string, rp: nat, elemOid: nat, i: nat, count: nat, info: SchemaInfo): Outcome
    decreases |buf|, 0, if i < count then count - i else 0
  {
    if i >= count then Ok("]")
    else
      var (elem, rp') := ValueAt(buf, rp, elemOid, info);
      match elem
      case Err(e) => Err(e)
      case Ok(text) => Following((if i > 0 then "," else "") + text, ElemsText(buf, rp', elemOid, i + 1, count, info))
  }

  function CompositeText(buf: string, names: seq<string>, info: SchemaInfo): Outcome
    decreases |buf|, 1, 0
  {
    match U32(buf, 0)
    case None => Err(Malformed)
    case Some(nfields) =>
      if nfields != |names| then Err(FieldCount) else Following("{", FieldsText(buf, 4, names, 0, info))
  }

  function FieldsText(buf: string, rp: nat, names: seq<string>, i: nat, info: SchemaInfo): Outcome
    decreases |buf|, 0, if i < |names| then |names| - i else 0
  {
    if i >= |names| then Ok("}")
    else match U32(buf, rp)
      case None => Err(Malformed)
      case Some(oid) =>
        var (value, rp') := ValueAt(buf, rp + 4, oid, info);
        match value
        case Err(e) => Err(e)
        case Ok(text) =>
          Following((if i > 0 then "," else "") + "\"" + names[i] + "\":" + text, FieldsText(buf, rp', names, i + 1, info))
  }

  // ----- appendType -----

  /** What a method appended, or the error it stopped with. */
  predicate Appended(before: string, after: string, err: Option<Error>, o: Outcome) {
    match o case Ok(text) => err.None? && after == before + text case Err(e) => err == Some(e)
  }

  class TextBuilder {
    var out: string

    constructor ()
      ensures out == ""
    {
      out := "";
    }

    method Write(s: string)
      modifies this
      ensures out == old(out) + s
    {
      out := out + s;
    }

    method AppendScalar(buf: string, typ: nat, info: SchemaInfo) returns (err: Option<Error>)
      modifies this
      ensures Appended(old(out), out, err, ScalarText(buf, typ, info))
    {
      err := None;
      if IsText(typ) {
        var text := JsonText.AppendString(buf, true);
        Write(Quoted(text));
      } else if typ == NUMERIC {
        var text := AppendNumeric(buf);
        match text
        case Some(t) => Write(t);
        case None => err := Some(Malformed);
      } else {
        match ScalarText(buf, typ, info)
        case Ok(t) => Write(t);
        case Err(e) => err := Some(e);
      }
    }

    method AppendType(buf: string, typ: nat, info: SchemaInfo) returns (err: Option<Error>)
      modifies this
      ensures Appended(old(out), out, err, TypeText(buf, typ, info))
      decreases |buf|, 3
    {
      if IsArray(typ, info) {
        err := AppendArray(buf, info);
      } else if IsComposite(typ, info) {
        err := AppendComposite(buf, info.types[typ].names, info);
      } else {
        err := AppendScalar(buf, typ, info);
      }
    }

    /** The length at rp and the value behind it; rp moves on. */
    method AppendValueAt(buf: string, rp: nat, typ: nat, info: SchemaInfo) returns (err: Option<Error>, rp': nat)
      modifies this
      ensures Appended(old(out), out, err, ValueAt(buf, rp, typ, info).0)
      ensures err.None? ==> rp' == ValueAt(buf, rp, typ, info).1
      decreases |buf|, 0
    {
      rp' := rp;
      var len := U32(buf, rp);
      if len.None? {
        return Some(Malformed), rp';
      }
      rp' := rp' + 4;
      if len.value == NULL_LENGTH {
        Write("null");
        return None, rp';
      }
      if rp' + len.value > |buf| {
        return Some(Malformed), rp';
      }
      err := AppendType(buf[rp'..rp' + len.value], typ, info);
      rp' := rp' + len.value;
    }

    method AppendArray(buf: string, info: SchemaInfo) returns (err: Option<Error>)
      modifies this
      ensures Appended(old(out), out, err, ArrayText(buf, info))
      decreases |buf|, 2
    {
      hide ElemsText;
      var numDims := U32(buf, 0);
      if numDims.None? {
        return Some(Malformed);
      }
      if numDims.value == 0 {
        Write("[]");
        return None;
      }
      if numDims.value != 1 {
        return Some(MultiDimensional);
      }
      var rp := 4;
      rp := rp + 4;
      var elemOid := U32(buf, rp);
      rp := rp + 4;
      var elemCount := U32(buf, rp);
      if elemOid.None? || elemCount.None? {
        return Some(Malformed);
      }
      rp := rp + 4;
      rp := rp + 4;
      Write("[");
      err := AppendElems(buf, rp, elemOid.value, elemCount.value, info);
    }

    method AppendElems(buf: string, start: nat, elemOid: nat, elemCount: nat, info: SchemaInfo) returns (err: Option<Error>)
      modifies this
      ensures Appended(old(out), out, err, ElemsText(buf, start, elemOid, 0, elemCount, info))
      decreases |buf|, 1
    {
      hide ElemsText, Sofar, ValueAt;
      ghost var whole := ElemsText(buf, start, elemOid, 0, elemCount, info);
      ghost var before := out;
      var rp := start;
      SofarStart(out, whole);
      for i := 0 to elemCount
        invariant Sofar(before, out, ElemsText(buf, rp, elemOid, i, elemCount, info), whole)
      {
        SofarElem(before, out, buf, rp, elemOid, i, elemCount, info, whole);
        assert out + "" == out;
        if i > 0 {
          Write(",");
        }
        err, rp := AppendValueAt(buf, rp, elemOid, info);
        if err.Some? {
          return err;
        }
      }
      SofarEnd(before, out, ElemsText(buf, rp, elemOid, elemCount, elemCount, info), "]", whole);
      NoMoreElems(buf, rp, elemOid, elemCount, info);
      Write("]");
      err := None;
    }

    method AppendComposite(buf: string, names: seq<string>, info: SchemaInfo) returns (err: Option<Error>)
      modifies this
      ensures Appended(old(out), out, err, CompositeText(buf, names, info))
      decreases |buf|, 2
    {
      hide FieldsText;
      var rp := 0;
      var nfields := U32(buf, rp);
      if nfields.None? {
        return Some(Malformed);
      }
      rp := rp + 4;
      if nfields.value != |names| {
        return Some(FieldCount);
      }
      Write("{");
      err := AppendFields(buf, rp, names, info);
    }

    method AppendFields(buf: string, start: nat, names: seq<string>, info: SchemaInfo) returns (err: Option<Error>)
      modifies this
      ensures Appended(old(out), out, err, FieldsText(buf, start, names, 0, info))
      decreases |buf|, 1
    {
      hide FieldsText, Sofar, ValueAt, U32;
      ghost var whole := FieldsText(buf, start, names, 0, info);
      ghost var before := out;
      var rp := start;
      SofarStart(out, whole);
      for i := 0 to |names|
        invariant Sofar(before, out, FieldsText(buf, rp, names, i, info), whole)
      {
        SofarField(before, out, buf, rp, names, i, info, whole);
        assert out + "" == out;
        if i > 0 {
          Write(",");
        }
        var oid := U32(buf, rp);
        if oid.None? {
          return Some(Malformed);
        }
        rp := rp + 4;
        Write("\"");
        Write(names[i]);
        Write("\":");
        err, rp := AppendValueAt(buf, rp, oid.value, info);
        if err.Some? {
          return err;
        }
      }
      SofarEnd(before, out, FieldsText(buf, rp, names, |names|, info), "}", whole);
      NoMoreFields(buf, rp, names, info);
      Write("}");
      err := None;
    }
  }

  /** From `start` the loop has come to `now`; `rest` is what is left of `whole`. */
  predicate Sofar(start: string, now: string, rest: Outcome, whole: Outcome) {
    start <= now && whole == Following(now[|start|..], rest)
  }

  lemma SofarStart(out: string, whole: Outcome)
    ensures Sofar(out, out, whole, whole)
  {
    assert out[|out|..] == "";
    assert forall s: string :: "" + s == s;
  }

  /** A turn of a loop: `rest` is this piece and what comes after it. */
  lemma SofarStep(start: string, now: string, rest: Outcome, piece: string, more: Outcome, whole: Outcome)
    requires Sofar(start, now, rest, whole) && rest == Following(piece, more)
    ensures Sofar(start, now + piece, more, whole)
  {
    assert (now + piece)[|start|..] == now[|start|..] + piece;
    if more.Ok? {
      assert now[|start|..] + (piece + more.text) == now[|start|..] + piece + more.text;
    }
  }

  lemma SofarEnd(start: string, now: string, rest: Outcome, last: string, whole: Outcome)
    requires Sofar(start, now, rest, whole)
    ensures rest == Ok(last) ==> whole.Ok? && now + last == start + whole.text
  {
    assert start + now[|start|..] == now;
  }

  lemma NoMoreElems(buf: string, rp: nat, elemOid: nat, count: nat, info: SchemaInfo)
    ensures ElemsText(buf, rp, elemOid, count, count, info) == Ok("]")
  {
  }

  lemma NoMoreFields(buf: string, rp: nat, names: seq<string>, info: SchemaInfo)
    ensures FieldsText(buf, rp, names, |names|, info) == Ok("}")
  {
  }

  lemma SofarElem(start: string, now: string, buf: string, rp: nat, elemOid: nat, i: nat, count: nat, info: SchemaInfo, whole: Outcome)
    requires i < count && Sofar(start, now, ElemsText(buf, rp, elemOid, i, count, info), whole)
    ensures var (elem, rp') := ValueAt(buf, rp, elemOid, info);
      match elem
      case Err(e) => whole == Err(e)
      case Ok(text) => Sofar(start, now + (if i > 0 then "," else "") + text, ElemsText(buf, rp', elemOid, i + 1, count, info), whole)
  {
    hide ValueAt;
    var (elem, rp') := ValueAt(buf, rp, elemOid, info);
    if elem.Ok? {
      var piece := (if i > 0 then "," else "") + elem.text;
      SofarStep(start, now, ElemsText(buf, rp, elemOid, i, count, info), piece, ElemsText(buf, rp', elemOid, i + 1, count, info), whole);
      assert now + piece == now + (if i > 0 then "," else "") + elem.text;
    }
  }

  lemma SofarField(start: string, now: string, buf: string, rp: nat, names: seq<string>, i: nat, info: SchemaInfo, whole: Outcome)
    requires i < |names| && Sofar(start, now, FieldsText(buf, rp, names, i, info), whole)
    ensures match U32(buf, rp)
      case None => whole == Err(Malformed)
      case Some(oid) =>
        var (value, rp') := ValueAt(buf, rp + 4, oid, info);
        match value
        case Err(e) => whole == Err(e)
        case Ok(text) =>
          Sofar(start, now + (if i > 0 then "," else "") + "\"" + names[i] + "\":" + text, FieldsText(buf, rp', names, i + 1, info), whole)
  {
    hide ValueAt, U32;
    var oid := U32(buf, rp);
    if oid.Some? {
      var (value, rp') := ValueAt(buf, rp + 4, oid.value, info);
      if value.Ok? {
        var piece := (if i > 0 then "," else "") + "\"" + names[i] + "\":" + value.text;
        SofarStep(start, now, FieldsText(buf, rp, names, i, info), piece, FieldsText(buf, rp', names, i + 1, info), whole);
        assert now + piece == now + (if i > 0 then "," else "") + "\"" + names[i] + "\":" + value.text;
      }
    }
  }
}
