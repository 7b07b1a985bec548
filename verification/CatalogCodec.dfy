/**
 The fixed-width catalog record: a header, a 65-byte table-name field and 67
 bytes per column, with an encoder that overwrites a zeroed buffer in place and
 a validating decoder.
 */
module CatalogCodec {
  import opened Bytes
  import opened Options
  import opened Utf8

  const CATALOG_REC_MAGIC: nat := 0x5443_4154
  const CATALOG_REC_VERSION: nat := 1
  const HEADER_LEN: nat := 8
  const TABLE_FIELD_LEN: nat := 65
  const COLUMN_REC_LEN: nat := 67
  const COLUMNS_AT: nat := 73

  datatype ColumnType =
    | Bool | Int8 | Int16 | Int32 | Int64 | UInt8 | UInt16 | UInt32
    | Float32 | Float64 | String | Blob | TimestampMs

  datatype Column = Column(name: Text, typ: ColumnType, nullable: bool, primaryKey: bool, unique: bool)

  /** A decoded column; the name is None when its bytes are not UTF-8. */
  datatype DecodedColumn = DecodedColumn(
    name: Option<Text>, typ: ColumnType, nullable: bool, primaryKey: bool, unique: bool)

  datatype Decoded = Decoded(table: Option<Text>, columns: seq<DecodedColumn>)

  datatype Result<+T, +E> = Ok(value: T) | Err(error: E)

  datatype EncodeError = TableNameLength | ColumnCount | TableOverflow | ColumnNameLength

  datatype DecodeError =
    | TooShort | BadMagic | BadVersion | BadCount | Truncated | BadTableName
    | BadColumnName | BadPadding | BadType | BadFlags

  function TypeByte(t: ColumnType): (b: byte)
    ensures b < 13
  {
    match t
    case Bool => 0 case Int8 => 1 case Int16 => 2 case Int32 => 3 case Int64 => 4
    case UInt8 => 5 case UInt16 => 6 case UInt32 => 7 case Float32 => 8 case Float64 => 9
    case String => 10 case Blob => 11 case TimestampMs => 12
  }

  const TYPES: seq<ColumnType> :=
    [Bool, Int8, Int16, Int32, Int64, UInt8, UInt16, UInt32, Float32, Float64, String, Blob, TimestampMs]

  function FlagsOf(c: Column): (f: byte)
    ensures f < 8
  {
    (if c.nullable then 1 else 0) + (if c.primaryKey then 2 else 0) + (if c.unique then 4 else 0)
  }

  /** `flags & 0x01`, `flags & 0x02` and `flags & 0x04`, below the reserved bits. */
  predicate Nullable(flags: byte) { flags % 2 == 1 }

  predicate PrimaryKey(flags: byte) { flags / 2 % 2 == 1 }

  predicate Unique(flags: byte) { flags / 4 % 2 == 1 }

  function EncodedLen(count: nat): nat {
    HEADER_LEN + TABLE_FIELD_LEN + count * COLUMN_REC_LEN
  }

  // ----- the format itself, as a concatenation of fields

  function NameField(d: Buffer): (f: Buffer)
    requires |d| <= 64
    ensures |f| == 65
  {
    [|d|] + d + Zeros(64 - |d|)
  }

  function ColumnField(c: Column): (f: Buffer)
    requires |Encode(c.name)| <= 64
    ensures |f| == COLUMN_REC_LEN
  {
    NameField(Encode(c.name)) + [TypeByte(c.typ), FlagsOf(c)]
  }

  predicate NamesFit(cols: seq<Column>) {
    forall i :: 0 <= i < |cols| ==> 1 <= |Encode(cols[i].name)| <= 64
  }

  function ColumnFields(cols: seq<Column>): (f: Buffer)
    requires NamesFit(cols)
    ensures |f| == COLUMN_REC_LEN * |cols|
  {
    if cols == [] then [] else ColumnFields(cols[..|cols| - 1]) + ColumnField(cols[|cols| - 1])
  }

  function Header(count: nat): (h: Buffer)
    ensures |h| == HEADER_LEN
  {
    U32Bytes(CATALOG_REC_MAGIC) + U16Bytes(CATALOG_REC_VERSION) + U16Bytes(count)
  }

  /** The record of a table whose names all fit their fields. */
  function Record(table: Text, cols: seq<Column>): (d: Buffer)
    requires |Encode(table)| <= 64 && NamesFit(cols)
    ensures |d| == EncodedLen(|cols|)
  {
    Header(|cols|) + NameField(Encode(table)) + ColumnFields(cols)
  }

  // ----- encoding

  /** Why the encoder refuses, checked in the encoder's order. */
  function EncodeRefusal(table: Text, cols: seq<Column>): Option<EncodeError> {
    if Utf16Length(table) == 0 || Utf16Length(table) > 64 then Some(TableNameLength)
    else if |cols| == 0 || |cols| > 32 then Some(ColumnCount)
    else if 9 + |Encode(table)| > EncodedLen(|cols|) then Some(TableOverflow)
    else if !NamesFit(cols) then Some(ColumnNameLength)
    else None
  }

  /** The header and table bytes written over zeros; a long name runs on into the columns. */
  function Base(table: Text, count: nat): (d: Buffer)
    requires 9 + |Encode(table)| <= EncodedLen(count) && |Encode(table)| < 256
    ensures |d| == EncodedLen(count)
  {
    Put(Zeros(EncodedLen(count)), 0, Header(count) + [|Encode(table)|] + Encode(table))
  }

  function PutColumn(d: Buffer, i: nat, c: Column): (r: Buffer)
    requires COLUMNS_AT + COLUMN_REC_LEN * (i + 1) <= |d| && |Encode(c.name)| <= 64
    ensures |r| == |d|
  {
    var off := COLUMNS_AT + COLUMN_REC_LEN * i;
    Put(Put(d, off, [|Encode(c.name)|] + Encode(c.name)), off + 65, [TypeByte(c.typ), FlagsOf(c)])
  }

  function PutColumns(d: Buffer, cols: seq<Column>, i: nat): (r: Buffer)
    requires i <= |cols| && EncodedLen(|cols|) <= |d| && NamesFit(cols)
    ensures |r| == |d|
  {
    if i == 0 then d else PutColumn(PutColumns(d, cols, i - 1), i - 1, cols[i - 1])
  }

  lemma PutColumnsFirst(d: Buffer, cols: seq<Column>)
    requires EncodedLen(|cols|) <= |d|
    ensures NamesFit(cols[..0]) && (NamesFit(cols) ==> PutColumns(d, cols, 0) == d)
  {
  }

  lemma PutColumnsNext(d: Buffer, cols: seq<Column>, i: nat)
    requires i < |cols| && EncodedLen(|cols|) <= |d|
    ensures NamesFit(cols[..i + 1]) <==> NamesFit(cols[..i]) && 1 <= |Encode(cols[i].name)| <= 64
    ensures NamesFit(cols) ==> 1 <= |Encode(cols[i].name)| <= 64
    ensures NamesFit(cols) ==> PutColumns(d, cols, i + 1) == PutColumn(PutColumns(d, cols, i), i, cols[i])
  {
  }

  /** UTF-8 takes at most three bytes per UTF-16 code unit. */
  lemma {:induction false} EncodeLengthBound(t: Text)
    ensures |Encode(t)| <= 3 * Utf16Length(t)
    ensures Utf16Length(t) <= |Encode(t)|
    ensures Utf16Length(t) == 0 <==> t == []
  {
    if t != [] { EncodeLengthBound(t[1..]); }
  }

  function EncodeCatalog(table: Text, cols: seq<Column>): (r: Result<Buffer, EncodeError>)
    ensures r.Ok? ==> |r.value| == EncodedLen(|cols|)
  {
    match EncodeRefusal(table, cols)
    case Some(e) => Err(e)
    case None =>
      EncodeLengthBound(table);
      Ok(PutColumns(Base(table, |cols|), cols, |cols|))
  }

  method Blit(out: array<byte>, at: nat, data: Buffer)
    requires at + |data| <= out.Length
    modifies out
    ensures out[..] == Put(old(out[..]), at, data)
  {
    forall i | 0 <= i < |data| {
      out[at + i] := data[i];
    }
  }

  method SetColumn(out: array<byte>, ghost i: nat, off: nat, c: Column)
    requires off == COLUMNS_AT + COLUMN_REC_LEN * i && off + COLUMN_REC_LEN <= out.Length
    requires |Encode(c.name)| <= 64
    modifies out
    ensures out[..] == PutColumn(old(out[..]), i, c)
  {
    hide Encode, TypeByte, FlagsOf;
    var nbytes := Encode(c.name);
    Blit(out, off, [|nbytes|] + nbytes);
    Blit(out, off + 65, [TypeByte(c.typ), FlagsOf(c)]);
  }

  /** The column loop; it stops at the first name that does not fit its field. */
  method SetColumns(out: array<byte>, cols: seq<Column>) returns (fit: bool)
    requires out.Length == EncodedLen(|cols|)
    modifies out
    ensures fit == NamesFit(cols)
    ensures fit ==> out[..] == PutColumns(old(out[..]), cols, |cols|)
  {
    var i, off := 0, COLUMNS_AT;
    ghost var was := out[..];
    hide PutColumns, PutColumn, Encode, NamesFit;
    PutColumnsFirst(was, cols);
    while i < |cols|
      invariant 0 <= i <= |cols| && off == COLUMNS_AT + COLUMN_REC_LEN * i
      invariant NamesFit(cols[..i])
      invariant NamesFit(cols) ==> out[..] == PutColumns(was, cols, i)
    {
      var c := cols[i];
      PutColumnsNext(was, cols, i);
      if |Encode(c.name)| == 0 || |Encode(c.name)| > 64 {
        return false;
      }
      SetColumn(out, i, off, c);
      i, off := i + 1, off + COLUMN_REC_LEN;
    }
    assert cols[..i] == cols;
    fit := true;
  }

  /** The encoder as written: one zeroed buffer filled at a moving offset. */
  method EncodeCatalogRecord(table: Text, cols: seq<Column>) returns (r: Result<array<byte>, EncodeError>)
    ensures r.Ok? ==> fresh(r.value)
    ensures EncodeCatalog(table, cols) == match r case Ok(out) => Ok(out[..]) case Err(e) => Err(e)
  {
    if Utf16Length(table) == 0 || Utf16Length(table) > 64 {
      return Err(TableNameLength);
    }
    if |cols| == 0 || |cols| > 32 {
      return Err(ColumnCount);
    }
    var out := new byte[EncodedLen(|cols|)](_ => 0);
    assert out[..] == Zeros(out.Length);
    var tbytes := Encode(table);
    EncodeLengthBound(table);
    if 9 + |tbytes| > out.Length {
      return Err(TableOverflow);
    }
    Blit(out, 0, Header(|cols|) + [|tbytes|] + tbytes);
    var fit := SetColumns(out, cols);
    r := if fit then Ok(out) else Err(ColumnNameLength);
  }

  /** With a table name that fits, overwriting zeros builds exactly the record. */
  lemma EncodeIsRecord(table: Text, cols: seq<Column>)
    requires EncodeCatalog(table, cols).Ok? && |Encode(table)| <= 64
    ensures EncodeCatalog(table, cols).value == Record(table, cols)
  {
    EncodeLengthBound(table);
    var front := Header(|cols|) + NameField(Encode(table));
    BaseIsFront(table, |cols|);
    ColumnsOverZeros(front, cols, |cols|);
    assert cols[..|cols|] == cols && cols[..0] == [];
    assert Filled(front, cols, 0) == Base(table, |cols|);
    assert Filled(front, cols, |cols|) == front + ColumnFields(cols);
  }

  lemma BaseIsFront(table: Text, count: nat)
    requires |Encode(table)| <= 64
    ensures Base(table, count) == Header(count) + NameField(Encode(table)) + Zeros(COLUMN_REC_LEN * count)
  {
  }

  /** A zeroed buffer with the first `i` columns filled in. */
  function Filled(front: Buffer, cols: seq<Column>, i: nat): (d: Buffer)
    requires NamesFit(cols) && i <= |cols|
    ensures |d| == |front| + COLUMN_REC_LEN * |cols|
  {
    front + ColumnFields(cols[..i]) + Zeros(COLUMN_REC_LEN * (|cols| - i))
  }

  lemma {:induction false} ColumnsOverZeros(front: Buffer, cols: seq<Column>, i: nat)
    requires |front| == COLUMNS_AT && i <= |cols| && NamesFit(cols)
    ensures PutColumns(Filled(front, cols, 0), cols, i) == Filled(front, cols, i)
  {
    hide Filled, PutColumn;
    if i > 0 {
      ColumnsOverZeros(front, cols, i - 1);
      FilledGrows(front, cols, i);
    }
  }

  lemma FilledGrows(front: Buffer, cols: seq<Column>, i: nat)
    requires |front| == COLUMNS_AT && 0 < i <= |cols| && NamesFit(cols)
    ensures PutColumn(Filled(front, cols, i - 1), i - 1, cols[i - 1]) == Filled(front, cols, i)
  {
    hide PutColumn;
    FieldsGrow(cols, i);
    var done, field := ColumnFields(cols[..i - 1]), ColumnField(cols[i - 1]);
    ColumnOverZeros(front + done, |cols| - i, i - 1, cols[i - 1]);
    assert front + done + field == front + (done + field);
  }

  lemma FieldsGrow(cols: seq<Column>, i: nat)
    requires NamesFit(cols) && 0 < i <= |cols|
    ensures ColumnFields(cols[..i]) == ColumnFields(cols[..i - 1]) + ColumnField(cols[i - 1])
  {
    assert cols[..i][..i - 1] == cols[..i - 1];
  }

  lemma ColumnOverZeros(done: Buffer, left: nat, i: nat, c: Column)
    requires |done| == COLUMNS_AT + COLUMN_REC_LEN * i && |Encode(c.name)| <= 64
    ensures PutColumn(done + Zeros(COLUMN_REC_LEN * (left + 1)), i, c)
        == done + ColumnField(c) + Zeros(COLUMN_REC_LEN * left)
  {
    var name := [|Encode(c.name)|] + Encode(c.name);
    var start := done + Zeros(COLUMN_REC_LEN * (left + 1));
    var named := Put(start, |done|, name);
    assert named == done + NameField(Encode(c.name)) + Zeros(2) + Zeros(COLUMN_REC_LEN * left);
    assert Put(named, |done| + 65, [TypeByte(c.typ), FlagsOf(c)])
        == done + NameField(Encode(c.name)) + [TypeByte(c.typ), FlagsOf(c)] + Zeros(COLUMN_REC_LEN * left);
  }

  // ----- decoding

  function DecodeColumn(d: Buffer): Result<DecodedColumn, DecodeError>
    requires |d| == COLUMN_REC_LEN
  {
    var nlen := d[0];
    if nlen == 0 || nlen > 64 then Err(BadColumnName)
    else if exists j :: 1 + nlen <= j < 65 && d[j] != 0 then Err(BadPadding)
    else if d[65] >= 13 then Err(BadType)
    else if d[66] >= 8 then Err(BadFlags)
    else
      Ok(DecodedColumn(HostDecode(d[1..1 + nlen]), TYPES[d[65]], Nullable(d[66]), PrimaryKey(d[66]), Unique(d[66])))
  }

  function ColumnSlice(buf: Buffer, i: nat): (d: Buffer)
    requires COLUMNS_AT + COLUMN_REC_LEN * (i + 1) <= |buf|
    ensures |d| == COLUMN_REC_LEN
  {
    buf[COLUMNS_AT + COLUMN_REC_LEN * i..COLUMNS_AT + COLUMN_REC_LEN * i + COLUMN_REC_LEN]
  }

  /** The first `n` columns, or the first fault among them. */
  function DecodeColumns(buf: Buffer, n: nat): Result<seq<DecodedColumn>, DecodeError>
    requires COLUMNS_AT + COLUMN_REC_LEN * n <= |buf|
  {
    if n == 0 then Ok([])
    else
      match DecodeColumns(buf, n - 1)
      case Err(e) => Err(e)
      case Ok(cs) =>
        match DecodeColumn(ColumnSlice(buf, n - 1))
        case Err(e) => Err(e)
        case Ok(c) => Ok(cs + [c])
  }

  function DecodeCatalog(buf: Buffer): Result<Decoded, DecodeError> {
    if |buf| < HEADER_LEN + TABLE_FIELD_LEN then Err(TooShort)
    else if U32At(buf, 0) != CATALOG_REC_MAGIC then Err(BadMagic)
    else if U16At(buf, 4) != CATALOG_REC_VERSION then Err(BadVersion)
    else
      var count := U16At(buf, 6);
      if count == 0 || count > 32 then Err(BadCount)
      else if |buf| < EncodedLen(count) then Err(Truncated)
      else
        var tlen := buf[8];
        if tlen == 0 || tlen > 64 then Err(BadTableName)
        else
          match DecodeColumns(buf, count)
          case Err(e) => Err(e)
          case Ok(cs) => Ok(Decoded(HostDecode(buf[9..9 + tlen]), cs))
  }

  method DecodeColumnRecord(d: Buffer) returns (r: Result<DecodedColumn, DecodeError>)
    requires |d| == COLUMN_REC_LEN
    ensures r == DecodeColumn(d)
  {
    var nlen := d[0];
    if nlen == 0 || nlen > 64 { return Err(BadColumnName); }
    var j := 1 + nlen;
    while j < 65
      invariant 1 + nlen <= j <= 65
      invariant forall k :: 1 + nlen <= k < j ==> d[k] == 0
    {
      if d[j] != 0 { return Err(BadPadding); }
      j := j + 1;
    }
    if d[65] >= 13 { return Err(BadType); }
    var flags := d[66];
    if flags >= 8 { return Err(BadFlags); }
    r := Ok(DecodedColumn(HostDecode(d[1..1 + nlen]), TYPES[d[65]], Nullable(flags), PrimaryKey(flags), Unique(flags)));
  }

  method DecodeColumnRecords(buf: Buffer, count: nat) returns (r: Result<seq<DecodedColumn>, DecodeError>)
    requires COLUMNS_AT + COLUMN_REC_LEN * count <= |buf|
    ensures r == DecodeColumns(buf, count)
  {
    hide DecodeColumn;
    var columns: seq<DecodedColumn> := [];
    var i, off := 0, COLUMNS_AT;
    while i < count
      invariant 0 <= i <= count && off == COLUMNS_AT + COLUMN_REC_LEN * i
      invariant DecodeColumns(buf, i) == Ok(columns)
    {
      var c := DecodeColumnRecord(buf[off..off + COLUMN_REC_LEN]);
      if c.Err? {
        FaultStops(buf, i, count);
        return Err(c.error);
      }
      columns := columns + [c.value];
      i, off := i + 1, off + COLUMN_REC_LEN;
    }
    r := Ok(columns);
  }

  method DecodeCatalogRecord(buf: Buffer) returns (r: Result<Decoded, DecodeError>)
    ensures r == DecodeCatalog(buf)
  {
    if |buf| < HEADER_LEN + TABLE_FIELD_LEN { return Err(TooShort); }
    if U32At(buf, 0) != CATALOG_REC_MAGIC { return Err(BadMagic); }
    if U16At(buf, 4) != CATALOG_REC_VERSION { return Err(BadVersion); }
    var count := U16At(buf, 6);
    if count == 0 || count > 32 { return Err(BadCount); }
    if |buf| < EncodedLen(count) { return Err(Truncated); }
    var tlen := buf[8];
    if tlen == 0 || tlen > 64 { return Err(BadTableName); }
    var columns := DecodeColumnRecords(buf, count);
    r := match columns
      case Err(e) => Err(e)
      case Ok(cs) => Ok(Decoded(HostDecode(buf[9..9 + tlen]), cs));
  }

  /** Once a column is faulty, that fault is the answer for every longer prefix. */
  lemma {:induction false} FaultStops(buf: Buffer, i: nat, n: nat)
    requires i < n && COLUMNS_AT + COLUMN_REC_LEN * n <= |buf|
    requires DecodeColumns(buf, i).Ok? && DecodeColumn(ColumnSlice(buf, i)).Err?
    ensures DecodeColumns(buf, n) == Err(DecodeColumn(ColumnSlice(buf, i)).error)
  {
    if i + 1 < n {
      FaultStops(buf, i, n - 1);
    }
  }

  // ----- decode after encode

  predicate BomLed(t: Text) {
    t != [] && t[0] == BOM
  }

  function AsDecoded(c: Column): DecodedColumn {
    DecodedColumn(Some(c.name), c.typ, c.nullable, c.primaryKey, c.unique)
  }

  function AsDecodedAll(cols: seq<Column>): (ds: seq<DecodedColumn>)
    ensures |ds| == |cols| && forall i :: 0 <= i < |cols| ==> ds[i] == AsDecoded(cols[i])
  {
    seq(|cols|, i requires 0 <= i < |cols| => AsDecoded(cols[i]))
  }

  /** One column field decodes to the column, but for a leading byte-order mark in its name. */
  lemma ColumnRoundTrip(c: Column)
    requires 1 <= |Encode(c.name)| <= 64
    ensures DecodeColumn(ColumnField(c)) == Ok(AsDecoded(c).(name := Some(StripBom(c.name))))
  {
    hide HostDecode, FlagsOf, TypeByte, Nullable, PrimaryKey, Unique;
    var d := ColumnField(c);
    var nlen := |Encode(c.name)|;
    assert d[0] == nlen && d[1..1 + nlen] == Encode(c.name);
    assert forall j :: 1 + nlen <= j < 65 ==> d[j] == 0;
    assert d[65] == TypeByte(c.typ) && d[66] == FlagsOf(c);
    HostRoundTrip(c.name);
    TypeRoundTrip(c.typ);
    FlagsRoundTrip(c);
  }

  lemma TypeRoundTrip(t: ColumnType)
    ensures TYPES[TypeByte(t)] == t
  {
  }

  lemma FlagsRoundTrip(c: Column)
    ensures Nullable(FlagsOf(c)) == c.nullable
    ensures PrimaryKey(FlagsOf(c)) == c.primaryKey
    ensures Unique(FlagsOf(c)) == c.unique
  {
  }

  function Stripped(cols: seq<Column>): (ds: seq<DecodedColumn>)
    ensures |ds| == |cols|
    ensures forall i :: 0 <= i < |cols| ==> ds[i] == AsDecoded(cols[i]).(name := Some(StripBom(cols[i].name)))
  {
    seq(|cols|, i requires 0 <= i < |cols| => AsDecoded(cols[i]).(name := Some(StripBom(cols[i].name))))
  }

  lemma {:induction false} FieldsAt(cols: seq<Column>, i: nat)
    requires NamesFit(cols) && i < |cols|
    ensures ColumnFields(cols)[COLUMN_REC_LEN * i..COLUMN_REC_LEN * i + COLUMN_REC_LEN] == ColumnField(cols[i])
  {
    var front := cols[..|cols| - 1];
    if i < |front| {
      FieldsAt(front, i);
      assert ColumnFields(cols)[COLUMN_REC_LEN * i..COLUMN_REC_LEN * i + COLUMN_REC_LEN]
          == ColumnFields(front)[COLUMN_REC_LEN * i..COLUMN_REC_LEN * i + COLUMN_REC_LEN];
    }
  }

  lemma SliceOfRecord(buf: Buffer, table: Text, cols: seq<Column>, i: nat)
    requires |Encode(table)| <= 64 && NamesFit(cols) && i < |cols| && buf == Record(table, cols)
    ensures ColumnSlice(buf, i) == ColumnField(cols[i])
  {
    FieldsAt(cols, i);
    var front := Header(|cols|) + NameField(Encode(table));
    assert buf[COLUMNS_AT..] == ColumnFields(cols);
    assert ColumnSlice(buf, i) == buf[COLUMNS_AT..][COLUMN_REC_LEN * i..COLUMN_REC_LEN * i + COLUMN_REC_LEN];
  }

  /** Column `i` of the buffer is the field of `cols[i]`, for every column. */
  ghost predicate HoldsColumns(buf: Buffer, cols: seq<Column>) {
    && NamesFit(cols)
    && COLUMNS_AT + COLUMN_REC_LEN * |cols| <= |buf|
    && forall i :: 0 <= i < |cols| ==> ColumnSlice(buf, i) == ColumnField(cols[i])
  }

  lemma {:induction false} ColumnsRoundTrip(buf: Buffer, cols: seq<Column>, n: nat)
    requires HoldsColumns(buf, cols) && n <= |cols|
    ensures DecodeColumns(buf, n) == Ok(Stripped(cols[..n]))
  {
    if n > 0 {
      ColumnsRoundTrip(buf, cols, n - 1);
      LastColumnDecodes(buf, cols, n);
    } else {
      assert Stripped(cols[..0]) == [];
    }
  }

  lemma LastColumnDecodes(buf: Buffer, cols: seq<Column>, n: nat)
    requires HoldsColumns(buf, cols) && 0 < n <= |cols|
    ensures DecodeColumn(ColumnSlice(buf, n - 1)).Ok?
    ensures Stripped(cols[..n]) == Stripped(cols[..n - 1]) + [DecodeColumn(ColumnSlice(buf, n - 1)).value]
  {
    hide DecodeColumn, ColumnField, ColumnSlice;
    var c := cols[n - 1];
    assert ColumnSlice(buf, n - 1) == ColumnField(c);
    ColumnRoundTrip(c);
  }

  lemma HeaderReads(buf: Buffer, count: nat)
    requires |buf| >= 8 && buf[..8] == Header(count) && count <= 32
    ensures U32At(buf, 0) == CATALOG_REC_MAGIC && U16At(buf, 4) == CATALOG_REC_VERSION && U16At(buf, 6) == count
  {
    assert buf[0..4] == buf[..8][0..4] == U32Bytes(CATALOG_REC_MAGIC);
    WordRoundTrip(CATALOG_REC_MAGIC);
    assert buf[4] == buf[..8][4] && buf[5] == buf[..8][5] && buf[6] == buf[..8][6] && buf[7] == buf[..8][7];
  }

  /** A buffer with a good header decodes to its table name and its columns. */
  lemma DecodesTo(buf: Buffer, table: Text, cols: seq<Column>)
    requires 1 <= |Encode(table)| <= 64 && 1 <= |cols| <= 32 && HoldsColumns(buf, cols)
    requires buf[..8] == Header(|cols|) && buf[8] == |Encode(table)| && buf[9..9 + |Encode(table)|] == Encode(table)
    ensures DecodeCatalog(buf) == Ok(Decoded(Some(StripBom(table)), Stripped(cols)))
  {
    hide U32At, U16At, Encode, HostDecode, DecodeColumns, Header;
    HeaderReads(buf, |cols|);
    ColumnsRoundTrip(buf, cols, |cols|);
    assert cols[..|cols|] == cols;
    HostRoundTrip(table);
  }

  lemma RecordFront(table: Text, cols: seq<Column>)
    requires |Encode(table)| <= 64 && NamesFit(cols)
    ensures var buf := Record(table, cols);
            buf[..8] == Header(|cols|) && buf[8] == |Encode(table)| && buf[9..9 + |Encode(table)|] == Encode(table)
  {
    hide Header, ColumnFields, Encode;
    var buf, name, rest := Record(table, cols), NameField(Encode(table)), ColumnFields(cols);
    assert buf == Header(|cols|) + (name + rest);
    assert (name + rest)[0] == |Encode(table)| && (name + rest)[1..1 + |Encode(table)|] == Encode(table);
  }

  lemma RecordDecodes(table: Text, cols: seq<Column>)
    requires 1 <= |Encode(table)| <= 64 && NamesFit(cols) && 1 <= |cols| <= 32
    ensures DecodeCatalog(Record(table, cols)) == Ok(Decoded(Some(StripBom(table)), Stripped(cols)))
  {
    hide Record, DecodeCatalog, ColumnField, ColumnSlice;
    var buf := Record(table, cols);
    forall i | 0 <= i < |cols|
      ensures ColumnSlice(buf, i) == ColumnField(cols[i])
    {
      SliceOfRecord(buf, table, cols, i);
    }
    RecordFront(table, cols);
    DecodesTo(buf, table, cols);
  }

  /** A table name longer than its field is written, and then never read back. */
  lemma OverlongTableRejected(table: Text, cols: seq<Column>)
    requires EncodeCatalog(table, cols).Ok? && |Encode(table)| > 64
    ensures DecodeCatalog(EncodeCatalog(table, cols).value) == Err(BadTableName)
  {
    hide PutColumns;
    EncodeLengthBound(table);
    var base := Base(table, |cols|);
    FrontUntouched(base, cols, |cols|);
    BaseFront(table, |cols|);
    RejectsByFront(PutColumns(base, cols, |cols|), base, |cols|);
  }

  lemma BaseFront(table: Text, count: nat)
    requires 9 + |Encode(table)| <= EncodedLen(count) && |Encode(table)| < 256
    ensures Base(table, count)[..8] == Header(count) && Base(table, count)[8] == |Encode(table)|
  {
    hide Header;
  }

  lemma RejectsByFront(buf: Buffer, base: Buffer, count: nat)
    requires |buf| == |base| == EncodedLen(count) && buf[..COLUMNS_AT] == base[..COLUMNS_AT]
    requires 1 <= count <= 32 && base[..8] == Header(count) && base[8] > 64
    ensures DecodeCatalog(buf) == Err(BadTableName)
  {
    hide Header, U32At;
    assert buf[..8] == buf[..COLUMNS_AT][..8] == base[..8];
    assert buf[8] == buf[..COLUMNS_AT][8];
    HeaderReads(buf, count);
  }

  lemma {:induction false} FrontUntouched(d: Buffer, cols: seq<Column>, i: nat)
    requires i <= |cols| && EncodedLen(|cols|) <= |d| && NamesFit(cols)
    ensures PutColumns(d, cols, i)[..COLUMNS_AT] == d[..COLUMNS_AT]
  {
    if i > 0 {
      FrontUntouched(d, cols, i - 1);
    }
  }

  /**
   Decoding what was encoded gives the table and every column back exactly when
   the table name's UTF-8 fits its 64-byte field and no name starts with U+FEFF,
   which the host decoder drops.
   */
  lemma DecodeAfterEncodeIff(table: Text, cols: seq<Column>)
    requires EncodeCatalog(table, cols).Ok?
    ensures DecodeCatalog(EncodeCatalog(table, cols).value) == Ok(Decoded(Some(table), AsDecodedAll(cols)))
       <==> |Encode(table)| <= 64 && !BomLed(table) && forall i :: 0 <= i < |cols| ==> !BomLed(cols[i].name)
  {
    EncodeLengthBound(table);
    if |Encode(table)| > 64 {
      OverlongTableRejected(table, cols);
    } else {
      EncodeIsRecord(table, cols);
      RecordDecodes(table, cols);
      if exists i :: 0 <= i < |cols| && BomLed(cols[i].name) {
        var i :| 0 <= i < |cols| && BomLed(cols[i].name);
        assert |StripBom(cols[i].name)| < |cols[i].name|;
        assert Stripped(cols)[i] != AsDecodedAll(cols)[i];
      } else {
        assert Stripped(cols) == AsDecodedAll(cols);
      }
      if BomLed(table) {
        assert |StripBom(table)| < |table|;
      }
    }
  }

  // ----- encode after decode

  predicate Named(c: DecodedColumn) {
    c.name.Some?
  }

  function AsColumn(c: DecodedColumn): Column
    requires Named(c)
  {
    Column(c.name.value, c.typ, c.nullable, c.primaryKey, c.unique)
  }

  /** Name bytes that the host decodes without loss. */
  predicate Lossless(d: Buffer) {
    Decode(d).Some? && !BomLed(Decode(d).value)
  }

  lemma LosslessReencodes(d: Buffer)
    requires Lossless(d)
    ensures HostDecode(d).Some? && Encode(HostDecode(d).value) == d
  {
    EncodeDecode(d);
  }

  lemma TypeOfByte(b: byte)
    requires b < 13
    ensures TypeByte(TYPES[b]) == b
  {
  }

  lemma FlagsOfByte(f: byte, c: Column)
    requires f < 8 && c.nullable == Nullable(f) && c.primaryKey == PrimaryKey(f) && c.unique == Unique(f)
    ensures FlagsOf(c) == f
  {
  }

  /** An accepted column field with a lossless name is the field of what it decodes to. */
  lemma ColumnReencodes(d: Buffer)
    requires |d| == COLUMN_REC_LEN && DecodeColumn(d).Ok? && Lossless(d[1..1 + d[0]])
    ensures Named(DecodeColumn(d).value)
    ensures var c := AsColumn(DecodeColumn(d).value);
            1 <= |Encode(c.name)| <= 64 && ColumnField(c) == d
  {
    hide HostDecode, FlagsOf, TypeByte, Nullable, PrimaryKey, Unique, Lossless;
    var c := DecodeColumn(d).value;
    var nlen := d[0];
    LosslessReencodes(d[1..1 + nlen]);
    var k := AsColumn(c);
    TypeOfByte(d[65]);
    FlagsOfByte(d[66], k);
    assert NameField(Encode(k.name)) == [nlen] + d[1..1 + nlen] + d[1 + nlen..65];
    assert d == [nlen] + d[1..1 + nlen] + d[1 + nlen..65] + [d[65], d[66]];
  }

  ghost predicate LosslessColumns(buf: Buffer, n: nat)
    requires COLUMNS_AT + COLUMN_REC_LEN * n <= |buf|
  {
    forall i :: 0 <= i < n ==>
        ColumnSlice(buf, i)[0] <= 64 && Lossless(ColumnSlice(buf, i)[1..1 + ColumnSlice(buf, i)[0]])
  }

  /** The bytes of the first `n` column fields. */
  function ColumnBytes(buf: Buffer, n: nat): Buffer
    requires COLUMNS_AT + COLUMN_REC_LEN * n <= |buf|
  {
    buf[COLUMNS_AT..COLUMNS_AT + COLUMN_REC_LEN * n]
  }

  lemma {:induction false} ColumnsReencode(buf: Buffer, n: nat) returns (cols: seq<Column>)
    requires COLUMNS_AT + COLUMN_REC_LEN * n <= |buf|
    requires DecodeColumns(buf, n).Ok? && LosslessColumns(buf, n)
    ensures |cols| == n && NamesFit(cols)
    ensures DecodeColumns(buf, n).value == AsDecodedAll(cols)
    ensures ColumnFields(cols) == ColumnBytes(buf, n)
  {
    cols := [];
    if n > 0 {
      var front := ColumnsReencode(buf, n - 1);
      var c := LastColumnReencodes(buf, n);
      AppendColumn(front, c);
      cols := front + [c];
    }
  }

  lemma LastColumnReencodes(buf: Buffer, n: nat) returns (c: Column)
    requires n > 0 && COLUMNS_AT + COLUMN_REC_LEN * n <= |buf|
    requires DecodeColumns(buf, n).Ok? && LosslessColumns(buf, n)
    ensures DecodeColumns(buf, n - 1).Ok?
    ensures DecodeColumns(buf, n).value == DecodeColumns(buf, n - 1).value + [AsDecoded(c)]
    ensures 1 <= |Encode(c.name)| <= 64
    ensures ColumnBytes(buf, n) == ColumnBytes(buf, n - 1) + ColumnField(c)
  {
    var d := ColumnSlice(buf, n - 1);
    ColumnReencodes(d);
    c := AsColumn(DecodeColumn(d).value);
    ColumnBytesGrow(buf, n);
  }

  lemma ColumnBytesGrow(buf: Buffer, n: nat)
    requires n > 0 && COLUMNS_AT + COLUMN_REC_LEN * n <= |buf|
    ensures ColumnBytes(buf, n) == ColumnBytes(buf, n - 1) + ColumnSlice(buf, n - 1)
  {
  }

  lemma AppendColumn(front: seq<Column>, c: Column)
    requires NamesFit(front) && 1 <= |Encode(c.name)| <= 64
    ensures NamesFit(front + [c])
    ensures ColumnFields(front + [c]) == ColumnFields(front) + ColumnField(c)
    ensures AsDecodedAll(front + [c]) == AsDecodedAll(front) + [AsDecoded(c)]
  {
    assert (front + [c])[..|front|] == front;
  }

  /** The bytes between the table name and the end of its field, which the decoder does not look at. */
  predicate ZeroTablePadding(buf: Buffer)
    requires |buf| >= COLUMNS_AT
  {
    forall j :: 9 + buf[8] <= j < COLUMNS_AT ==> buf[j] == 0
  }

  /**
   Every buffer the decoder accepts, with zero table-name padding and names the
   host decodes without loss, is the encoding of what it decoded to.
   */
  lemma EncodeAfterDecode(buf: Buffer) returns (table: Text, cols: seq<Column>)
    requires DecodeCatalog(buf).Ok? && ZeroTablePadding(buf)
    requires Lossless(buf[9..9 + buf[8]]) && LosslessColumns(buf, U16At(buf, 6))
    ensures DecodeCatalog(buf) == Ok(Decoded(Some(table), AsDecodedAll(cols)))
    ensures EncodeCatalog(table, cols) == Ok(buf[..EncodedLen(U16At(buf, 6))])
  {
    var count := U16At(buf, 6);
    LosslessReencodes(buf[9..9 + buf[8]]);
    table := HostDecode(buf[9..9 + buf[8]]).value;
    cols := ColumnsReencode(buf, count);
    EncodeLengthBound(table);
    Reassembled(buf, table, cols);
  }

  /** `table` and `cols` are what the buffer decodes to, and encode back to its bytes. */
  ghost predicate Reencodes(buf: Buffer, table: Text, cols: seq<Column>) {
    && |buf| >= COLUMNS_AT && EncodedLen(U16At(buf, 6)) <= |buf|
    && DecodeCatalog(buf) == Ok(Decoded(Some(table), AsDecodedAll(cols)))
    && EncodeCatalog(table, cols) == Ok(buf[..EncodedLen(U16At(buf, 6))])
  }

  /** Exactly which accepted buffers re-encode to themselves. */
  lemma ReencodesIff(buf: Buffer)
    requires DecodeCatalog(buf).Ok?
    ensures (exists table, cols :: Reencodes(buf, table, cols)) <==>
              ZeroTablePadding(buf) && Lossless(buf[9..9 + buf[8]]) && LosslessColumns(buf, U16At(buf, 6))
  {
    if ZeroTablePadding(buf) && Lossless(buf[9..9 + buf[8]]) && LosslessColumns(buf, U16At(buf, 6)) {
      var table, cols := EncodeAfterDecode(buf);
      assert Reencodes(buf, table, cols);
    }
    if table, cols :| Reencodes(buf, table, cols) {
      PrefixDecodes(buf);
      DecodeAfterEncodeIff(table, cols);
      EncodeIsRecord(table, cols);
      RecordIsClean(buf, table, cols);
    }
  }

  /** Decoding looks at the record's own bytes only. */
  lemma PrefixDecodes(buf: Buffer)
    requires |buf| >= COLUMNS_AT && EncodedLen(U16At(buf, 6)) <= |buf|
    ensures DecodeCatalog(buf[..EncodedLen(U16At(buf, 6))]) == DecodeCatalog(buf)
  {
    hide DecodeColumns, HostDecode, Number;
    var count := U16At(buf, 6);
    var front := buf[..EncodedLen(count)];
    assert front[0..4] == buf[0..4];
    assert front[4] == buf[4] && front[5] == buf[5] && front[6] == buf[6] && front[7] == buf[7];
    PrefixColumns(buf, count, count);
    if buf[8] <= 64 { assert front[9..9 + buf[8]] == buf[9..9 + buf[8]]; }
  }

  lemma {:induction false} PrefixColumns(buf: Buffer, count: nat, n: nat)
    requires n <= count && EncodedLen(count) <= |buf|
    ensures DecodeColumns(buf[..EncodedLen(count)], n) == DecodeColumns(buf, n)
  {
    hide DecodeColumn;
    if n > 0 {
      PrefixColumns(buf, count, n - 1);
      assert ColumnSlice(buf[..EncodedLen(count)], n - 1) == ColumnSlice(buf, n - 1);
    }
  }

  lemma RecordIsClean(buf: Buffer, table: Text, cols: seq<Column>)
    requires |Encode(table)| <= 64 && NamesFit(cols) && |buf| >= EncodedLen(|cols|) && U16At(buf, 6) == |cols|
    requires buf[..EncodedLen(|cols|)] == Record(table, cols)
    requires !BomLed(table) && forall i :: 0 <= i < |cols| ==> !BomLed(cols[i].name)
    ensures ZeroTablePadding(buf) && buf[8] <= 64 && Lossless(buf[9..9 + buf[8]]) && LosslessColumns(buf, |cols|)
  {
    hide Record, ColumnField, ColumnFields, Header, Encode;
    var d := Record(table, cols);
    var name := Encode(table);
    RecordFront(table, cols);
    RecordPadding(table, cols);
    assert buf[8] == d[8] && buf[9..9 + |name|] == d[9..9 + |name|];
    forall j | 9 + |name| <= j < COLUMNS_AT
      ensures buf[j] == 0
    {
      assert buf[j] == d[j];
    }
    DecodeEncode(table);
    forall i | 0 <= i < |cols|
      ensures ColumnSlice(buf, i)[0] <= 64 && Lossless(ColumnSlice(buf, i)[1..1 + ColumnSlice(buf, i)[0]])
    {
      SliceOfRecord(d, table, cols, i);
      assert ColumnSlice(buf, i) == ColumnSlice(d, i);
      FieldName(cols[i]);
      DecodeEncode(cols[i].name);
    }
  }

  lemma RecordPadding(table: Text, cols: seq<Column>)
    requires |Encode(table)| <= 64 && NamesFit(cols)
    ensures forall j :: 9 + |Encode(table)| <= j < COLUMNS_AT ==> Record(table, cols)[j] == 0
  {
    hide Header, ColumnFields, Encode;
  }

  lemma FieldName(c: Column)
    requires |Encode(c.name)| <= 64
    ensures ColumnField(c)[0] == |Encode(c.name)| && ColumnField(c)[1..1 + |Encode(c.name)|] == Encode(c.name)
  {
    hide Encode;
  }

  lemma Reassembled(buf: Buffer, table: Text, cols: seq<Column>)
    requires |buf| >= EncodedLen(|cols|) && ZeroTablePadding(buf)
    requires U32At(buf, 0) == CATALOG_REC_MAGIC && U16At(buf, 4) == CATALOG_REC_VERSION && U16At(buf, 6) == |cols|
    requires 1 <= |cols| <= 32 && NamesFit(cols) && 1 <= buf[8] <= 64 && Encode(table) == buf[9..9 + buf[8]]
    requires ColumnFields(cols) == ColumnBytes(buf, |cols|)
    ensures EncodeCatalog(table, cols) == Ok(buf[..EncodedLen(|cols|)])
  {
    hide EncodeCatalog, U32At, U16At, Header, NameField, ColumnFields;
    Encodes(table, cols);
    EncodeIsRecord(table, cols);
    HeaderIsBytes(buf);
    TableFieldIsBytes(buf, table);
    Join(buf, 8, COLUMNS_AT, EncodedLen(|cols|));
  }

  lemma Encodes(table: Text, cols: seq<Column>)
    requires 1 <= |cols| <= 32 && NamesFit(cols) && 1 <= |Encode(table)| <= 64
    ensures EncodeCatalog(table, cols).Ok?
  {
    EncodeLengthBound(table);
  }

  lemma Join(buf: Buffer, i: nat, j: nat, k: nat)
    requires i <= j <= k <= |buf|
    ensures buf[..k] == buf[..i] + buf[i..j] + buf[j..k]
  {
  }

  lemma TableFieldIsBytes(buf: Buffer, table: Text)
    requires |buf| >= COLUMNS_AT && buf[8] <= 64 && ZeroTablePadding(buf)
    requires Encode(table) == buf[9..9 + buf[8]]
    ensures NameField(Encode(table)) == buf[8..COLUMNS_AT]
  {
    var tlen := buf[8];
    assert buf[8..COLUMNS_AT] == [tlen] + buf[9..9 + tlen] + buf[9 + tlen..COLUMNS_AT];
    assert buf[9 + tlen..COLUMNS_AT] == Zeros(64 - tlen);
  }

  lemma HeaderIsBytes(buf: Buffer)
    requires |buf| >= 8 && U32At(buf, 0) == CATALOG_REC_MAGIC && U16At(buf, 4) == CATALOG_REC_VERSION
    ensures buf[..8] == Header(U16At(buf, 6))
  {
    WordRoundTrip(CATALOG_REC_MAGIC);
    NumberInjective(buf[0..4], U32Bytes(CATALOG_REC_MAGIC));
    assert buf[..8] == buf[0..4] + [buf[4], buf[5], buf[6], buf[7]];
  }

  // ----- what is accepted, and the bytes

  /**
   A table encodes exactly when its name has 1 to 64 characters, it has 1 to 32
   columns with names of 1 to 64 bytes, and, with a single column, the name stops
   short of the record's end.
   */
  lemma EncodesIff(table: Text, cols: seq<Column>)
    ensures EncodeCatalog(table, cols).Ok? <==>
              && 1 <= Utf16Length(table) <= 64 && 1 <= |cols| <= 32
              && (|cols| == 1 ==> |Encode(table)| <= 131)
              && forall i :: 0 <= i < |cols| ==> 1 <= |Encode(cols[i].name)| <= 64
  {
    hide PutColumns, Base;
    EncodeLengthBound(table);
  }

  /** The bytes of a record, field by field. */
  lemma RecordBytes(table: Text, cols: seq<Column>, i: nat)
    requires EncodeCatalog(table, cols).Ok? && |Encode(table)| <= 64 && i < |cols|
    ensures var d, n, at := EncodeCatalog(table, cols).value, |Encode(cols[i].name)|, 73 + 67 * i;
            && |d| == 73 + 67 * |cols|
            && d[..8] == [0x54, 0x41, 0x43, 0x54, 1, 0, |cols|, 0]
            && d[8] == |Encode(table)| && d[9..9 + |Encode(table)|] == Encode(table)
            && d[at] == n && d[at + 1..at + 1 + n] == Encode(cols[i].name)
            && d[at + 65] <= 12 && cols[i].typ ==
                 [Bool, Int8, Int16, Int32, Int64, UInt8, UInt16, UInt32, Float32, Float64, String, Blob,
                  TimestampMs][d[at + 65]]
            && d[at + 66] == (if cols[i].nullable then 1 else 0) + (if cols[i].primaryKey then 2 else 0)
                 + (if cols[i].unique then 4 else 0)
  {
    hide PutColumns, Base, ColumnField, Header, Encode;
    EncodeIsRecord(table, cols);
    RecordFront(table, cols);
    HeaderBytes(|cols|);
    SliceOfRecord(Record(table, cols), table, cols, i);
    FieldBytes(cols[i]);
    var d, at := Record(table, cols), 73 + 67 * i;
    var f := ColumnField(cols[i]);
    assert d[at..at + 67] == f;
    assert d[at] == f[0] && d[at + 65] == f[65] && d[at + 66] == f[66];
    assert d[at + 1..at + 1 + |Encode(cols[i].name)|] == f[1..1 + |Encode(cols[i].name)|];
  }

  lemma HeaderBytes(count: nat)
    requires count <= 32
    ensures Header(count) == [0x54, 0x41, 0x43, 0x54, 1, 0, count, 0]
  {
    WordRoundTrip(CATALOG_REC_MAGIC);
    NumberInjective(U32Bytes(CATALOG_REC_MAGIC), [0x54, 0x41, 0x43, 0x54]);
  }

  lemma FieldBytes(c: Column)
    requires |Encode(c.name)| <= 64
    ensures var f, n := ColumnField(c), |Encode(c.name)|;
            && f[0] == n && f[1..1 + n] == Encode(c.name)
            && f[65] <= 12 && c.typ ==
                 [Bool, Int8, Int16, Int32, Int64, UInt8, UInt16, UInt32, Float32, Float64, String, Blob,
                  TimestampMs][f[65]]
            && f[66] == (if c.nullable then 1 else 0) + (if c.primaryKey then 2 else 0) + (if c.unique then 4 else 0)
  {
    hide Encode;
  }

  /** The column bytes the decoder accepts. */
  predicate ColumnAccepted(d: Buffer)
    requires |d| == 67
  {
    && 1 <= d[0] <= 64 && d[65] <= 12 && d[66] <= 7
    && forall j :: 1 + d[0] as int <= j < 65 ==> d[j] == 0
  }

  /** Exactly which buffers decode. */
  lemma DecodesIff(buf: Buffer)
    ensures DecodeCatalog(buf).Ok? <==>
              && |buf| >= 73 && U32At(buf, 0) == 0x5443_4154 && U16At(buf, 4) == 1
              && 1 <= U16At(buf, 6) <= 32 && |buf| >= 73 + 67 * U16At(buf, 6) && 1 <= buf[8] <= 64
              && forall i :: 0 <= i < U16At(buf, 6) ==> ColumnAccepted(buf[73 + 67 * i..73 + 67 * i + 67])
  {
    hide DecodeColumns, U32At, ColumnAccepted;
    if |buf| >= 73 && |buf| >= 73 + 67 * U16At(buf, 6) {
      ColumnsDecodeIff(buf, U16At(buf, 6));
    }
  }

  lemma {:induction false} ColumnsDecodeIff(buf: Buffer, n: nat)
    requires 73 + 67 * n <= |buf|
    ensures DecodeColumns(buf, n).Ok? <==>
              forall i :: 0 <= i < n ==> ColumnAccepted(buf[73 + 67 * i..73 + 67 * i + 67])
  {
    hide DecodeColumn, ColumnAccepted;
    if n > 0 {
      ColumnsDecodeIff(buf, n - 1);
      ColumnDecodeIff(ColumnSlice(buf, n - 1));
    }
  }

  lemma ColumnDecodeIff(d: Buffer)
    requires |d| == 67
    ensures DecodeColumn(d).Ok? <==> ColumnAccepted(d)
  {
    hide HostDecode;
  }
}
