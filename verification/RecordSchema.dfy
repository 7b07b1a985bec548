/**
 Schema compilation: a field-type list becomes byte offsets, each field on its
 own alignment, the record padded to a whole number of eight-byte units.
 */
module RecordSchema {
  import opened Bytes
  import opened Utf8

  const RECORD_ALIGNMENT: nat := 8

  datatype FieldType = UInt8 | UInt32 | Float64 | Str | Unknown

  datatype Field = Field(typ: FieldType, offset: nat, size: nat)

  datatype Schema = Schema(fields: map<Text, Field>, totalSize: nat)

  datatype Compilation = Compiled(schema: Schema) | EmptyDefinition | UnknownType(name: Text)

  datatype Decl = Decl(name: Text, typ: FieldType)

  function Width(t: FieldType): nat {
    match t
    case UInt8 => 1
    case UInt32 => 4
    case Float64 => 8
    case Str => 8
    case Unknown => 0
  }

  function Alignment(t: FieldType): (a: nat)
    ensures a == 1 || a == 4 || a == 8
  {
    match t
    case UInt32 => 4
    case Float64 => 8
    case Str => 8
    case _ => 1
  }

  /** `Math.ceil(value / align) * align`, for the three alignments in use. */
  function AlignUp(value: nat, align: nat): (r: nat)
    requires align == 1 || align == 4 || align == 8
    ensures value <= r < value + align && r % align == 0
  {
    if align == 1 then value
    else if align == 4 then (value + 3) / 4 * 4
    else (value + 7) / 8 * 8
  }

  /** Where the first `i` declarations end when packed in order. */
  function EndOf(decls: seq<Decl>, i: nat): nat
    requires i <= |decls|
    decreases i, 0
  {
    if i == 0 then 0 else StartOf(decls, i - 1) + Width(decls[i - 1].typ)
  }

  /** Where declaration `i` starts: its own alignment, after everything before it. */
  function StartOf(decls: seq<Decl>, i: nat): nat
    requires i < |decls|
    decreases i, 1
  {
    AlignUp(EndOf(decls, i), Alignment(decls[i].typ))
  }

  predicate DistinctNames(decls: seq<Decl>) {
    forall i, j :: 0 <= i < j < |decls| ==> decls[i].name != decls[j].name
  }

  /** Everything the store relies on about a compiled layout. */
  ghost predicate WellLaid(s: Schema) {
    && 0 < s.totalSize && s.totalSize % RECORD_ALIGNMENT == 0
    && (forall n :: n in s.fields ==> FieldFits(s.fields[n], s.totalSize))
    && (forall n, k :: n in s.fields && k in s.fields && n != k
          ==> Disjoint(s.fields[n].offset, s.fields[n].size, s.fields[k].offset, s.fields[k].size))
  }

  predicate FieldFits(f: Field, total: nat) {
    && f.typ != Unknown
    && f.size == Width(f.typ)
    && f.offset % Alignment(f.typ) == 0
    && f.offset + f.size <= total
  }

  /** Declaration `i` compiled after those before it. */
  function FieldAt(decls: seq<Decl>, i: nat): Field
    requires i < |decls|
  {
    Field(decls[i].typ, StartOf(decls, i), Width(decls[i].typ))
  }

  /** `fields` holds the first `i` declarations, tightly packed, and no others. */
  ghost predicate Packed(decls: seq<Decl>, i: nat, fields: map<Text, Field>)
    requires i <= |decls|
  {
    && (forall j :: 0 <= j < i ==> decls[j].typ != Unknown)
    && (forall j :: 0 <= j < i ==> decls[j].name in fields && fields[decls[j].name] == FieldAt(decls, j))
    && (forall n :: n in fields ==> exists j :: 0 <= j < i && decls[j].name == n)
  }

  lemma PackOne(decls: seq<Decl>, i: nat, fields: map<Text, Field>)
    requires DistinctNames(decls) && i < |decls| && decls[i].typ != Unknown
    requires Packed(decls, i, fields)
    ensures Packed(decls, i + 1, fields[decls[i].name := FieldAt(decls, i)])
  {
  }

  /**
   Compiles a definition. It is refused when empty or when some type is unknown;
   otherwise the layout is well laid, has exactly the declared names, and is
   tight: field `i` starts at the next multiple of its alignment after field
   `i - 1` ends.
   */
  method Compile(decls: seq<Decl>) returns (r: Compilation)
    requires DistinctNames(decls)
    ensures r.EmptyDefinition? <==> decls == []
    ensures r.UnknownType? <==> exists i :: 0 <= i < |decls| && decls[i].typ == Unknown
    ensures r.Compiled? ==> WellLaid(r.schema) && Packed(decls, |decls|, r.schema.fields)
    ensures r.Compiled? ==> r.schema.totalSize == AlignUp(EndOf(decls, |decls|), RECORD_ALIGNMENT)
  {
    if decls == [] {
      return EmptyDefinition;
    }
    var currentOffset := 0;
    var fields: map<Text, Field> := map[];
    var i := 0;
    while i < |decls|
      invariant 0 <= i <= |decls|
      invariant currentOffset == EndOf(decls, i)
      invariant Packed(decls, i, fields)
    {
      var d := decls[i];
      if d.typ == Unknown {
        return UnknownType(d.name);
      }
      currentOffset := AlignUp(currentOffset, Alignment(d.typ));
      PackOne(decls, i, fields);
      fields := fields[d.name := Field(d.typ, currentOffset, Width(d.typ))];
      currentOffset := currentOffset + Width(d.typ);
      i := i + 1;
    }
    var schema := Schema(fields, AlignUp(currentOffset, RECORD_ALIGNMENT));
    PackedIsWellLaid(decls, schema);
    r := Compiled(schema);
  }

  lemma {:induction false} FieldsAscend(decls: seq<Decl>, i: nat, j: nat)
    requires i < j <= |decls|
    ensures StartOf(decls, i) + Width(decls[i].typ) <= EndOf(decls, j)
  {
    if i + 1 < j {
      FieldsAscend(decls, i, j - 1);
    }
  }

  lemma PackedFits(decls: seq<Decl>, s: Schema, i: nat)
    requires i < |decls| && Packed(decls, |decls|, s.fields)
    requires s.totalSize == AlignUp(EndOf(decls, |decls|), RECORD_ALIGNMENT)
    ensures FieldFits(FieldAt(decls, i), s.totalSize) && 0 < s.totalSize
  {
    FieldsAscend(decls, i, |decls|);
  }

  lemma PackedIsWellLaid(decls: seq<Decl>, s: Schema)
    requires decls != [] && Packed(decls, |decls|, s.fields)
    requires s.totalSize == AlignUp(EndOf(decls, |decls|), RECORD_ALIGNMENT)
    ensures WellLaid(s)
  {
    PackedFits(decls, s, 0);
    forall n | n in s.fields
      ensures FieldFits(s.fields[n], s.totalSize)
    {
      var i := DeclarationOf(decls, s.fields, n);
      PackedFits(decls, s, i);
    }
    forall n, k | n in s.fields && k in s.fields && n != k
      ensures Disjoint(s.fields[n].offset, s.fields[n].size, s.fields[k].offset, s.fields[k].size)
    {
      var i := DeclarationOf(decls, s.fields, n);
      var j := DeclarationOf(decls, s.fields, k);
      ApartInOrder(decls, i, j);
    }
  }

  lemma ApartInOrder(decls: seq<Decl>, i: nat, j: nat)
    requires i < |decls| && j < |decls| && i != j
    ensures Disjoint(FieldAt(decls, i).offset, FieldAt(decls, i).size, FieldAt(decls, j).offset, FieldAt(decls, j).size)
  {
    if i < j { FieldsAscend(decls, i, j); } else { FieldsAscend(decls, j, i); }
  }

  lemma DeclarationOf(decls: seq<Decl>, fields: map<Text, Field>, n: Text) returns (i: nat)
    requires Packed(decls, |decls|, fields) && n in fields
    ensures i < |decls| && decls[i].name == n && fields[n] == FieldAt(decls, i)
  {
    i :| 0 <= i < |decls| && decls[i].name == n;
  }

  /**
   Where fields land: sizes and boundaries by type, in declaration order, each on
   the first boundary after the one before.
   */
  lemma FieldsSitTight(decls: seq<Decl>, i: nat)
    requires i < |decls| && decls[i].typ != Unknown
    ensures var f := FieldAt(decls, i);
            var end := if i == 0 then 0 else FieldAt(decls, i - 1).offset + FieldAt(decls, i - 1).size;
            && (f.typ == UInt8 ==> f.size == 1 && f.offset == end)
            && (f.typ == UInt32 ==> f.size == 4 && f.offset % 4 == 0 && end <= f.offset < end + 4)
            && (f.typ == Float64 || f.typ == Str ==>
                  f.size == 8 && f.offset % 8 == 0 && end <= f.offset < end + 8)
  {
    assert i > 0 ==> EndOf(decls, i) == StartOf(decls, i - 1) + Width(decls[i - 1].typ);
  }
}
