/**
 The relational schema compiler: which table definitions it accepts, and the
 packed row layout it assigns behind a four-byte null bitmap.
 */
module RelationalSchema {
  import opened JsText
  import opened Options
  import opened TableModel

  const BITMAP_BYTES: nat := 4
  const MAX_COLUMNS: nat := 32
  const MAX_COLUMN_NAME: nat := 64

  predicate Letter(u: Unit) {
    0x41 <= u <= 0x5A || 0x61 <= u <= 0x7A || u == 0x5F
  }

  /** `[a-zA-Z_][a-zA-Z0-9_]*` over the whole text. */
  predicate Identifier(s: Str) {
    s != [] && Letter(s[0]) && forall i :: 0 <= i < |s| ==> Letter(s[i]) || 0x30 <= s[i] <= 0x39
  }

  predicate ColumnOk(c: Column) {
    Identifier(c.name) && |c.name| <= MAX_COLUMN_NAME && !(c.primaryKey && c.nullable)
  }

  function TypeSize(t: Catalog.ColumnType): (n: nat)
    ensures 1 <= n <= 8
  {
    match t
    case Bool => 1 case Int8 => 1 case UInt8 => 1
    case Int16 => 2 case UInt16 => 2
    case Int32 => 4 case UInt32 => 4 case Float32 => 4
    case Int64 => 8 case Float64 => 8 case TimestampMs => 8 case String => 8 case Blob => 8
  }

  /** Where column `i` starts, packed behind the bitmap. */
  function OffsetOf(defs: seq<Column>, i: nat): nat
    requires i <= |defs|
  {
    if i == 0 then BITMAP_BYTES else OffsetOf(defs, i - 1) + TypeSize(defs[i - 1].typ)
  }

  /** Column `k` is the primary key and no other is. */
  predicate KeyAt(defs: seq<Column>, k: nat) {
    k < |defs| && forall i :: 0 <= i < |defs| ==> (defs[i].primaryKey <==> i == k)
  }

  predicate NamesDistinct(defs: seq<Column>) {
    forall i, j :: 0 <= i < j < |defs| ==> defs[i].name != defs[j].name
  }

  predicate ColumnsOk(defs: seq<Column>) {
    forall i :: 0 <= i < |defs| ==> ColumnOk(defs[i])
  }

  /** The definitions the compiler accepts. */
  ghost predicate Accepts(tableName: Str, defs: seq<Column>) {
    Identifier(tableName) && 1 <= |defs| <= MAX_COLUMNS && ColumnsOk(defs) && NamesDistinct(defs)
    && exists k: nat :: KeyAt(defs, k)
  }

  /** How many columns are declared primary keys. */
  function Keys(defs: seq<Column>): nat {
    if defs == [] then 0 else Keys(defs[..|defs| - 1]) + (if defs[|defs| - 1].primaryKey then 1 else 0)
  }

  lemma {:induction false} NoKeys(defs: seq<Column>)
    ensures Keys(defs) == 0 <==> forall i :: 0 <= i < |defs| ==> !defs[i].primaryKey
  {
    if defs != [] { NoKeys(defs[..|defs| - 1]); }
  }

  lemma {:induction false} OneKeyIff(defs: seq<Column>)
    ensures Keys(defs) == 1 <==> exists k: nat :: KeyAt(defs, k)
  {
    if defs != [] {
      var last: nat := |defs| - 1;
      var front := defs[..last];
      NoKeys(front);
      OneKeyIff(front);
      if Keys(defs) == 1 {
        if defs[last].primaryKey {
          assert KeyAt(defs, last);
        } else {
          var k: nat :| KeyAt(front, k);
          assert KeyAt(defs, k);
        }
      }
      if k: nat :| KeyAt(defs, k) {
        assert k < last ==> KeyAt(front, k);
        assert k < last ==> front[k].primaryKey;
      }
    }
  }

  function Names(defs: seq<Column>): set<Str> {
    set i | 0 <= i < |defs| :: defs[i].name
  }

  lemma NoColumns(defs: seq<Column>)
    ensures Names(defs[..0]) == {} && ColumnsOk(defs[..0]) && NamesDistinct(defs[..0]) && Keys(defs[..0]) == 0
  {
  }

  /** One more column: what each check adds, and that a failed check cannot be mended by later columns. */
  lemma NextColumn(defs: seq<Column>, i: nat)
    requires i < |defs| && ColumnsOk(defs[..i]) && NamesDistinct(defs[..i])
    ensures ColumnOk(defs[i]) && defs[i].name !in Names(defs[..i]) <==>
              ColumnsOk(defs[..i + 1]) && NamesDistinct(defs[..i + 1])
    ensures ColumnsOk(defs) && NamesDistinct(defs) ==> ColumnsOk(defs[..i + 1]) && NamesDistinct(defs[..i + 1])
    ensures Names(defs[..i + 1]) == Names(defs[..i]) + {defs[i].name}
    ensures Keys(defs[..i + 1]) == Keys(defs[..i]) + (if defs[i].primaryKey then 1 else 0)
  {
    hide ColumnOk;
    var next, front := defs[..i + 1], defs[..i];
    assert next[..i] == front && next[i] == defs[i];
    forall n
      ensures n in Names(next) <==> n in Names(front) || n == defs[i].name
    {
      if n in Names(next) {
        var j :| 0 <= j < |next| && next[j].name == n;
        assert j < i ==> front[j].name == n;
      }
      if n in Names(front) {
        var j :| 0 <= j < |front| && front[j].name == n;
        assert next[j].name == n;
      }
      assert next[i].name == defs[i].name;
    }
    if defs[i].name in Names(front) {
      var j :| 0 <= j < |front| && front[j].name == defs[i].name;
      assert next[j].name == next[i].name;
    } else {
      forall j | 0 <= j < i
        ensures next[j].name != defs[i].name
      {
        assert front[j].name in Names(front);
      }
    }
  }

  datatype Compiled = Compiled(schema: Schema, offsets: seq<nat>, totalSize: nat)

  /** The schema and layout of an accepted definition; None where the source throws. */
  method Compile(tableName: Str, defs: seq<Column>) returns (r: Option<Compiled>)
    ensures r.Some? <==> Accepts(tableName, defs)
    ensures r.Some? ==> SchemaOk(r.value.schema) && r.value.schema.columns == defs
    ensures r.Some? ==> |r.value.offsets| == |defs| && r.value.totalSize == OffsetOf(defs, |defs|)
    ensures r.Some? ==> forall i :: 0 <= i < |defs| ==> r.value.offsets[i] == OffsetOf(defs, i)
  {
    hide Identifier, TypeSize, ColumnOk, SchemaOk, KeyAt, Keys, Names, ColumnsOk, NamesDistinct;
    if !Identifier(tableName) || |defs| == 0 || |defs| > MAX_COLUMNS {
      return None;
    }
    var seen: set<Str> := {};
    NoColumns(defs);
    var keys, offset := 0, BITMAP_BYTES;
    var offsets: seq<nat> := [];
    for i := 0 to |defs|
      invariant seen == Names(defs[..i]) && ColumnsOk(defs[..i]) && NamesDistinct(defs[..i])
      invariant offset == OffsetOf(defs, i) && |offsets| == i
      invariant forall j :: 0 <= j < i ==> offsets[j] == OffsetOf(defs, j)
      invariant keys == Keys(defs[..i])
    {
      var d := defs[i];
      NextColumn(defs, i);
      if !ColumnOk(d) || d.name in seen {
        return None;
      }
      seen := seen + {d.name};
      if d.primaryKey {
        keys := keys + 1;
      }
      offsets := offsets + [offset];
      offset := offset + TypeSize(d.typ);
    }
    assert defs[..|defs|] == defs;
    OneKeyIff(defs);
    if keys != 1 {
      return None;
    }
    var k := FindKey(defs);
    SchemaFromKey(defs, k);
    r := Some(Compiled(Schema(defs, defs[k].name), offsets, offset));
  }

  /** `compiled.find((c) => c.primaryKey)` */
  method FindKey(defs: seq<Column>) returns (k: nat)
    requires exists k: nat :: KeyAt(defs, k)
    ensures KeyAt(defs, k)
  {
    ghost var p: nat :| KeyAt(defs, p);
    k := 0;
    while !defs[k].primaryKey
      invariant k <= p && forall j :: 0 <= j < k ==> !defs[j].primaryKey
      decreases |defs| - k
    {
      k := k + 1;
    }
  }

  lemma SchemaFromKey(defs: seq<Column>, k: nat)
    requires 1 <= |defs| <= MAX_COLUMNS && ColumnsOk(defs) && NamesDistinct(defs) && KeyAt(defs, k)
    ensures SchemaOk(Schema(defs, defs[k].name))
  {
    hide Identifier;
    forall i | 0 <= i < |defs|
      ensures defs[i].primaryKey <==> defs[i].name == defs[k].name
      ensures defs[i].primaryKey ==> !defs[i].nullable
    {
      assert ColumnOk(defs[i]);
      if i < k { assert defs[i].name != defs[k].name; }
      if k < i { assert defs[k].name != defs[i].name; }
    }
  }

  /** Columns never overlap each other or the bitmap, and all end inside the row. */
  lemma {:induction false} ColumnsApart(defs: seq<Column>, i: nat, j: nat)
    requires i < j <= |defs|
    ensures BITMAP_BYTES <= OffsetOf(defs, i) && OffsetOf(defs, i) + TypeSize(defs[i].typ) <= OffsetOf(defs, j)
    decreases j
  {
    hide TypeSize;
    if j > i + 1 {
      ColumnsApart(defs, i, j - 1);
    } else if i > 0 {
      ColumnsApart(defs, i - 1, i);
    }
  }

  // ----- the null bitmap

  function Power(k: nat): (p: nat)
    ensures p > 0
  {
    if k == 0 then 1 else 2 * Power(k - 1)
  }

  /** `1 << (index % 32)` on 32-bit signed integers. */
  function NullBit(index: nat): int {
    if index % 32 == 31 then 0 - Power(31) else Power(index % 32)
  }

  lemma {:induction false} PowerGrows(i: nat, j: nat)
    requires i < j
    ensures Power(i) < Power(j)
    decreases j
  {
    if i < j - 1 { PowerGrows(i, j - 1); }
  }

  /** Two columns share a mask exactly when their positions are a multiple of 32 apart, so never within one table. */
  lemma NullBitsDiffer(i: nat, j: nat)
    ensures NullBit(i) == NullBit(j) <==> i % 32 == j % 32
  {
    if i % 32 < j % 32 { PowerGrows(i % 32, j % 32); }
    if j % 32 < i % 32 { PowerGrows(j % 32, i % 32); }
  }

  // ----- what the tables above say

  predicate WordUnit(u: Unit) {
    'A' as int <= u <= 'Z' as int || 'a' as int <= u <= 'z' as int || '0' as int <= u <= '9' as int || u == '_' as int
  }

  /** Identifiers are letters, digits and underscores, not starting with a digit. */
  lemma IdentifierIff(s: Str)
    ensures Identifier(s) <==>
              s != [] && !('0' as int <= s[0] <= '9' as int) && forall i :: 0 <= i < |s| ==> WordUnit(s[i])
  {
    assert forall i :: 0 <= i < |s| ==> (WordUnit(s[i]) <==> Letter(s[i]) || 0x30 <= s[i] <= 0x39);
  }

  /** The width of a column is the width its name gives, a byte for a truth value, eight for all the others. */
  lemma TypeSizes(t: Catalog.ColumnType)
    ensures TypeSize(t) == 1 <==> t in {Catalog.Bool, Catalog.Int8, Catalog.UInt8}
    ensures TypeSize(t) == 2 <==> t in {Catalog.Int16, Catalog.UInt16}
    ensures TypeSize(t) == 4 <==> t in {Catalog.Int32, Catalog.UInt32, Catalog.Float32}
    ensures TypeSize(t) == 8 <==>
              t in {Catalog.Int64, Catalog.Float64, Catalog.TimestampMs, Catalog.String, Catalog.Blob}
  {
  }

  /** Columns follow the bitmap back to back, and the row ends with the last. */
  lemma ColumnsBackToBack(defs: seq<Column>, i: nat)
    requires i < |defs|
    ensures OffsetOf(defs, 0) == 4 && OffsetOf(defs, i + 1) == OffsetOf(defs, i) + TypeSize(defs[i].typ)
  {
  }

  /** Masks start at one and double from column to column; the 32nd is the sign bit. */
  lemma NullBitIs(index: nat)
    requires index < 32
    ensures index == 0 ==> NullBit(index) == 1
    ensures 0 < index < 31 ==> NullBit(index) == 2 * NullBit(index - 1)
    ensures index == 31 ==> NullBit(index) == -2 * NullBit(index - 1)
  {
    hide Power;
    if index > 0 { PowerStep(index - 1); } else { PowerStep(0); }
  }

  lemma PowerStep(k: nat)
    ensures Power(0) == 1 && Power(k + 1) == 2 * Power(k)
  {
  }

  /** The limits a definition is held to: 1 to 32 columns, names of at most 64 characters, no nullable key. */
  lemma LimitsAre(tableName: Str, defs: seq<Column>, c: Column)
    ensures ColumnOk(c) <==> Identifier(c.name) && |c.name| <= 64 && !(c.primaryKey && c.nullable)
    ensures Accepts(tableName, defs) <==>
              && Identifier(tableName) && 1 <= |defs| <= 32 && ColumnsOk(defs) && NamesDistinct(defs)
              && exists k: nat :: KeyAt(defs, k)
  {
  }
}
