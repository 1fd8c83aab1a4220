/**
 * The rows of the application's tables (db/schema.rb). Timestamps are left out except
 * where the seeding script sets them; nullable columns are Options.
 */
module Schema {
  import opened Wrappers

  /** The largest Unicode codepoint; characters are seeded for 0..MaxCodepoint. */
  const MaxCodepoint: int := 0x10FFFF

  /** A row of unicode_characters. */
  datatype CharacterRow = CharacterRow(id: nat, codepoint: int)

  /** A row of block_records: the inclusive codepoint interval [startCode, endCode] named `name`. */
  datatype BlockRecord = BlockRecord(
    id: int,
    startCode: int,
    endCode: int,
    name: string,
    rawData: Option<string>,
    rawDataLineNumber: Option<int>)

  /** The numeric_type enum of unicode_data_records, stored as 0, 1, 2 in declaration order. */
  datatype NumericType = Decimal | Digit | Numeric

  /** A row of unicode_data_records (the descriptive columns the model reads). */
  datatype UnicodeDataRecord = UnicodeDataRecord(
    unicodeCharacterId: nat,
    name: Option<string>,
    generalCategory: Option<string>,
    unicode1Name: Option<string>,
    numericType: Option<NumericType>,
    rawData: Option<string>,
    rawDataLineNumber: Option<int>)

  /** A row of derived_name_records. */
  datatype DerivedNameRecord = DerivedNameRecord(
    unicodeCharacterId: nat,
    name: Option<string>,
    rawData: Option<string>,
    rawDataLineNumber: Option<int>)

  /** The integer the enum stores for a numeric type. */
  function NumericTypeCode(t: NumericType): (n: nat)
    ensures n < 3
  {
    match t
    case Decimal => 0
    case Digit => 1
    case Numeric => 2
  }

  /** The numeric type an integer column value reads back as, or nil for an unmapped value. */
  function NumericTypeOf(n: int): (r: Option<NumericType>)
    ensures r.Some? <==> 0 <= n < 3
    ensures r.Some? ==> NumericTypeCode(r.value) == n
  {
    if n == 0 then Some(Decimal) else if n == 1 then Some(Digit) else if n == 2 then Some(Numeric) else None
  }

  /** The integers lo..hi, both included. */
  function RangeSet(lo: int, hi: int): (r: set<int>)
    ensures forall cp :: cp in r <==> lo <= cp <= hi
    ensures |r| == if lo <= hi then hi - lo + 1 else 0
    decreases hi - lo
  {
    if lo > hi then {}
    else
      var rest := RangeSet(lo + 1, hi);
      assert lo !in rest;
      {lo} + rest
  }

  /** The unique index on unicode_characters.codepoint holds. */
  ghost predicate UniqueCodepoints(chars: seq<CharacterRow>) {
    forall i, j :: 0 <= i < |chars| && 0 <= j < |chars| && chars[i].codepoint == chars[j].codepoint ==> i == j
  }

  /** Some character row has codepoint cp. */
  ghost predicate Seeded(chars: seq<CharacterRow>, cp: int) {
    exists i :: 0 <= i < |chars| && chars[i].codepoint == cp
  }

  /** Block ids are unique (they are the primary key). */
  ghost predicate UniqueIds(blocks: seq<BlockRecord>) {
    forall i, j :: 0 <= i < |blocks| && 0 <= j < |blocks| && blocks[i].id == blocks[j].id ==> i == j
  }
}
