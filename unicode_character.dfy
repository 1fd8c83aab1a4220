/**
 * UnicodeCharacter (app/models/unicode_character.rb): the "%04X" label of a codepoint,
 * the name shown for a character, its general category and its block, together with
 * the exact-codepoint lookup (find_by!) the importer and the controller use.
 */
module UnicodeCharacters {
  import opened Wrappers
  import opened RubyString
  import opened Schema
  import opened BlockRecords
  import Routes

  // ---------------------------------------------------------------- hex

  /** hex: the codepoint in upper-case hexadecimal, left-padded with zeros to four digits. */
  function Hex(cp: nat): (h: string)
    ensures AllUpperHex(h) && AllHex(h) && |h| >= 4
    ensures ParseHex(h) == cp
    ensures |h| > 4 ==> h[0] != '0'
  {
    var digits := HexDigits(cp);
    ParseHexLeadingZeros(if |digits| < 4 then 4 - |digits| else 0, digits);
    if |digits| < 4 then
      assert RJust(digits, 4, '0') == Repeat('0', 4 - |digits|) + digits;
      RJust(digits, 4, '0')
    else
      assert Repeat('0', 0) + digits == digits;
      digits
  }

  /** Reading hex back with to_i(16) gives the codepoint. */
  lemma HexRoundTrip(cp: nat)
    ensures ToI16(Hex(cp)) == cp
  {
    ToI16OfHex(Hex(cp));
  }

  /** Two codepoints never share a label. */
  lemma HexInjective(a: nat, b: nat)
    requires Hex(a) == Hex(b)
    ensures a == b
  {
  }

  /** The label of every Unicode codepoint has 4 to 6 digits and passes the canonical route's constraint. */
  lemma HexIsCanonical(cp: nat)
    requires cp <= MaxCodepoint
    ensures 4 <= |Hex(cp)| <= 6
    ensures Routes.IsCanonical(Hex(cp))
  {
    assert Pow16(6) == 0x1000000 by {
      assert Pow16(1) == 16 && Pow16(2) == 256 && Pow16(3) == 4096;
      assert Pow16(4) == 65536 && Pow16(5) == 1048576;
    }
    HexDigitsLength(cp, 6);
  }

  /** The label of a codepoint is its own normalization, so the redirect never touches it. */
  lemma HexIsNormal(cp: nat)
    requires cp <= MaxCodepoint
    ensures Routes.Normalize(Hex(cp)) == Hex(cp)
  {
    HexIsCanonical(cp);
    Routes.CanonicalIsNormal(Hex(cp));
  }

  // ---------------------------------------------------------------- lookups

  /** The exact-codepoint lookup: the first character row with exactly that codepoint, or RecordNotFound. */
  function FindByCodepoint(chars: seq<CharacterRow>, cp: int): (r: Result<CharacterRow>)
    ensures r.Ok? ==> r.value in chars && r.value.codepoint == cp
    ensures r.Err? ==> r.error == RecordNotFound
    ensures r.Err? <==> !Seeded(chars, cp)
    decreases |chars|
  {
    if chars == [] then Err(RecordNotFound)
    else if chars[0].codepoint == cp then Ok(chars[0])
    else
      var r := FindByCodepoint(chars[1..], cp);
      assert forall k :: 1 <= k < |chars| ==> chars[k] == chars[1..][k - 1];
      assert Seeded(chars, cp) ==> Seeded(chars[1..], cp) by {
        if Seeded(chars, cp) {
          var i :| 0 <= i < |chars| && chars[i].codepoint == cp;
          assert chars[1..][i - 1].codepoint == cp;
        }
      }
      assert Seeded(chars[1..], cp) ==> Seeded(chars, cp) by {
        if Seeded(chars[1..], cp) {
          var i :| 0 <= i < |chars[1..]| && chars[1..][i].codepoint == cp;
          assert chars[i + 1].codepoint == cp;
        }
      }
      r
  }

  /** Under the unique codepoint index the row found is the row with that codepoint. */
  lemma FindByCodepointUnique(chars: seq<CharacterRow>, k: nat)
    requires k < |chars| && UniqueCodepoints(chars)
    ensures FindByCodepoint(chars, chars[k].codepoint) == Ok(chars[k])
  {
    var r := FindByCodepoint(chars, chars[k].codepoint);
    assert Seeded(chars, chars[k].codepoint);
    var i :| 0 <= i < |chars| && chars[i] == r.value;
  }

  /**
   * has_one (unicode_data and derived_name): the first record whose owner is the
   * character, or nil exactly when no record points at it.
   */
  function HasOne<T>(c: CharacterRow, records: seq<T>, owner: T -> int): (r: Option<T>)
    ensures r.Some? ==> r.value in records && owner(r.value) == c.id
    ensures r.None? <==> forall k :: 0 <= k < |records| ==> owner(records[k]) != c.id
    decreases |records|
  {
    if records == [] then None
    else if owner(records[0]) == c.id then Some(records[0])
    else
      var r := HasOne(c, records[1..], owner);
      assert forall k :: 1 <= k < |records| ==> records[k] == records[1..][k - 1];
      r
  }

  /** When no two records point at the same character, the record found is the one that does. */
  lemma HasOneUnique<T>(c: CharacterRow, records: seq<T>, owner: T -> int, k: nat)
    requires k < |records| && owner(records[k]) == c.id
    requires forall i, j :: 0 <= i < j < |records| ==> owner(records[i]) != owner(records[j])
    ensures HasOne(c, records, owner) == Some(records[k])
  {
    var r := HasOne(c, records, owner);
    var i :| 0 <= i < |records| && records[i] == r.value;
  }

  // ---------------------------------------------------------------- common_name

  /** A chain of alternatives: the first value that is not nil (an empty string is not nil). */
  function Coalesce(options: seq<Option<string>>, default: string): (r: string)
    ensures (forall k :: 0 <= k < |options| ==> options[k].None?) ==> r == default
    ensures forall k :: 0 <= k < |options| && options[k].Some? && (forall j :: 0 <= j < k ==> options[j].None?) ==>
      r == options[k].value
    decreases |options|
  {
    if options == [] then default
    else if options[0].Some? then options[0].value
    else
      var r := Coalesce(options[1..], default);
      assert forall k :: 1 <= k < |options| ==> options[k] == options[1..][k - 1];
      r
  }

  /** The data record's name, else its Unicode 1.0 name, else the derived name, else "<no name>". */
  function CommonName(data: Option<UnicodeDataRecord>, derived: Option<DerivedNameRecord>): (r: string)
    ensures data.Some? && data.value.name.Some? ==> r == data.value.name.value
    ensures (data.None? || data.value.name.None?) && data.Some? && data.value.unicode1Name.Some? ==>
      r == data.value.unicode1Name.value
    ensures (data.None? || (data.value.name.None? && data.value.unicode1Name.None?)) ==>
      r == if derived.Some? && derived.value.name.Some? then derived.value.name.value else "<no name>"
  {
    var candidates := [
      if data.Some? then data.value.name else None,
      if data.Some? then data.value.unicode1Name else None,
      if derived.Some? then derived.value.name else None
    ];
    assert candidates[0].None? ==> forall j :: 0 <= j < 1 ==> candidates[j].None?;
    assert candidates[0].None? && candidates[1].None? ==> forall j :: 0 <= j < 2 ==> candidates[j].None?;
    assert candidates[0].None? && candidates[1].None? && candidates[2].None? ==>
      forall j :: 0 <= j < 3 ==> candidates[j].None?;
    Coalesce(candidates, "<no name>")
  }

  /** common_name is never nil: it is one of the three names or the placeholder. */
  lemma CommonNameIsACandidate(data: Option<UnicodeDataRecord>, derived: Option<DerivedNameRecord>)
    ensures var r := CommonName(data, derived);
      || (data.Some? && data.value.name == Some(r))
      || (data.Some? && data.value.unicode1Name == Some(r))
      || (derived.Some? && derived.value.name == Some(r))
      || r == "<no name>"
  {
  }

  /** general_category: nil without a data record, else the record's category (which may itself be nil). */
  function GeneralCategory(data: Option<UnicodeDataRecord>): (r: Option<string>)
    ensures data.None? ==> r.None?
    ensures data.Some? ==> r == data.value.generalCategory
  {
    if data.Some? then data.value.generalCategory else None
  }

  /** block: the name of a block containing the character's codepoint, or nil when none does. */
  function Block(c: CharacterRow, blocks: seq<BlockRecord>): (r: Option<string>)
    ensures r.Some? ==> exists k :: 0 <= k < |blocks| && Contains(blocks[k], c.codepoint) && blocks[k].name == r.value
    ensures r.None? <==> forall k :: 0 <= k < |blocks| ==> !Contains(blocks[k], c.codepoint)
  {
    var b := ContainingCodepoint(blocks, c.codepoint);
    if b.Some? then Some(b.value.name) else None
  }
}
