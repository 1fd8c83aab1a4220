/**
 * UnicodeImporter (lib/unicode_importer.rb): the importer base class of the Unicode data
 * files, which adds the lookup of the character row a parsed record belongs to.
 */
module UnicodeImporter {
  import opened Wrappers
  import opened RubyString
  import opened Schema
  import opened UnicodeCharacters

  /** A codepoint field as an adapter hands it over: already an Integer, or hexadecimal text. */
  datatype Field = IntField(n: int) | StrField(text: string)

  /** The codepoint a field stands for: an Integer as it is, a String through to_i(16). */
  function FieldCodepoint(f: Field): (cp: int)
    ensures f.IntField? ==> cp == f.n
    ensures f.StrField? && AllHex(f.text) ==> cp == ParseHex(f.text)
  {
    match f
    case IntField(n) => n
    case StrField(t) =>
      ToI16OfHex(t);
      ToI16(t)
  }

  /**
   * unicode_character_id: the id of the character row whose codepoint is exactly the
   * field's, or RecordNotFound; nothing is computed in its place.
   */
  function UnicodeCharacterId(chars: seq<CharacterRow>, f: Field): (r: Result<nat>)
    ensures r.Ok? ==> exists k :: 0 <= k < |chars| && chars[k].id == r.value && chars[k].codepoint == FieldCodepoint(f)
    ensures r.Err? <==> !Seeded(chars, FieldCodepoint(f))
    ensures r.Err? ==> r.error == RecordNotFound
  {
    match FindByCodepoint(chars, FieldCodepoint(f))
    case Ok(c) => Ok(c.id)
    case Err(e) => Err(e)
  }

  /** Every seeded character is found from its hex label, as text or as the Integer itself. */
  lemma SeededHexResolves(chars: seq<CharacterRow>, k: nat)
    requires k < |chars| && UniqueCodepoints(chars) && chars[k].codepoint >= 0
    ensures UnicodeCharacterId(chars, StrField(Hex(chars[k].codepoint))) == Ok(chars[k].id)
    ensures UnicodeCharacterId(chars, IntField(chars[k].codepoint)) == Ok(chars[k].id)
  {
    var cp := chars[k].codepoint;
    HexRoundTrip(cp);
    assert FieldCodepoint(StrField(Hex(cp))) == cp;
    FindByCodepointUnique(chars, k);
  }

  /** Lower-case and upper-case hexadecimal text name the same character. */
  lemma FieldIgnoresCase(chars: seq<CharacterRow>, t: string)
    ensures UnicodeCharacterId(chars, StrField(Downcase(t))) == UnicodeCharacterId(chars, StrField(t))
    ensures UnicodeCharacterId(chars, StrField(Upcase(t))) == UnicodeCharacterId(chars, StrField(t))
  {
    ToI16IgnoresCase(t);
  }
}
