/**
 * UnicodeCharacterController#show (app/controllers/unicode_character_controller.rb):
 * the codepoint parameter is upper-cased, read as base 16, and the character with
 * exactly that codepoint is shown; a missing one raises RecordNotFound.
 */
module UnicodeCharacterController {
  import opened Wrappers
  import opened RubyString
  import opened Schema
  import opened UnicodeCharacters

  /** show: the character handed to the view, or RecordNotFound. */
  function Show(chars: seq<CharacterRow>, param: string): (r: Result<CharacterRow>)
    ensures r == FindByCodepoint(chars, ToI16(param))
    ensures r.Ok? ==> r.value in chars && r.value.codepoint == ToI16(param)
    ensures r.Err? <==> !Seeded(chars, ToI16(param))
  {
    ToI16IgnoresCase(param);
    FindByCodepoint(chars, ToI16(Upcase(param)))
  }

  /** On a string of hexadecimal digits the codepoint looked up is the digits' base-16 value. */
  lemma ShowOfHexDigits(chars: seq<CharacterRow>, param: string)
    requires AllHex(param)
    ensures Show(chars, param) == FindByCodepoint(chars, ParseHex(param))
  {
    ToI16OfHex(param);
  }

  /** Every seeded character is shown from its hex label, in upper or lower case. */
  lemma ShowOfHex(chars: seq<CharacterRow>, k: nat)
    requires k < |chars| && UniqueCodepoints(chars) && chars[k].codepoint >= 0
    ensures Show(chars, Hex(chars[k].codepoint)) == Ok(chars[k])
    ensures Show(chars, Downcase(Hex(chars[k].codepoint))) == Ok(chars[k])
  {
    var cp := chars[k].codepoint;
    HexRoundTrip(cp);
    ToI16IgnoresCase(Hex(cp));
    FindByCodepointUnique(chars, k);
  }
}
