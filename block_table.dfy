/**
 * BlockTable (app/components/block_table.rb): the characters of one block, indexed by
 * codepoint once when the component is built, and the lookup of one of them.
 */
module BlockTableComponent {
  import opened Wrappers
  import opened Schema
  import opened UnicodeCharacters

  datatype BlockTable = BlockTable(block: BlockRecord, highlight: Option<int>, byCodepoint: map<int, CharacterRow>)

  /** Indexing by codepoint: each row under its codepoint; a later row replaces an earlier one. */
  function IndexBy(rows: seq<CharacterRow>): (m: map<int, CharacterRow>)
    ensures forall cp :: cp in m <==> Seeded(rows, cp)
    ensures forall cp :: cp in m ==> m[cp] in rows && m[cp].codepoint == cp
    decreases |rows|
  {
    if rows == [] then map[]
    else
      var init := rows[..|rows| - 1];
      var last := rows[|rows| - 1];
      var m := IndexBy(init);
      assert forall k :: 0 <= k < |init| ==> init[k] == rows[k];
      assert forall cp :: Seeded(rows, cp) <==> Seeded(init, cp) || last.codepoint == cp by {
        forall cp | Seeded(rows, cp) ensures Seeded(init, cp) || last.codepoint == cp {
          var i :| 0 <= i < |rows| && rows[i].codepoint == cp;
          if i < |init| {
            assert init[i].codepoint == cp;
          }
        }
      }
      m[last.codepoint := last]
  }

  /** The range query of the component: the rows in the block's inclusive range, in order. */
  function InRange(chars: seq<CharacterRow>, lo: int, hi: int): (r: seq<CharacterRow>)
    ensures forall cp :: Seeded(r, cp) <==> lo <= cp <= hi && Seeded(chars, cp)
    ensures forall k :: 0 <= k < |r| ==> r[k] in chars
    decreases |chars|
  {
    if chars == [] then []
    else
      var rest := InRange(chars[1..], lo, hi);
      assert forall k :: 1 <= k < |chars| ==> chars[k] == chars[1..][k - 1];
      assert forall cp :: Seeded(chars, cp) <==> chars[0].codepoint == cp || Seeded(chars[1..], cp) by {
        forall cp | Seeded(chars, cp) ensures chars[0].codepoint == cp || Seeded(chars[1..], cp) {
          var i :| 0 <= i < |chars| && chars[i].codepoint == cp;
          if i > 0 {
            assert chars[1..][i - 1].codepoint == cp;
          }
        }
        forall cp | Seeded(chars[1..], cp) ensures Seeded(chars, cp) {
          var i :| 0 <= i < |chars[1..]| && chars[1..][i].codepoint == cp;
          assert chars[i + 1].codepoint == cp;
        }
      }
      if lo <= chars[0].codepoint <= hi then
        var r := [chars[0]] + rest;
        assert r[0] == chars[0];
        assert forall k :: 1 <= k < |r| ==> r[k] == rest[k - 1];
        assert forall cp :: Seeded(r, cp) <==> chars[0].codepoint == cp || Seeded(rest, cp) by {
          forall cp | Seeded(r, cp) ensures chars[0].codepoint == cp || Seeded(rest, cp) {
            var i :| 0 <= i < |r| && r[i].codepoint == cp;
            if i > 0 {
              assert rest[i - 1].codepoint == cp;
            }
          }
          forall cp | Seeded(rest, cp) ensures Seeded(r, cp) {
            var i :| 0 <= i < |rest| && rest[i].codepoint == cp;
            assert r[i + 1].codepoint == cp;
          }
        }
        r
      else rest
  }

  /** The component's constructor: the index of the block's characters by codepoint. */
  function NewBlockTable(block: BlockRecord, highlight: Option<int>, chars: seq<CharacterRow>): (t: BlockTable)
    ensures t.block == block && t.highlight == highlight
    ensures forall cp :: cp in t.byCodepoint <==> block.startCode <= cp <= block.endCode && Seeded(chars, cp)
    ensures forall cp :: cp in t.byCodepoint ==> t.byCodepoint[cp] in chars && t.byCodepoint[cp].codepoint == cp
  {
    var rows := InRange(chars, block.startCode, block.endCode);
    var m := IndexBy(rows);
    BlockTable(block, highlight, m)
  }

  /** unicode_character_for: the indexed character with that codepoint, or RecordNotFound. */
  function UnicodeCharacterFor(t: BlockTable, cp: int): (r: Result<CharacterRow>)
    ensures r.Ok? <==> cp in t.byCodepoint
    ensures r.Ok? ==> r.value == t.byCodepoint[cp]
    ensures r.Err? ==> r.error == RecordNotFound
  {
    if cp in t.byCodepoint then Ok(t.byCodepoint[cp]) else Err(RecordNotFound)
  }

  /** Inside the block, the component finds what the exact-codepoint lookup finds; outside it, nothing. */
  lemma UnicodeCharacterForAgreesWithStore(block: BlockRecord, chars: seq<CharacterRow>, cp: int)
    requires UniqueCodepoints(chars)
    ensures var r := UnicodeCharacterFor(NewBlockTable(block, None, chars), cp);
      && (block.startCode <= cp <= block.endCode ==> r == FindByCodepoint(chars, cp))
      && (!(block.startCode <= cp <= block.endCode) ==> r == Err(RecordNotFound))
  {
    var t := NewBlockTable(block, None, chars);
    if block.startCode <= cp <= block.endCode && Seeded(chars, cp) {
      var k :| 0 <= k < |chars| && chars[k].codepoint == cp;
      FindByCodepointUnique(chars, k);
      var c := t.byCodepoint[cp];
      var j :| 0 <= j < |chars| && chars[j] == c;
    }
  }

  /** When the whole block is seeded, every codepoint of it resolves and the index has one entry per codepoint. */
  lemma FullBlockResolves(block: BlockRecord, chars: seq<CharacterRow>)
    requires block.startCode <= block.endCode
    requires forall cp :: block.startCode <= cp <= block.endCode ==> Seeded(chars, cp)
    ensures var t := NewBlockTable(block, None, chars);
      && (forall cp :: block.startCode <= cp <= block.endCode ==>
            UnicodeCharacterFor(t, cp).Ok? && UnicodeCharacterFor(t, cp).value.codepoint == cp)
      && |t.byCodepoint| == block.endCode - block.startCode + 1
  {
    var t := NewBlockTable(block, None, chars);
    var range := RangeSet(block.startCode, block.endCode);
    forall cp ensures cp in t.byCodepoint.Keys <==> cp in range {
      if cp in range {
        assert Seeded(chars, cp);
      }
    }
    assert t.byCodepoint.Keys == range;
  }
}
