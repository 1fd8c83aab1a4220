/**
 * The seeding script (db/seeds.rb): one character row for every codepoint 0..0x10FFFF,
 * written through a buffer that is upserted every 200 rows and once more, if anything
 * is left, at the end. The upsert is keyed by the unique codepoint index, so running
 * the script again rewrites the same rows instead of adding new ones.
 */
module Seeds {
  import opened Schema
  import opened Batching

  const BatchSize: nat := 200

  /** A buffered row: the codepoint and the two timestamps, both the script's `now`. */
  datatype SeedRow = SeedRow(codepoint: int, createdAt: int, updatedAt: int)

  /** A stored row of unicode_characters, keyed by its codepoint in the store. */
  datatype StoredCharacter = StoredCharacter(id: nat, createdAt: int, updatedAt: int)

  /** The rows the script buffers for the codepoints lo, lo + 1, ..., hi - 1. */
  function SeedRows(lo: int, hi: int, now: int): (r: seq<SeedRow>)
    requires lo <= hi
    ensures |r| == hi - lo
    decreases hi - lo
  {
    if lo == hi then [] else SeedRows(lo, hi - 1, now) + [SeedRow(hi - 1, now, now)]
  }

  /** The k-th buffered row is the row of codepoint lo + k. */
  lemma {:induction false} SeedRowsAt(lo: int, hi: int, now: int)
    requires lo <= hi
    ensures forall k :: 0 <= k < hi - lo ==> SeedRows(lo, hi, now)[k] == SeedRow(lo + k, now, now)
    decreases hi - lo
  {
    if lo < hi {
      SeedRowsAt(lo, hi - 1, now);
    }
  }

  /** The codepoints of a batch. */
  function Codepoints(batch: seq<SeedRow>): set<int> {
    set k | 0 <= k < |batch| :: batch[k].codepoint
  }

  /** The timestamp pairs of a batch. */
  function Stamps(batch: seq<SeedRow>): set<(int, int)> {
    set k | 0 <= k < |batch| :: (batch[k].createdAt, batch[k].updatedAt)
  }

  // ---------------------------------------------------------------- upsert_all

  /** Ids are below the next id to hand out, and no two rows share one. */
  ghost predicate IdsValid(rows: map<int, StoredCharacter>, nextId: nat) {
    && (forall cp :: cp in rows ==> rows[cp].id < nextId)
    && (forall a, b :: a in rows && b in rows && a != b ==> rows[a].id != rows[b].id)
  }

  /** One row of an upsert: an existing codepoint keeps its id and takes the new timestamps; a new one gets the next id. */
  function UpsertOne(rows: map<int, StoredCharacter>, nextId: nat, row: SeedRow): (r: (map<int, StoredCharacter>, nat))
    ensures r.0.Keys == rows.Keys + {row.codepoint}
    ensures r.1 >= nextId
    ensures forall cp :: cp in rows ==> r.0[cp].id == rows[cp].id
    ensures forall cp :: cp in r.0 && cp != row.codepoint ==> r.0[cp] == rows[cp]
    ensures r.0[row.codepoint].createdAt == row.createdAt && r.0[row.codepoint].updatedAt == row.updatedAt
    ensures IdsValid(rows, nextId) ==> IdsValid(r.0, r.1)
  {
    var cp := row.codepoint;
    if cp in rows then
      (rows[cp := StoredCharacter(rows[cp].id, row.createdAt, row.updatedAt)], nextId)
    else
      (rows[cp := StoredCharacter(nextId, row.createdAt, row.updatedAt)], nextId + 1)
  }

  /** upsert_all(batch, unique_by: codepoint): every row of the batch, in order. */
  function UpsertRows(rows: map<int, StoredCharacter>, nextId: nat, batch: seq<SeedRow>): (r: (map<int, StoredCharacter>, nat))
    ensures r.0.Keys == rows.Keys + Codepoints(batch)
    ensures r.1 >= nextId
    ensures forall cp :: cp in rows ==> r.0[cp].id == rows[cp].id
    ensures forall cp :: cp in r.0 && cp !in Codepoints(batch) ==> r.0[cp] == rows[cp]
    ensures forall cp :: cp in r.0 && cp in Codepoints(batch) ==> (r.0[cp].createdAt, r.0[cp].updatedAt) in Stamps(batch)
    ensures IdsValid(rows, nextId) ==> IdsValid(r.0, r.1)
    decreases |batch|
  {
    if batch == [] then (rows, nextId)
    else
      var first := UpsertOne(rows, nextId, batch[0]);
      var r := UpsertRows(first.0, first.1, batch[1..]);
      CodepointsCons(batch);
      r
  }

  lemma CodepointsCons(batch: seq<SeedRow>)
    requires batch != []
    ensures Codepoints(batch) == {batch[0].codepoint} + Codepoints(batch[1..])
    ensures Stamps(batch) == {(batch[0].createdAt, batch[0].updatedAt)} + Stamps(batch[1..])
  {
    forall cp | cp in Codepoints(batch) ensures cp in {batch[0].codepoint} + Codepoints(batch[1..]) {
      var k :| 0 <= k < |batch| && batch[k].codepoint == cp;
      if k > 0 {
        assert batch[1..][k - 1].codepoint == cp;
      }
    }
    forall p | p in Stamps(batch) ensures p in {(batch[0].createdAt, batch[0].updatedAt)} + Stamps(batch[1..]) {
      var k :| 0 <= k < |batch| && (batch[k].createdAt, batch[k].updatedAt) == p;
      if k > 0 {
        assert (batch[1..][k - 1].createdAt, batch[1..][k - 1].updatedAt) == p;
      }
    }
    assert forall k :: 0 <= k < |batch[1..]| ==> batch[1..][k] == batch[k + 1];
  }

  /** The buffered rows of lo..hi - 1 are keyed by exactly those codepoints and all carry (now, now). */
  lemma SeedRowsCodepoints(lo: int, hi: int, now: int)
    requires lo <= hi
    ensures Codepoints(SeedRows(lo, hi, now)) == RangeSet(lo, hi - 1)
    ensures forall p :: p in Stamps(SeedRows(lo, hi, now)) ==> p == (now, now)
  {
    var s := SeedRows(lo, hi, now);
    SeedRowsAt(lo, hi, now);
    forall cp | cp in RangeSet(lo, hi - 1) ensures cp in Codepoints(s) {
      assert s[cp - lo].codepoint == cp;
    }
  }

  lemma SeedRowsSnoc(lo: int, hi: int, now: int)
    requires lo <= hi
    ensures SeedRows(lo, hi, now) + [SeedRow(hi, now, now)] == SeedRows(lo, hi + 1, now)
  {
  }

  lemma {:induction false} SeedRowsSplit(lo: int, mid: int, hi: int, now: int)
    requires lo <= mid <= hi
    ensures SeedRows(lo, mid, now) + SeedRows(mid, hi, now) == SeedRows(lo, hi, now)
    decreases hi - mid
  {
    if mid == hi {
      assert SeedRows(lo, mid, now) + [] == SeedRows(lo, mid, now);
    } else {
      SeedRowsSplit(lo, mid, hi - 1, now);
      var last := [SeedRow(hi - 1, now, now)];
      calc {
        SeedRows(lo, mid, now) + SeedRows(mid, hi, now);
        SeedRows(lo, mid, now) + (SeedRows(mid, hi - 1, now) + last);
        (SeedRows(lo, mid, now) + SeedRows(mid, hi - 1, now)) + last;
      }
    }
  }

  // ---------------------------------------------------------------- the store

  /** unicode_characters as the script sees it: rows keyed by the unique codepoint index. */
  class CharacterStore {
    var rows: map<int, StoredCharacter>
    var nextId: nat
    /** Each upsert_all call, in order. */
    ghost var upserts: seq<seq<SeedRow>>

    ghost predicate Valid()
      reads this
    {
      IdsValid(rows, nextId)
    }

    constructor ()
      ensures Valid() && rows == map[] && upserts == []
    {
      rows := map[];
      nextId := 1;
      upserts := [];
    }

    method UpsertAll(batch: seq<SeedRow>)
      requires Valid()
      modifies this
      ensures Valid()
      ensures (rows, nextId) == UpsertRows(old(rows), old(nextId), batch)
      ensures upserts == old(upserts) + [batch]
    {
      var r := UpsertRows(rows, nextId, batch);
      rows, nextId := r.0, r.1;
      upserts := upserts + [batch];
    }
  }

  // ---------------------------------------------------------------- the script

  /**
   * The script: every codepoint 0..MaxCodepoint is buffered once, in increasing order;
   * the buffer is upserted as soon as it holds 200 rows, and the rest at the end.
   */
  method Seed(store: CharacterStore, now: int)
    requires store.Valid()
    modifies store
    ensures store.Valid()
    ensures store.upserts == old(store.upserts) + Chunks(SeedRows(0, MaxCodepoint + 1, now), BatchSize)
    ensures SeededUpTo(store.rows, MaxCodepoint + 1, now, old(store.rows))
  {
    SeedBelow(store, MaxCodepoint + 1, now);
  }

  /** The script's loop for the codepoints 0..hi - 1, with the final upsert of the rest. */
  method SeedBelow(store: CharacterStore, hi: nat, now: int)
    requires store.Valid()
    modifies store
    ensures store.Valid()
    ensures store.upserts == old(store.upserts) + Chunks(SeedRows(0, hi, now), BatchSize)
    ensures SeededUpTo(store.rows, hi, now, old(store.rows))
  {
    var buffer: seq<SeedRow> := [];
    ghost var done, full := 0, 0;
    var cp := 0;
    SeededNothing(store.rows, now);
    assert SeedRows(0, 0, now) == [];
    while cp < hi
      invariant 0 <= cp <= hi
      invariant done == cp - |buffer| == BatchSize * full && |buffer| < BatchSize
      invariant buffer == SeedRows(done, cp, now)
      invariant store.Valid()
      invariant store.upserts == old(store.upserts) + Chunks(SeedRows(0, done, now), BatchSize)
      invariant SeededUpTo(store.rows, done, now, old(store.rows))
    {
      buffer, cp, done, full := SeedStep(store, buffer, cp, now, done, full, old(store.upserts), old(store.rows));
    }
    SeedRest(store, buffer, hi, now, done, full, old(store.upserts), old(store.rows));
  }

  /** After the loop: upsert what is left in the buffer, if anything. */
  method SeedRest(store: CharacterStore, buffer: seq<SeedRow>, hi: int, now: int, ghost done: int, ghost full: nat,
                  ghost upserts0: seq<seq<SeedRow>>, ghost before: map<int, StoredCharacter>)
    requires done == hi - |buffer| == BatchSize * full && |buffer| < BatchSize
    requires buffer == SeedRows(done, hi, now)
    requires store.Valid()
    requires store.upserts == upserts0 + Chunks(SeedRows(0, done, now), BatchSize)
    requires SeededUpTo(store.rows, done, now, before)
    modifies store
    ensures store.Valid()
    ensures store.upserts == upserts0 + Chunks(SeedRows(0, hi, now), BatchSize)
    ensures SeededUpTo(store.rows, hi, now, before)
  {
    if |buffer| > 0 {
      FlushLogged(store, buffer, done, hi, now, full, upserts0, before);
    }
  }

  /** One turn of the loop: buffer codepoint cp and upsert the buffer once it is full. */
  method SeedStep(store: CharacterStore, buffer: seq<SeedRow>, cp: int, now: int, ghost done: int, ghost full: nat,
                  ghost upserts0: seq<seq<SeedRow>>, ghost before: map<int, StoredCharacter>)
    returns (buffer': seq<SeedRow>, cp': int, ghost done': int, ghost full': nat)
    requires done == cp - |buffer| == BatchSize * full && |buffer| < BatchSize
    requires buffer == SeedRows(done, cp, now)
    requires store.Valid()
    requires store.upserts == upserts0 + Chunks(SeedRows(0, done, now), BatchSize)
    requires SeededUpTo(store.rows, done, now, before)
    modifies store
    ensures cp' == cp + 1
    ensures done' == cp' - |buffer'| == BatchSize * full' && |buffer'| < BatchSize
    ensures buffer' == SeedRows(done', cp', now)
    ensures store.Valid()
    ensures store.upserts == upserts0 + Chunks(SeedRows(0, done', now), BatchSize)
    ensures SeededUpTo(store.rows, done', now, before)
  {
    cp' := cp + 1;
    SeedRowsSnoc(done, cp, now);
    buffer', done', full' := buffer + [SeedRow(cp, now, now)], done, full;
    if |buffer'| == BatchSize {
      FlushLogged(store, buffer', done, cp + 1, now, full, upserts0, before);
      buffer', done', full' := [], cp + 1, full + 1;
      assert SeedRows(done', cp + 1, now) == [];
    }
  }

  /** Upserts the buffered rows lo..hi - 1, which follow `full` full upserts. */
  method FlushLogged(store: CharacterStore, buffer: seq<SeedRow>, ghost lo: int, ghost hi: int, now: int,
                     ghost full: nat, ghost upserts0: seq<seq<SeedRow>>, ghost before: map<int, StoredCharacter>)
    requires lo == BatchSize * full && lo < hi && buffer == SeedRows(lo, hi, now) && |buffer| <= BatchSize
    requires store.Valid() && SeededUpTo(store.rows, lo, now, before)
    requires store.upserts == upserts0 + Chunks(SeedRows(0, lo, now), BatchSize)
    modifies store
    ensures store.Valid() && SeededUpTo(store.rows, hi, now, before)
    ensures store.upserts == upserts0 + Chunks(SeedRows(0, hi, now), BatchSize)
  {
    FlushFull(store, buffer, lo, hi, now, before);
    UpsertLog(upserts0, lo, hi, now, full);
  }

  /** The upserts after one more batch of the rows lo..hi - 1. */
  lemma UpsertLog(upserts0: seq<seq<SeedRow>>, lo: int, hi: int, now: int, full: nat)
    requires lo == BatchSize * full && lo < hi <= lo + BatchSize
    ensures upserts0 + Chunks(SeedRows(0, hi, now), BatchSize)
         == (upserts0 + Chunks(SeedRows(0, lo, now), BatchSize)) + [SeedRows(lo, hi, now)]
  {
    SeedRowsSplit(0, lo, hi, now);
    ChunksSnoc(SeedRows(0, lo, now), SeedRows(lo, hi, now), BatchSize, full);
  }

  /**
   * The codepoints below `done` are stored with (now, now), the rows hold nothing else
   * that they did not hold before, and no old row lost its id.
   */
  ghost predicate SeededUpTo(rows: map<int, StoredCharacter>, done: int, now: int, before: map<int, StoredCharacter>) {
    && 0 <= done
    && rows.Keys == before.Keys + RangeSet(0, done - 1)
    && (forall cp :: cp in before ==> cp in rows && rows[cp].id == before[cp].id)
    && (forall cp :: 0 <= cp < done ==> cp in rows && rows[cp].createdAt == now && rows[cp].updatedAt == now)
    && (forall cp :: cp in rows && !(0 <= cp < done) ==> cp in before && rows[cp] == before[cp])
  }

  /** Before the loop nothing is seeded yet. */
  lemma SeededNothing(rows: map<int, StoredCharacter>, now: int)
    ensures SeededUpTo(rows, 0, now, rows)
  {
    assert rows.Keys + RangeSet(0, -1) == rows.Keys;
  }

  /** Upserting the rows of lo..hi - 1 extends what is seeded from lo to hi. */
  lemma UpsertExtends(prev: map<int, StoredCharacter>, nextId: nat, lo: int, hi: int, now: int,
                      before: map<int, StoredCharacter>)
    requires 0 <= lo <= hi && SeededUpTo(prev, lo, now, before)
    ensures SeededUpTo(UpsertRows(prev, nextId, SeedRows(lo, hi, now)).0, hi, now, before)
  {
    SeedRowsCodepoints(lo, hi, now);
    var rows := UpsertRows(prev, nextId, SeedRows(lo, hi, now)).0;
    UpsertKeys(prev, nextId, lo, hi, now, before);
    UpsertStamps(prev, nextId, lo, hi, now);
    UpsertUntouched(prev, nextId, SeedRows(lo, hi, now), lo, hi, before);
    assert rows.Keys == before.Keys + RangeSet(0, hi - 1);
  }

  /** Ids survive an upsert, and rows outside the batch keep their old values. */
  lemma UpsertUntouched(prev: map<int, StoredCharacter>, nextId: nat, batch: seq<SeedRow>, lo: int, hi: int,
                        before: map<int, StoredCharacter>)
    requires 0 <= lo <= hi && Codepoints(batch) == RangeSet(lo, hi - 1)
    requires forall cp :: cp in before ==> cp in prev && prev[cp].id == before[cp].id
    requires forall cp :: cp in prev && !(0 <= cp < lo) ==> cp in before && prev[cp] == before[cp]
    ensures var rows := UpsertRows(prev, nextId, batch).0;
      && (forall cp :: cp in before ==> cp in rows && rows[cp].id == before[cp].id)
      && (forall cp :: cp in rows && !(0 <= cp < hi) ==> cp in before && rows[cp] == before[cp])
  {
    var rows := UpsertRows(prev, nextId, batch).0;
    forall cp | cp in rows && !(0 <= cp < hi) ensures cp in before && rows[cp] == before[cp] {
      assert cp !in Codepoints(batch);
    }
  }

  lemma UpsertKeys(prev: map<int, StoredCharacter>, nextId: nat, lo: int, hi: int, now: int,
                   before: map<int, StoredCharacter>)
    requires 0 <= lo <= hi && prev.Keys == before.Keys + RangeSet(0, lo - 1)
    requires Codepoints(SeedRows(lo, hi, now)) == RangeSet(lo, hi - 1)
    ensures UpsertRows(prev, nextId, SeedRows(lo, hi, now)).0.Keys == before.Keys + RangeSet(0, hi - 1)
  {
    RangeUnion(before.Keys, lo, hi);
  }

  lemma RangeUnion(b: set<int>, lo: int, hi: int)
    requires 0 <= lo <= hi
    ensures (b + RangeSet(0, lo - 1)) + RangeSet(lo, hi - 1) == b + RangeSet(0, hi - 1)
  {
    var l := (b + RangeSet(0, lo - 1)) + RangeSet(lo, hi - 1);
    var r := b + RangeSet(0, hi - 1);
    forall cp | cp in l ensures cp in r {
    }
    forall cp | cp in r ensures cp in l {
      if cp !in b {
        assert 0 <= cp <= hi - 1;
      }
    }
  }

  lemma UpsertStamps(prev: map<int, StoredCharacter>, nextId: nat, lo: int, hi: int, now: int)
    requires 0 <= lo <= hi
    requires forall cp :: 0 <= cp < lo ==> cp in prev && prev[cp].createdAt == now && prev[cp].updatedAt == now
    requires Codepoints(SeedRows(lo, hi, now)) == RangeSet(lo, hi - 1)
    requires forall p :: p in Stamps(SeedRows(lo, hi, now)) ==> p == (now, now)
    ensures var rows := UpsertRows(prev, nextId, SeedRows(lo, hi, now)).0;
      forall cp :: 0 <= cp < hi ==> cp in rows && rows[cp].createdAt == now && rows[cp].updatedAt == now
  {
    var buffer := SeedRows(lo, hi, now);
    var rows := UpsertRows(prev, nextId, buffer).0;
    forall cp | 0 <= cp < hi
      ensures cp in rows && rows[cp].createdAt == now && rows[cp].updatedAt == now
    {
      if cp >= lo {
        assert cp in Codepoints(buffer);
        assert (rows[cp].createdAt, rows[cp].updatedAt) in Stamps(buffer);
      } else {
        assert cp !in Codepoints(buffer);
      }
    }
  }

  /** One upsert of the buffered rows lo..hi - 1, with the bookkeeping of the script. */
  method FlushFull(store: CharacterStore, buffer: seq<SeedRow>, ghost lo: int, ghost hi: int, now: int,
                   ghost before: map<int, StoredCharacter>)
    requires 0 <= lo <= hi && buffer == SeedRows(lo, hi, now)
    requires store.Valid() && SeededUpTo(store.rows, lo, now, before)
    modifies store
    ensures store.Valid() && SeededUpTo(store.rows, hi, now, before)
    ensures store.upserts == old(store.upserts) + [buffer]
  {
    UpsertExtends(store.rows, store.nextId, lo, hi, now, before);
    store.UpsertAll(buffer);
  }

  /** 0x110000 = 5570 * 200 + 112: the script issues 5571 upserts, the last of 112 rows. */
  lemma SeedUpsertCount(now: int)
    ensures |Chunks(SeedRows(0, MaxCodepoint + 1, now), BatchSize)| == 5571
    ensures |Chunks(SeedRows(0, MaxCodepoint + 1, now), BatchSize)[5570]| == 112
  {
    ChunksCount(SeedRows(0, MaxCodepoint + 1, now), BatchSize, 5570, 112);
  }

  /** Seeding an empty table leaves exactly one row per codepoint, 0x110000 rows in all. */
  method SeedEmpty(now: int) returns (store: CharacterStore)
    ensures store.Valid()
    ensures store.rows.Keys == RangeSet(0, MaxCodepoint) && |store.rows| == 0x110000
  {
    store := new CharacterStore();
    Seed(store, now);
    SeededFromEmpty(store.rows, MaxCodepoint + 1, now);
  }

  /** Once 0..hi - 1 is seeded into an empty table, the table holds those hi codepoints and nothing else. */
  lemma SeededFromEmpty(rows: map<int, StoredCharacter>, hi: nat, now: int)
    requires SeededUpTo(rows, hi, now, map[])
    ensures rows.Keys == RangeSet(0, hi - 1) && |rows| == hi
  {
    assert rows.Keys == RangeSet(0, hi - 1);
    assert |rows| == |rows.Keys|;
  }

  /** Running the script again keeps the same codepoints, the same number of rows and the same ids. */
  method Reseed(store: CharacterStore, now: int)
    requires store.Valid() && store.rows.Keys == RangeSet(0, MaxCodepoint)
    modifies store
    ensures store.Valid()
    ensures store.rows.Keys == old(store.rows).Keys && |store.rows| == old(|store.rows|)
    ensures forall cp :: cp in store.rows ==> store.rows[cp].id == old(store.rows)[cp].id
  {
    Seed(store, now);
    SeededOverFull(store.rows, old(store.rows), MaxCodepoint + 1, now);
  }

  /** Seeding 0..hi - 1 over a table that already holds exactly those codepoints adds no row and changes no id. */
  lemma SeededOverFull(rows: map<int, StoredCharacter>, before: map<int, StoredCharacter>, hi: nat, now: int)
    requires before.Keys == RangeSet(0, hi - 1) && SeededUpTo(rows, hi, now, before)
    ensures rows.Keys == before.Keys && |rows| == |before|
    ensures forall cp :: cp in rows ==> rows[cp].id == before[cp].id
  {
    assert rows.Keys == before.Keys;
    assert |rows| == |rows.Keys|;
  }
}
