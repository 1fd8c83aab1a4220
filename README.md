# unicodex core, modelled in Dafny

unicodex is a Rails application for browsing every Unicode codepoint. Its core is made of
the following parts, and this project models each of them and proves properties about it:

- **The batch importer engine** (`lib/base_importer.rb`, `lib/unicode_importer.rb`). It reads
  a data file item by item and skips comment and blank lines. It stops at an optional limit,
  asks a subclass for the records of each item, and writes those records through a bounded
  buffer with all-or-nothing bulk inserts.
- **The seeding script** (`db/seeds.rb`). It upserts one `unicode_characters` row for each
  codepoint 0..0x10FFFF, 200 at a time, keyed by the unique codepoint index.
- **The codepoint routes** (`config/routes.rb`):
  - the canonical `/codepoint/:codepoint` route (4 to 6 upper-case hex digits);
  - the redirect that normalizes every other segment;
  - the `/cp/` shortcut.
- **The read side**:
  - `BlockRecord`: the block containing a codepoint, the slug of a block name, and the
    previous and next blocks;
  - `UnicodeCharacter`: the `%04X` label, the common name, the general category and the block;
  - the controller's `show`;
  - the `BlockTable` component's index of a block's characters.

Files:

| file | contents |
|---|---|
| `wrappers.dfy` | Option and Result: nil and raised exceptions |
| `ruby_string.dfy` | the Ruby String methods the core uses: `strip`, `upcase`, `downcase`, `rjust`, `to_i(16)` and `%X` |
| `batching.dfy` | `Chunks`, the reference definition of the writes a buffered bulk-write loop issues |
| `schema.dfy` | the table rows |
| `base_importer.dfy`, `unicode_importer.dfy` | the importer classes |
| `seeds.dfy` | the seeding script |
| `routes.dfy` | the routes |
| `block_record.dfy`, `unicode_character.dfy`, `unicode_character_controller.dfy`, `block_table.dfy` | the read side |

How the model is shaped:

- The state-changing parts are imperative Dafny:
  - `BaseImporter.Importer` is a class whose batch, counters and log of adapter calls are fields;
  - `BaseImporter.Table` stands for the target table;
  - `Seeds.CharacterStore` stands for `unicode_characters` during seeding;
  - the script's loop is a `while` loop with its invariants.
- The importer's write log and the script's upsert log are ghost fields. The methods prove
  that each loop issues exactly `Chunks(records, batch size)`: every write is full except
  the last, in order, with nothing lost and nothing repeated. When the store rejects an
  insert, the importer's writes so far, followed by its unwritten buffer, are a prefix of
  that chunking.
- The read side is pure. Tables are sequences of rows in storage order. A query without an
  order returns the first matching row.

## Model

| member | source | states |
|---|---|---|
| RubyString.Strip | lib/base_importer.rb:61 | the result is the input with a leading and a trailing whitespace run removed and nothing else (`Trims`); it is empty exactly when every character is whitespace; otherwise it neither starts nor ends with whitespace; a string without whitespace is unchanged |
| RubyString.StripSides | lib/base_importer.rb:61 | removing the leading whitespace run and then the trailing one leaves nothing exactly for an all-whitespace string, ends on non-whitespace, keeps a string without whitespace, and removes nothing from the middle |
| RubyString.StripPadding | app/models/block_record.rb:7 | whitespace added on either side of a string does not change what strip returns |
| RubyString.Upcase | config/routes.rb:33 | upcase keeps the length, leaves no lower-case letter, changes nothing but a-z, and turns each of those into the upper-case letter that downcases back to it |
| RubyString.Downcase | app/models/block_record.rb:7 | downcase keeps the length, leaves no upper-case letter, changes nothing but A-Z, and turns each of those into the lower-case letter that upcases back to it |
| RubyString.ToI16 | app/controllers/unicode_character_controller.rb:3 | `to_i(16)` is the value of the leading run of hex digits (every run that ends at a non-hex character or the end), and 0 when the string does not start with a hex digit |
| RubyString.HexPrefixIsLongest | app/controllers/unicode_character_controller.rb:3 | the leading run of hex digits is the only hex prefix that ends at a non-hex character or at the end |
| RubyString.RJust | config/routes.rb:36 | the result is at least `width` long, ends with the string, and everything before it is the pad character |
| RubyString.HexDigits | app/models/unicode_character.rb:6 | the `%X` digits of n are upper-case hex, read back as n, and have no leading zero |
| RubyString.ParseHexLeadingZeros | app/models/unicode_character.rb:6 | zero padding does not change the value of a hex string |
| RubyString.HexDigitsLength | app/models/unicode_character.rb:6 | a value below 16^k needs at most k hex digits |
| RubyString.ParseHexIgnoresCase | app/controllers/unicode_character_controller.rb:3 | upper-casing or lower-casing hex digits keeps their value |
| RubyString.ToI16IgnoresCase | app/controllers/unicode_character_controller.rb:3 | `to_i(16)` reads the same number from a string, its upcase and its downcase |
| RubyString.HexPrefixCase | app/controllers/unicode_character_controller.rb:3 | the leading hex digits of an upcased string are the upcased leading hex digits, and the same for downcase |
| RubyString.ToI16OfHex | lib/unicode_importer.rb:5 | on a string made only of hex digits, `to_i(16)` is its base-16 value |
| Batching.ChunksSpec | db/seeds.rb:18-32 | the writes of a buffered loop hold all records in order; each write has 1 to `size` records, and every write but the last is full |
| Batching.Chunks | db/seeds.rb:18-32 | the buffered loop issues no write exactly when there is no record; `ChunksSpec` states the rest |
| Batching.ChunksUnique | lib/base_importer.rb:54-57 | any write log of full batches followed by a non-empty rest is exactly `Chunks` of its records, so the reference definition is the only such log |
| Batching.ChunksSnoc | db/seeds.rb:21-27 | after k full writes, one more write of at most `size` records extends the chunking by that write |
| Batching.ChunksCount | db/seeds.rb:18-32 | size·k + rest records (0 < rest ≤ size) take k + 1 writes, the last holding `rest` |
| Batching.LastFlushChunks | lib/base_importer.rb:30 | full writes since the start, then a final write of the rest, form the chunking of everything written |
| Batching.FlattenFullLength | lib/base_importer.rb:54-57 | k full writes hold size·k records |
| Batching.ChunksOfPrefix | lib/base_importer.rb:54-57 | the writes of a prefix whose length is a multiple of the size come first among the writes of the whole |
| Batching.StoppedPrefix | lib/base_importer.rb:115-121 | full writes followed by a pending buffer that is full, or that ends the records, are a prefix of `Chunks` of the records: where a failing insert stops the loop |
| Schema.NumericTypeOf | app/models/unicode_data_record.rb:4 | only the stored integers 0, 1 and 2 map to a numeric type, and each maps back to its integer |
| Schema.RangeSet | db/seeds.rb:13 | an inclusive integer range: its members and its size |
| BaseImporter.ClampBatchSize | lib/base_importer.rb:8 | the batch size is at least 1 and at least the requested size, and a positive request is kept |
| BaseImporter.EffectiveLimit | lib/base_importer.rb:9 | a limit is kept exactly when it is positive; nil, zero and negative limits mean none |
| BaseImporter.DefaultSourceItems | lib/base_importer.rb:42-46 | every line is yielded, in order, without a line number |
| BaseImporter.CommentLineIsStripTest | lib/base_importer.rb:60-62 | an item is a comment exactly when stripping leaves nothing or it starts with `#` |
| BaseImporter.CommentLine | lib/base_importer.rb:60-62 | an item starting with `#` is a comment; an item whose first character is neither whitespace nor `#` is not |
| BaseImporter.Truncate | lib/base_importer.rb:131-135 | nil value or nil limit returns the value; a negative limit gives nil; otherwise the result is the prefix of length min(limit, size) |
| BaseImporter.BlankToNil | lib/base_importer.rb:137-139 | nil exactly for nil and blank strings; any other value passes through |
| BaseImporter.BlankToNilIdempotent | lib/base_importer.rb:137-139 | applying blank_to_nil twice is the same as once |
| BaseImporter.Taken | lib/base_importer.rb:99 | the number of items considered: all of them without a limit, otherwise items stop only when the limit is reached |
| BaseImporter.RecordsAppend | lib/base_importer.rb:98-113 | the records of two runs of items, one after the other, are the records of each, concatenated |
| BaseImporter.DataItemsAppend | lib/base_importer.rb:103-105 | the items that reach the adapter split the same way |
| BaseImporter.RecordsPrefix | lib/base_importer.rb:98-113 | the records of a shorter prefix of the items come first among those of a longer one |
| BaseImporter.RecordsFromDataItems | lib/base_importer.rb:103-110 | the records of a run are exactly the adapter's output for its non-comment items, in order |
| BaseImporter.DataItems | lib/base_importer.rb:103 | the items that reach the adapter are at most all of them and contain no comment or blank item |
| BaseImporter.DataItemsSelects | lib/base_importer.rb:103 | every item reaching the adapter is one of the items; without comments all of them reach it; with only comments none does |
| BaseImporter.RecordsOfComments | lib/base_importer.rb:103 | comment and blank items never reach the adapter, so a run of them produces no record |
| BaseImporter.AcceptsNext | lib/base_importer.rb:118 | the store accepts the next insert_all! exactly when its rejection script is used up or starts with an acceptance |
| BaseImporter.AfterInsert | lib/base_importer.rb:118 | each attempted insert_all! uses up one script entry: what remains is the script without its first entry |
| BaseImporter.Table.constructor | lib/base_importer.rb:64-67 | the model class's table starts with the given rows, no logged insert and the given rejection script |
| BaseImporter.Table.InsertAll | lib/base_importer.rb:118 | insert_all! uses up one entry of the store's rejection script. When accepted, it appends the whole batch in order and logs it. When rejected, it changes no row and fails. A store that accepts everything keeps accepting |
| BaseImporter.Table.DeleteAll | lib/base_importer.rb:72 | delete_all empties the table and leaves the insert log and the rejection script alone |
| BaseImporter.Importer.constructor | lib/base_importer.rb:6-16 | the configuration is clamped as above, and the buffer and counters start empty |
| BaseImporter.Importer.VerifySource | lib/base_importer.rb:123-127 | succeeds exactly when the source file exists |
| BaseImporter.Importer.BeforeImport | lib/base_importer.rb:70-75 | the table is emptied exactly when delete_before_import is set; the insert log, the rejection script and the importer are unchanged |
| BaseImporter.Importer.FlushBatch | lib/base_importer.rb:115-121 | an empty buffer attempts no insert and changes nothing. Otherwise one insert_all! is attempted. When accepted, the buffer is written, counted and cleared. When rejected, the rows, the counter and the buffer are unchanged and the flush fails |
| BaseImporter.Importer.PushRecord | lib/base_importer.rb:54-57 | the record joins the buffer. A buffer that reaches the batch size is flushed as above. Unless that insert fails, the buffer ends below the batch size |
| BaseImporter.Importer.PushAccounted | lib/base_importer.rb:54-57 | whether or not the insert fails, every pushed record stays either written (in order, in the table, counted) or in the buffer; writes stay full; a failure leaves the full buffer pending |
| BaseImporter.Importer.PushAll | lib/base_importer.rb:108-110 | pushing an item's records one by one keeps them all accounted for. If an insert is rejected, the rows are the writes so far, and those writes followed by the buffer are a prefix of the records |
| BaseImporter.Importer.StoppedWithin | lib/base_importer.rb:24-28 | a stopped state that is a prefix of the records of some items is a prefix of the records of any longer run of those items |
| BaseImporter.Importer.HandleItem | lib/base_importer.rb:98-113 | at the limit: stop with nothing changed. Otherwise: count the item; skip comments; hand data items to the adapter once and push its records in order. A rejected insert stops the loop: the rows are the writes so far, and those writes followed by the buffer are a prefix of the records |
| BaseImporter.Importer.ImportStep | lib/base_importer.rb:25-27 | one turn of the item loop extends the accounted records and adapter calls by that item, or stops on a rejected insert with the state a prefix of the records up to that item |
| BaseImporter.Importer.ImportItems | lib/base_importer.rb:24-28 | the loop considers exactly the items up to the limit, and their records are accounted for in order. If an insert is rejected, the table holds the base rows plus the writes so far, and those writes followed by the buffer are a prefix of the records |
| BaseImporter.Importer.FinishRun | lib/base_importer.rb:30 | the final flush leaves the table at base + all records, with the counter raised by their number, and the writes of the run are `Chunks` of the records; a rejected final insert leaves every record accounted for and the buffer pending |
| BaseImporter.Importer.Call | lib/base_importer.rb:18-34 | a missing file raises and changes nothing. Against a store that accepts every insert, the run completes. On completion the table ends as (emptied or old rows) + the records of the considered items, in order, written as `Chunks(records, batch size)`, with the adapter called once per data item. A rejected insert raises; the table keeps the base rows plus the writes that succeeded; those writes and the unwritten buffer are a prefix of `Chunks(records, batch size)` |
| UnicodeImporter.FieldCodepoint | lib/unicode_importer.rb:5 | an Integer field is the codepoint itself; hex text is its base-16 value |
| UnicodeImporter.UnicodeCharacterId | lib/unicode_importer.rb:4-7 | the id of a row whose codepoint is exactly the field's, or RecordNotFound exactly when no such row exists |
| UnicodeImporter.SeededHexResolves | lib/unicode_importer.rb:4-7 | every stored character is found from its `%04X` label and from its Integer codepoint |
| UnicodeImporter.FieldIgnoresCase | lib/unicode_importer.rb:5 | lower-case and upper-case hex text name the same character |
| Seeds.SeedRows | db/seeds.rb:18-19 | the buffered rows of a codepoint range, one per codepoint |
| Seeds.SeedRowsAt | db/seeds.rb:19 | the k-th buffered row is codepoint lo + k, with both timestamps `now` |
| Seeds.SeedRowsCodepoints | db/seeds.rb:18-19 | the rows of lo..hi-1 carry exactly those codepoints, all stamped (now, now) |
| Seeds.SeedRowsSplit | db/seeds.rb:18-19 | the rows of lo..mid and of mid..hi together are the rows of lo..hi |
| Seeds.UpsertOne | db/seeds.rb:22-25 | an existing codepoint keeps its id and takes the new timestamps; a new one gets a fresh id; other rows are untouched; ids stay unique |
| Seeds.UpsertRows | db/seeds.rb:22-25 | after upsert_all the keys are the old ones plus the batch's codepoints; ids survive; rows outside the batch are untouched; ids stay unique |
| Seeds.CharacterStore.UpsertAll | db/seeds.rb:22-25 | the store becomes the upsert of the batch, keeps unique ids, and logs the call |
| Seeds.Seed | db/seeds.rb:11-32 | the script upserts exactly `Chunks(rows of 0..0x10FFFF, 200)`; afterwards every codepoint is stored with (now, now), no old row lost its id, and nothing else changed |
| Seeds.SeedBelow | db/seeds.rb:17-32 | the same for the codepoints 0..hi-1; the loop keeps the upserts equal to the chunks of the rows already flushed |
| Seeds.SeedStep | db/seeds.rb:18-28 | one loop turn buffers the next codepoint and upserts a full buffer, keeping the loop invariant |
| Seeds.SeedRest | db/seeds.rb:29-32 | the final upsert, only for a non-empty buffer, completes the chunking and the seeded range |
| Seeds.FlushLogged | db/seeds.rb:21-27 | upserting the buffered rows lo..hi-1 after full batches extends the chunked log and the seeded range to hi |
| Seeds.FlushFull | db/seeds.rb:21-27 | one upsert of the buffer logs exactly the buffer and extends the seeded range |
| Seeds.UpsertLog | db/seeds.rb:21-27 | the chunking of 0..hi-1 is the chunking of 0..lo-1 plus the batch lo..hi-1 |
| Seeds.UpsertExtends | db/seeds.rb:22-25 | upserting the rows of lo..hi-1 extends the seeded range from lo to hi |
| Seeds.UpsertUntouched | db/seeds.rb:22-25 | an upsert keeps every id and every row outside its batch |
| Seeds.UpsertKeys | db/seeds.rb:22-25 | after the upsert, the keys are the old keys plus 0..hi-1 |
| Seeds.UpsertStamps | db/seeds.rb:22-25 | after the upsert, every codepoint below hi carries (now, now) |
| Seeds.SeededNothing | db/seeds.rb:17 | before the loop nothing is seeded and nothing has changed |
| Seeds.SeedUpsertCount | db/seeds.rb:11-13 | 0x110000 rows make 5571 upserts, the last of 112 rows |
| Seeds.SeedEmpty | db/seeds.rb:11-32 | seeding an empty table leaves exactly the codepoints 0..0x10FFFF, 0x110000 rows |
| Seeds.SeededFromEmpty | db/seeds.rb:17-32 | seeding 0..hi-1 into an empty table leaves exactly those hi rows |
| Seeds.Reseed | db/seeds.rb:22-25 | running the script again adds no row and changes no id: the upsert keyed by the unique index makes it idempotent |
| Seeds.SeededOverFull | db/seeds.rb:22-25 | seeding over a table that already holds 0..hi-1 keeps its keys, its size and its ids |
| Routes.StripUPrefix | config/routes.rb:30 | a leading U or u is removed, with one `+` after it; any other string is unchanged |
| Routes.KeepHexDigits | config/routes.rb:33 | only hex digits remain, in order; an all-hex string is unchanged |
| Routes.Normalize | config/routes.rb:26-39 | the redirect target is upper-case hex of at least 4 digits, all digits kept, with the same base-16 value as the digits of the segment |
| Routes.PadKeepsUpperHex | config/routes.rb:36 | zero-padding upper-case hex to 4 digits keeps it upper-case hex and keeps its value |
| Routes.UpcaseKeepsUpperHex | config/routes.rb:33 | upcasing hex digits gives upper-case hex digits |
| Routes.NormalizeOfUpperHex | config/routes.rb:30-36 | upper-case hex is only zero-padded to 4 digits |
| Routes.NormalizeIdempotent | config/routes.rb:26-39 | normalizing a normalized segment changes nothing |
| Routes.CanonicalIsNormal | config/routes.rb:17-19 | a segment the canonical route accepts is its own normalization |
| Routes.IsCanonical | config/routes.rb:17-19 | the canonical constraint holds exactly for 4 to 6 hex digits without a lower-case letter |
| Routes.StripUPrefixRedundant | config/routes.rb:30-33 | the U+ removal never changes the digits kept, because U and + are not hex digits |
| Routes.NormalizeKeepsLongDigits | config/routes.rb:33-36 | with 4 or more digits, the target is exactly the upcased digits and is never cut short |
| Routes.NormalizeExampleA | config/routes.rb:23 | a goes to 000A |
| Routes.NormalizeExample41 | config/routes.rb:24 | 41 goes to 0041 |
| Routes.NormalizeExample1F600 | config/routes.rb:25 | 1f600 goes to 1F600 |
| Routes.NormalizeNoDigits | config/routes.rb:33-36 | a segment without hex digits goes to 0000 |
| Routes.NoDigitsKept | config/routes.rb:33 | a segment without hex digits keeps nothing |
| Routes.CodepointRoute | config/routes.rb:17-39 | a canonical segment shows; any other non-empty segment redirects to its normalization; an empty one has no route |
| Routes.CpRoute | config/routes.rb:45-48 | /cp/x redirects to /codepoint/x unchanged |
| Routes.Dispatch | config/routes.rb:17-48 | a path under /codepoint/ is routed by its segment |
| Routes.DispatchCodepoint | config/routes.rb:17-39 | /codepoint/ + segment is routed by the codepoint routes |
| Routes.DispatchCp | config/routes.rb:45-48 | /cp/ + segment is routed by the shortcut |
| Routes.RedirectLandsOnShow | config/routes.rb:26-39 | a redirect whose target has at most 6 digits lands on the show page after one more request |
| Routes.CpReachesShow | config/routes.rb:45-48 | /cp/x reaches the show page of x's normalization in at most two redirects |
| Routes.RedirectLoop | config/routes.rb:39 | upper-case hex longer than 6 digits redirects to the very path it came from |
| Routes.RedirectLoopExample | config/routes.rb:26-39 | /codepoint/1234567 redirects to /codepoint/1234567 |
| Routes.CanonicalCodepointRoute | config/routes.rb:17-39 | the corrected routes redirect only to a canonical segment, and still show canonical segments |
| Routes.CanonicalDispatch | config/routes.rb:17-48 | whole-path routing with the corrected redirect |
| Routes.CanonicalRedirectTerminates | config/routes.rb:17-39 | with the correction, every /codepoint/ request ends on a canonical show page after at most one redirect, or on no route |
| Routes.CanonicalRouteAgrees | config/routes.rb:26-39 | the correction agrees with the written routes wherever the target has at most 6 digits |
| BlockRecords.ContainingCodepoint | app/models/block_record.rb:2-4 | a block whose interval holds the codepoint, or nil exactly when no block does |
| BlockRecords.ContainingCodepointUnique | app/models/block_record.rb:2-4 | with non-overlapping blocks, the block found is the one holding the codepoint |
| BlockRecords.DropRun | app/models/block_record.rb:7 | drops exactly the leading run of non-slug characters |
| BlockRecords.ReplaceRuns | app/models/block_record.rb:7 | the result has only [a-z0-9_] and no two underscores in a row; it starts with `_` only when the input starts with a non-slug character, and otherwise with the input's first character; a non-empty string stays non-empty |
| BlockRecords.SlugChars | app/models/block_record.rb:7 | the letters and digits a slug keeps from a downcased name: only [a-z0-9] |
| BlockRecords.DropRunKeepsSlugChars | app/models/block_record.rb:7 | dropping a leading run of other characters keeps every [a-z0-9] character |
| BlockRecords.ReplaceRunsKeepsSlugChars | app/models/block_record.rb:7 | gsub keeps every [a-z0-9] character, in order, and adds none |
| BlockRecords.ReplaceRunsCollapses | app/models/block_record.rb:7 | a whole run of other characters between slug characters (or an end) becomes exactly one underscore |
| BlockRecords.ReplaceRunsSplit | app/models/block_record.rb:7 | after a slug character, gsub works on the two sides separately |
| BlockRecords.ReplaceRunsOfRun | app/models/block_record.rb:7 | a leading run of other characters becomes one underscore |
| BlockRecords.ReplaceRunsOfTwoWords | app/models/block_record.rb:7 | two words joined by a run of other characters become word_word |
| BlockRecords.ReplaceRunsOfWord | app/models/block_record.rb:7 | a string of [a-z0-9] is left unchanged |
| BlockRecords.SlugCharsIgnoreStrip | app/models/block_record.rb:7 | strip removes no letter and no digit |
| BlockRecords.NormalizedName | app/models/block_record.rb:6-8 | the slug has only [a-z0-9_], never two underscores in a row, and keeps exactly the letters and digits of the downcased name, in order |
| BlockRecords.ReplaceRunsOfSlug | app/models/block_record.rb:7 | replacing the runs of a slug changes nothing |
| BlockRecords.SlugUnchanged | app/models/block_record.rb:7 | strip and downcase leave a slug unchanged |
| BlockRecords.NormalizedNameIdempotent | app/models/block_record.rb:6-8 | the slug of a slug is itself |
| BlockRecords.NormalizedNameOfSlugChars | app/models/block_record.rb:6-8 | a name made of [a-z0-9] is its own slug |
| BlockRecords.NormalizedNameIgnoresPadding | app/models/block_record.rb:7 | whitespace on either side of any name does not change its slug |
| BlockRecords.NormalizedNameExample | app/models/block_record.rb:6-8 | `Basic Latin` becomes `basic_latin` |
| BlockRecords.FindById | app/models/block_record.rb:11 | a block with that id, or nil exactly when none has it |
| BlockRecords.Previous | app/models/block_record.rb:10-12 | the block whose id is `index` less, or nil exactly when there is none |
| BlockRecords.Next | app/models/block_record.rb:14-16 | the block whose id is `index` more, or nil exactly when there is none |
| BlockRecords.FindByIdUnique | app/models/block_record.rb:11 | with unique ids, the block with a given id is the one found |
| BlockRecords.NextThenPrevious | app/models/block_record.rb:10-16 | next then previous, by the same index, returns to the starting block |
| BlockRecords.PreviousThenNext | app/models/block_record.rb:10-16 | previous then next returns to the starting block |
| BlockRecords.PreviousIsNegatedNext | app/models/block_record.rb:10-16 | previous(k) is next(-k) |
| UnicodeCharacters.Hex | app/models/unicode_character.rb:5-7 | the label is upper-case hex of at least 4 digits, reads back as the codepoint, and is padded only up to 4 digits |
| UnicodeCharacters.HexRoundTrip | app/models/unicode_character.rb:5-7 | `to_i(16)` of the label gives the codepoint back |
| UnicodeCharacters.HexInjective | app/models/unicode_character.rb:5-7 | two codepoints never share a label |
| UnicodeCharacters.HexIsCanonical | app/models/unicode_character.rb:5-7 | the label of every codepoint up to 0x10FFFF has 4 to 6 digits and matches the canonical route |
| UnicodeCharacters.HexIsNormal | app/models/unicode_character.rb:5-7 | the redirect leaves every label alone |
| UnicodeCharacters.FindByCodepoint | app/controllers/unicode_character_controller.rb:4 | a row with exactly that codepoint, or RecordNotFound exactly when none exists |
| UnicodeCharacters.FindByCodepointUnique | app/controllers/unicode_character_controller.rb:4 | under the unique codepoint index, the row found is the row with that codepoint |
| UnicodeCharacters.HasOne | app/models/unicode_character.rb:2-3 | has_one: a record whose owner is the character, or nil exactly when no record points at it |
| UnicodeCharacters.HasOneUnique | app/models/unicode_character.rb:2-3 | with at most one record per character, the record found is the one pointing at it |
| UnicodeCharacters.Coalesce | app/models/unicode_character.rb:10 | the first non-nil value, or the default when all are nil |
| UnicodeCharacters.CommonName | app/models/unicode_character.rb:9-11 | the name, else the Unicode 1.0 name, else the derived name, else `<no name>` |
| UnicodeCharacters.CommonNameIsACandidate | app/models/unicode_character.rb:9-11 | the common name is always one of the three names or `<no name>` |
| UnicodeCharacters.GeneralCategory | app/models/unicode_character.rb:13-15 | nil without a data record, else the record's category |
| UnicodeCharacters.Block | app/models/unicode_character.rb:17-19 | the name of a block containing the codepoint, or nil exactly when none does |
| UnicodeCharacterController.Show | app/controllers/unicode_character_controller.rb:2-5 | the row whose codepoint is `to_i(16)` of the parameter, whatever its case, or RecordNotFound exactly when none exists |
| UnicodeCharacterController.ShowOfHexDigits | app/controllers/unicode_character_controller.rb:3-4 | a hex parameter looks up its base-16 value |
| UnicodeCharacterController.ShowOfHex | app/controllers/unicode_character_controller.rb:2-5 | every stored character is shown from its label, in upper or lower case |
| BlockTableComponent.IndexBy | app/components/block_table.rb:10 | index_by holds exactly the codepoints of the rows, each under a row with that codepoint |
| BlockTableComponent.InRange | app/components/block_table.rb:9 | the rows whose codepoint is in the block's inclusive range |
| BlockTableComponent.NewBlockTable | app/components/block_table.rb:4-11 | the index holds exactly the stored codepoints inside the block, each under its own row |
| BlockTableComponent.UnicodeCharacterFor | app/components/block_table.rb:13-17 | the indexed character, or RecordNotFound exactly when the codepoint is not indexed |
| BlockTableComponent.UnicodeCharacterForAgreesWithStore | app/components/block_table.rb:13-17 | inside the block, the component finds what find_by!(codepoint:) finds; outside it, RecordNotFound |
| BlockTableComponent.FullBlockResolves | app/components/block_table.rb:4-17 | when the whole block is seeded, every codepoint of it resolves, and the index has one entry per codepoint |

## Left out

- Console output, timing and logging are not modelled: the `puts` lines, `after_import`, `label` and the monotonic clock.
- File access is not modelled. `open_source`, `File.open`, `Pathname` and `each_line` become a `SourceFile` value: whether the file exists, and its lines.
- The subclass hooks are parameters of `BaseImporter.Importer`:
  - `each_source_item` is a function from lines to items;
  - the adapter is a function from an item and a line number to its records.
- The base class defines `build_record` (raising NotImplementedError), but `handle_item` calls `build_records`, which only subclasses define. The model's adapter is the subclass's `build_records`. The nil-means-skip comment on `build_record` does not apply: an item without records pushes nothing.
- The concrete importers (the subclasses for each Unicode data file) are not part of this model.
- Database failures are a script given to the table: one entry per attempted insert_all!, where `true` means the store rejects that insert. A rejected insert stands for the exception insert_all! raises, and it changes no row. `delete_all` and `upsert_all` never fail.
- BaseImporter.Importer.HandleItem: the adapter is a total function. An exception raised inside build_records is not modelled, for example RecordNotFound from the `find_by!` of `unicode_character_id` (lib/unicode_importer.rb:6). Only insert_all! can stop a run.
- BaseImporter.CommentLine: this is the base class's comment_line?. Subclasses may override it, and their overrides are not part of this model.
- BaseImporter.BlankToNil: only strings and nil are modelled. Other values answer blank? in their own way (false, empty arrays and hashes), and that is left out.
- BaseImporter.BlankToNil: blank? is modelled with ASCII whitespace only. Rails' blank? matches `[[:space:]]`, which also takes Unicode spaces such as U+00A0 and U+3000, so a string of those is nil in Rails but kept here.
- SQL is simplified:
  - `where`, `find_by` and `index_by` work on a sequence of rows in storage order;
  - a query without an order returns the first match;
  - ids are abstract naturals.
- `Time.current` is the `now` parameter of the seeding script.
- An upsert overwrites both timestamps. Whether the database would keep `created_at` is not modelled.
- `to_i(16)` reads only the leading run of hex digits. The Ruby method's leading whitespace, sign, `0x` prefix and underscores are not modelled.
- Case mapping is ASCII only: Ruby's upcase and downcase also map non-ASCII letters, which is not modelled. `strip` removes ASCII whitespace and NUL, as Ruby's does.
- UnicodeCharacters.Hex: takes a natural number. Negative codepoints (which `%04X` prints with a minus sign) are not modelled.
- Routes.Dispatch: the optional `(.:format)` suffix Rails adds to every route is not modelled. The segment is everything after the route's prefix.
- Routes.Dispatch: only the three codepoint routes are modelled. The other routes, and the fact that the canonical route goes to `pages#show` rather than to the controller modelled here, are left out. Segment constraints are anchored, as in Rails.
- BlockTableComponent.NewBlockTable: the `highlight` argument is only stored. Rendering is not modelled.
- Upsert failures during seeding are not modelled.

## Findings

| source | as written | input that shows it | evidently intended | confidence | as-written member | corrected member |
|---|---|---|---|---|---|---|
| config/routes.rb:26-39 | The redirect accepts any segment (`.+`). A segment of more than six upper-case hex digits is not canonical, but it normalizes to itself, so the redirect sends the browser back to the same path. | `/codepoint/1234567` | redirect only to a canonical segment of 4 to 6 digits; give any other segment no route | not executed | Routes.RedirectLoop | Routes.CanonicalRedirectTerminates |
