/**
 * The batch importer engine (lib/base_importer.rb): a template-method loop over the
 * items of a source file that counts every item, stops at an optional limit, skips
 * comment and blank lines, asks the adapter for the records of each remaining item,
 * and writes them to the target table through a bounded buffer flushed with one
 * all-or-nothing bulk insert whenever it is full, and once more at the end.
 *
 * The adapter (build_records) and the item splitter (each_source_item) are the
 * subclass's; here they are functions the importer is given. The target table is a
 * Table object whose rows are ghost state that insert_all! and delete_all act on.
 */
module BaseImporter {
  import opened Wrappers
  import opened RubyString
  import opened Batching
  import opened Sequences

  /** One item of the source, with the line number handed to build_records (nil by default). */
  datatype SourceItem = SourceItem(text: string, lineNumber: Option<nat>)

  /** The file at the importer's path: whether it exists, and its lines. */
  datatype SourceFile = SourceFile(present: bool, lines: seq<string>)

  /** How call ends: normally, or with the exception it raises. */
  datatype Outcome = Completed | Raised(error: Error)

  // ================================================================ configuration

  /** The batch size actually used: the requested one, but never below 1. */
  function ClampBatchSize(n: int): (b: nat)
    ensures b >= 1 && b >= n
    ensures n >= 1 ==> b == n
    ensures n < 1 ==> b == 1
  {
    if n < 1 then 1 else n
  }

  /** The limit actually used: only a positive limit counts; anything else means no limit. */
  function EffectiveLimit(limit: Option<int>): (r: Option<nat>)
    ensures r.Some? ==> r.value >= 1 && limit == Some(r.value)
    ensures r.None? <==> limit.None? || limit.value <= 0
  {
    if limit.Some? && limit.value > 0 then Some(limit.value) else None
  }

  // ================================================================ pure helpers

  /** The default each_source_item: every line, yielded without a line number. */
  function DefaultSourceItems(lines: seq<string>): (items: seq<SourceItem>)
    ensures |items| == |lines|
    ensures forall i :: 0 <= i < |items| ==> items[i].text == lines[i] && items[i].lineNumber.None?
  {
    seq(|lines|, i requires 0 <= i < |lines| => SourceItem(lines[i], None))
  }

  /**
   * comment_line?: the item is blank once stripped, or starts with '#'. The body tests
   * the characters directly; CommentLineIsStripTest shows it is the strip-based test.
   * A line that starts with '#' is a comment; one that starts with any other character
   * strip keeps is data.
   */
  function CommentLine(item: string): (b: bool)
    ensures "#" <= item ==> b
    ensures |item| > 0 && !IsStripSpace(item[0]) && item[0] != '#' ==> !b
  {
    (forall i :: 0 <= i < |item| ==> IsStripSpace(item[i])) || (|item| > 0 && item[0] == '#')
  }

  lemma CommentLineIsStripTest(item: string)
    ensures CommentLine(item) <==> Strip(item) == [] || "#" <= item
  {
  }

  /** truncate: the first `limit` characters, the value itself when either is nil, and nil for a negative limit. */
  function Truncate(value: Option<string>, limit: Option<int>): (r: Option<string>)
    ensures value.None? || limit.None? ==> r == value
    ensures value.Some? && limit.Some? ==> (r.None? <==> limit.value < 0)
    ensures value.Some? && limit.Some? && r.Some? ==>
      r.value <= value.value && |r.value| == if limit.value < |value.value| then limit.value else |value.value|
  {
    if value.None? || limit.None? then value
    else if limit.value < 0 then None
    else if limit.value < |value.value| then Some(value.value[..limit.value])
    else Some(value.value)
  }

  /** blank? on a string: empty or only whitespace. */
  predicate IsBlank(s: string) {
    forall i :: 0 <= i < |s| ==> IsSpace(s[i])
  }

  /** blank_to_nil: nil for nil and for blank strings, the value otherwise. */
  function BlankToNil(value: Option<string>): (r: Option<string>)
    ensures r.Some? ==> r == value && !IsBlank(r.value)
    ensures r.None? <==> value.None? || IsBlank(value.value)
  {
    match value
    case None => None
    case Some(s) => if IsBlank(s) then None else value
  }

  lemma BlankToNilIdempotent(value: Option<string>)
    ensures BlankToNil(BlankToNil(value)) == BlankToNil(value)
  {
  }

  /** The records one item contributes: none for a comment, else what the adapter returns. */
  function ItemRecords<R>(item: SourceItem, build: (string, Option<nat>) -> seq<R>): seq<R> {
    if CommentLine(item.text) then [] else build(item.text, item.lineNumber)
  }

  /**
   * The records a run of items produces, in source order (RecordsFromDataItems and
   * RecordsOfComments state what they are).
   */
  function Records<R>(items: seq<SourceItem>, build: (string, Option<nat>) -> seq<R>): seq<R>
    decreases |items|
  {
    if items == [] then []
    else Records(items[..|items| - 1], build) + ItemRecords(items[|items| - 1], build)
  }

  /** No item of the run is a comment. */
  predicate NoComments(items: seq<SourceItem>) {
    forall k :: 0 <= k < |items| ==> !CommentLine(items[k].text)
  }

  /** Every item of the run is a comment. */
  predicate AllComments(items: seq<SourceItem>) {
    forall k :: 0 <= k < |items| ==> CommentLine(items[k].text)
  }

  /**
   * The items of a run that reach build_records: the non-comment items, in order
   * (DataItemsSelects states which).
   */
  function DataItems(items: seq<SourceItem>): (d: seq<SourceItem>)
    ensures |d| <= |items| && NoComments(d)
    decreases |items|
  {
    if items == [] then []
    else
      var init := items[..|items| - 1];
      var last := items[|items| - 1];
      assert items == init + [last];
      DataItems(init) + if CommentLine(last.text) then [] else [last]
  }

  /** What the adapter returns for each of a sequence of items, concatenated. */
  function BuildAll<R>(d: seq<SourceItem>, build: (string, Option<nat>) -> seq<R>): seq<R> {
    Flatten(seq(|d|, k requires 0 <= k < |d| => build(d[k].text, d[k].lineNumber)))
  }

  /** How many of n items the loop considers when it starts at `processed`. */
  function Taken(n: nat, limit: Option<nat>, processed: nat): (k: nat)
    ensures k <= n
    ensures limit.None? ==> k == n
    ensures limit.Some? ==> (k == n || processed + k >= limit.value) && (k == 0 || processed + k <= limit.value)
  {
    match limit
    case None => n
    case Some(l) => if processed >= l then 0 else if n < l - processed then n else l - processed
  }

  // ================================================================ lemmas

  /** The records of a run split in two are the records of each part. */
  lemma {:induction false} RecordsAppend<R>(a: seq<SourceItem>, b: seq<SourceItem>, build: (string, Option<nat>) -> seq<R>)
    ensures Records(a + b, build) == Records(a, build) + Records(b, build)
    decreases |b|
  {
    if b == [] {
      assert a + b == a;
    } else {
      var ab := a + b;
      var b', last := b[..|b| - 1], b[|b| - 1];
      assert ab[..|ab| - 1] == a + b';
      assert ab[|ab| - 1] == last;
      var tail := ItemRecords(last, build);
      assert Records(b, build) == Records(b', build) + tail;
      calc {
        Records(ab, build);
        Records(a + b', build) + tail;
        { RecordsAppend(a, b', build); }
        Records(a, build) + (Records(b', build) + tail);
        Records(a, build) + Records(b, build);
      }
    }
  }

  /** The items of a run split in two that reach the adapter are those of each part. */
  lemma {:induction false} DataItemsAppend(a: seq<SourceItem>, b: seq<SourceItem>)
    ensures DataItems(a + b) == DataItems(a) + DataItems(b)
    decreases |b|
  {
    if b == [] {
      assert a + b == a;
    } else {
      var ab := a + b;
      var b', last := b[..|b| - 1], b[|b| - 1];
      assert ab[..|ab| - 1] == a + b';
      assert ab[|ab| - 1] == last;
      var tail := if CommentLine(last.text) then [] else [last];
      assert DataItems(b) == DataItems(b') + tail;
      calc {
        DataItems(ab);
        DataItems(a + b') + tail;
        { DataItemsAppend(a, b'); }
        DataItems(a) + DataItems(b') + tail;
      }
    }
  }

  /**
   * DataItems keeps items of the run and only those: a run without comments reaches
   * build_records whole, a run of comments not at all.
   */
  lemma {:induction false} DataItemsSelects(items: seq<SourceItem>)
    ensures forall k :: 0 <= k < |DataItems(items)| ==> DataItems(items)[k] in items
    ensures NoComments(items) ==> DataItems(items) == items
    ensures AllComments(items) ==> DataItems(items) == []
    decreases |items|
  {
    if items != [] {
      var init, last := items[..|items| - 1], items[|items| - 1];
      assert items == init + [last];
      DataItemsSelects(init);
      var d := DataItems(init);
      var tail := if CommentLine(last.text) then [] else [last];
      assert DataItems(items) == d + tail;
      forall k | 0 <= k < |d + tail| ensures (d + tail)[k] in items {
        if k < |d| {
          assert d[k] in init;
        }
      }
    }
  }

  /** A run of comments and blank lines produces no record. */
  lemma {:induction false} RecordsOfComments<R>(items: seq<SourceItem>, build: (string, Option<nat>) -> seq<R>)
    requires AllComments(items)
    ensures Records(items, build) == []
    decreases |items|
  {
    if items != [] {
      RecordsOfComments(items[..|items| - 1], build);
    }
  }

  /** One more item of a run: its records and its adapter call come after those of the items before it. */
  lemma PrefixStep<R>(items: seq<SourceItem>, i: nat, build: (string, Option<nat>) -> seq<R>)
    requires i < |items|
    ensures Records(items[..i + 1], build) == Records(items[..i], build) + ItemRecords(items[i], build)
    ensures DataItems(items[..i + 1]) == DataItems(items[..i]) + DataItems([items[i]])
  {
    assert items[..i + 1][..i] == items[..i];
    assert items[..i] + [items[i]] == items[..i + 1];
    DataItemsAppend(items[..i], [items[i]]);
  }

  /** The records of a shorter prefix of a run come first among those of a longer one. */
  lemma RecordsPrefix<R>(items: seq<SourceItem>, i: nat, j: nat, build: (string, Option<nat>) -> seq<R>)
    requires i <= j <= |items|
    ensures Records(items[..i], build) <= Records(items[..j], build)
  {
    assert items[..i] + items[i..j] == items[..j];
    RecordsAppend(items[..i], items[i..j], build);
  }

  /** The records of a run are exactly the adapter's output for its non-comment items, in order. */
  lemma {:induction false} RecordsFromDataItems<R>(items: seq<SourceItem>, build: (string, Option<nat>) -> seq<R>)
    ensures Records(items, build) == BuildAll(DataItems(items), build)
    decreases |items|
  {
    if items != [] {
      var init := items[..|items| - 1];
      var last := items[|items| - 1];
      RecordsFromDataItems(init, build);
      var d := DataItems(init);
      if !CommentLine(last.text) {
        assert DataItems(items) == d + [last];
        var f := seq(|d|, k requires 0 <= k < |d| => build(d[k].text, d[k].lineNumber));
        var h := seq(|d| + 1, k requires 0 <= k < |d| + 1 => build((d + [last])[k].text, (d + [last])[k].lineNumber));
        assert h == f + [build(last.text, last.lineNumber)];
        FlattenSnoc(f, build(last.text, last.lineNumber));
        calc {
          BuildAll(DataItems(items), build);
          Flatten(h);
          Flatten(f) + build(last.text, last.lineNumber);
          Records(init, build) + ItemRecords(last, build);
        }
      } else {
        assert DataItems(items) == d + [] == d;
        assert Records(items, build) == Records(init, build) + [] == Records(init, build);
      }
    }
  }

  // ================================================================ the store

  /** Whether the store accepts the next insert_all!: a script entry `true` is a rejection. */
  function AcceptsNext(rejects: seq<bool>): (ok: bool)
    ensures ok <==> rejects == [] || !rejects[0]
  {
    rejects == [] || !rejects[0]
  }

  /** The script of rejections once one more insert_all! has been attempted. */
  function AfterInsert(rejects: seq<bool>): (rest: seq<bool>)
    ensures |rest| == if rejects == [] then 0 else |rejects| - 1
    ensures forall k :: 0 <= k < |rest| ==> rest[k] == rejects[k + 1]
  {
    if rejects == [] then [] else rejects[1..]
  }

  /** A store that accepts every insert from now on. */
  predicate AcceptsAll(rejects: seq<bool>) {
    forall k :: 0 <= k < |rejects| ==> !rejects[k]
  }

  /**
   * The target table of an import. Its rows are the store's state, seen only through
   * insert_all! and delete_all. `rejects` scripts the outcome of each coming insert_all!
   * (true for one the store rejects with an exception; inserts past the end of the
   * script succeed), and `inserts` records each successful insert_all! call.
   */
  class Table<R> {
    ghost var rows: seq<R>
    ghost var inserts: seq<seq<R>>
    var rejects: seq<bool>

    constructor (ghost initialRows: seq<R>, rejects: seq<bool>)
      ensures rows == initialRows && inserts == [] && this.rejects == rejects
    {
      rows := initialRows;
      inserts := [];
      this.rejects := rejects;
    }

    /** insert_all!: all rows of the batch, in order, or none of them and an exception. */
    method InsertAll(batch: seq<R>) returns (ok: bool)
      modifies this
      ensures ok == AcceptsNext(old(rejects)) && rejects == AfterInsert(old(rejects))
      ensures ok ==> rows == old(rows) + batch && inserts == old(inserts) + [batch]
      ensures !ok ==> rows == old(rows) && inserts == old(inserts)
      ensures AcceptsAll(old(rejects)) ==> ok && AcceptsAll(rejects)
    {
      ok := rejects == [] || !rejects[0];
      rejects := if rejects == [] then [] else rejects[1..];
      if ok {
        rows := rows + batch;
        inserts := inserts + [batch];
      }
    }

    /** delete_all */
    method DeleteAll()
      modifies this
      ensures rows == [] && inserts == old(inserts) && rejects == old(rejects)
    {
      rows := [];
    }
  }

  // ================================================================ the engine

  class Importer<R> {
    const source: SourceFile
    const batchSize: nat
    const limit: Option<nat>
    const table: Table<R>
    const deleteBeforeImport: bool
    const eachSourceItem: seq<string> -> seq<SourceItem>
    const buildRecords: (string, Option<nat>) -> seq<R>

    var batch: seq<R>
    var inserted: nat
    var processed: nat
    /** The items handed to build_records so far, in order. */
    ghost var adapterCalls: seq<SourceItem>

    ghost predicate Valid() {
      batchSize >= 1 && (limit.Some? ==> limit.value >= 1)
    }

    constructor (source: SourceFile, batchSize: int, limit: Option<int>, table: Table<R>,
                 deleteBeforeImport: bool,
                 eachSourceItem: seq<string> -> seq<SourceItem>,
                 buildRecords: (string, Option<nat>) -> seq<R>)
      ensures Valid()
      ensures this.source == source && this.table == table && this.deleteBeforeImport == deleteBeforeImport
      ensures this.eachSourceItem == eachSourceItem && this.buildRecords == buildRecords
      ensures this.batchSize == ClampBatchSize(batchSize) && this.limit == EffectiveLimit(limit)
      ensures batch == [] && inserted == 0 && processed == 0 && adapterCalls == []
    {
      this.source := source;
      this.batchSize := ClampBatchSize(batchSize);
      this.limit := EffectiveLimit(limit);
      this.table := table;
      this.deleteBeforeImport := deleteBeforeImport;
      this.eachSourceItem := eachSourceItem;
      this.buildRecords := buildRecords;
      batch := [];
      inserted := 0;
      processed := 0;
      adapterCalls := [];
    }

    /** verify_source!: false stands for the ArgumentError raised on a missing file. */
    method VerifySource() returns (ok: bool)
      ensures ok == source.present
    {
      ok := source.present;
    }

    /** before_import: empties the table once when delete_before_import is set. */
    method BeforeImport()
      modifies table
      ensures table.rows == if deleteBeforeImport then [] else old(table.rows)
      ensures table.inserts == old(table.inserts) && table.rejects == old(table.rejects)
    {
      if deleteBeforeImport {
        table.DeleteAll();
      }
    }

    /** flush_batch: one insert of the whole buffer, or nothing for an empty buffer. */
    method FlushBatch() returns (failed: bool)
      requires Valid()
      modifies this`batch, this`inserted, table
      ensures var attempted := old(batch) != [];
        var written := attempted && AcceptsNext(old(table.rejects));
        && failed == (attempted && !written)
        && table.rejects == (if attempted then AfterInsert(old(table.rejects)) else old(table.rejects))
        && table.inserts == old(table.inserts) + (if written then [old(batch)] else [])
        && table.rows == old(table.rows) + (if written then old(batch) else [])
        && inserted == old(inserted) + (if written then |old(batch)| else 0)
        && batch == (if written then [] else old(batch))
      ensures AcceptsAll(old(table.rejects)) ==> !failed && AcceptsAll(table.rejects)
    {
      failed := false;
      if batch == [] {
        return;
      }
      var ok := table.InsertAll(batch);
      if !ok {
        failed := true;
        return;
      }
      inserted := inserted + |batch|;
      batch := [];
    }

    /** push_record: appends to the buffer and flushes it as soon as it is full. */
    method PushRecord(attrs: R) returns (failed: bool)
      requires Valid()
      modifies this`batch, this`inserted, table
      ensures var full := |old(batch)| + 1 >= batchSize;
        var written := full && AcceptsNext(old(table.rejects));
        && failed == (full && !written)
        && table.rejects == (if full then AfterInsert(old(table.rejects)) else old(table.rejects))
        && table.inserts == old(table.inserts) + (if written then [old(batch) + [attrs]] else [])
        && table.rows == old(table.rows) + (if written then old(batch) + [attrs] else [])
        && inserted == old(inserted) + (if written then |old(batch)| + 1 else 0)
        && batch == (if written then [] else old(batch) + [attrs])
      ensures !failed ==> |batch| < batchSize
      ensures AcceptsAll(old(table.rejects)) ==> !failed && AcceptsAll(table.rejects)
    {
      batch := batch + [attrs];
      failed := false;
      if |batch| >= batchSize {
        failed := FlushBatch();
      }
    }

    /**
     * The run that started with the log at length i0, the table at `base` and the counter
     * at inserted0 is accounted for: every record pushed since, `pushed`, is either in
     * one of the writes logged since i0 or still in the buffer, in order.
     */
    ghost predicate Accounts(i0: nat, base: seq<R>, inserted0: nat, pushed: seq<R>)
      reads this, table
    {
      && i0 <= |table.inserts|
      && table.rows == base + Flatten(table.inserts[i0..])
      && inserted == inserted0 + |Flatten(table.inserts[i0..])|
      && Flatten(table.inserts[i0..]) + batch == pushed
      && (forall k :: i0 <= k < |table.inserts| ==> table.inserts[k] != [])
    }

    /**
     * The run stopped on a rejected insert of the buffer: the table holds `base` and the
     * writes logged since i0, counted, and those writes followed by the rejected buffer
     * are the first records of `produced`.
     */
    ghost predicate Stopped(i0: nat, base: seq<R>, inserted0: nat, produced: seq<R>)
      reads this, table
    {
      && i0 <= |table.inserts|
      && table.rows == base + Flatten(table.inserts[i0..])
      && inserted == inserted0 + |Flatten(table.inserts[i0..])|
      && batch != []
      && Flatten(table.inserts[i0..]) + batch <= produced
      && (forall k :: i0 <= k < |table.inserts| ==> table.inserts[k] != [])
    }

    /** Every write since i0 was a full batch. */
    ghost predicate FullLog(i0: nat)
      reads this, table
    {
      forall k :: i0 <= k < |table.inserts| ==> |table.inserts[k]| == batchSize
    }

    /** Every write since i0 was a full batch, and the buffer is below the batch size. */
    ghost predicate FullWrites(i0: nat)
      reads this, table
    {
      |batch| < batchSize && FullLog(i0)
    }

    /** Every write since i0 was a full batch, and the buffer that was rejected is full too. */
    ghost predicate FullStop(i0: nat)
      reads this, table
    {
      |batch| == batchSize && FullLog(i0)
    }

    /** A run accounted for up to `pushed`, with the buffer rejected, has stopped short of anything pushed later. */
    lemma AccountsStop(i0: nat, base: seq<R>, inserted0: nat, pushed: seq<R>, produced: seq<R>)
      requires Accounts(i0, base, inserted0, pushed) && batch != [] && pushed <= produced
      ensures Stopped(i0, base, inserted0, produced)
    {
    }

    /** A run stopped short of `produced` stopped short of anything `produced` begins. */
    lemma StoppedGrows(i0: nat, base: seq<R>, inserted0: nat, produced: seq<R>, more: seq<R>)
      requires Stopped(i0, base, inserted0, produced) && produced <= more
      ensures Stopped(i0, base, inserted0, more)
    {
      PrefixTrans(Flatten(table.inserts[i0..]) + batch, produced, more);
    }

    /** A run stopped within the records of the first j items stopped within those of the first n. */
    lemma StoppedWithin(items: seq<SourceItem>, j: nat, n: nat, i0: nat, base: seq<R>, inserted0: nat, batch0: seq<R>)
      requires j <= n <= |items| && Stopped(i0, base, inserted0, batch0 + Records(items[..j], buildRecords))
      ensures Stopped(i0, base, inserted0, batch0 + Records(items[..n], buildRecords))
    {
      RecordsPrefix(items, j, n, buildRecords);
      PrefixConcat(batch0, Records(items[..j], buildRecords), Records(items[..n], buildRecords));
      StoppedGrows(i0, base, inserted0, batch0 + Records(items[..j], buildRecords),
                   batch0 + Records(items[..n], buildRecords));
    }

    /** push_record as seen from a whole run: Accounts is kept, with one more record pushed. */
    method PushAccounted(attrs: R, ghost i0: nat, ghost base: seq<R>, ghost inserted0: nat, ghost pushed: seq<R>)
      returns (failed: bool)
      requires Valid() && Accounts(i0, base, inserted0, pushed)
      modifies this`batch, this`inserted, table
      ensures Accounts(i0, base, inserted0, pushed + [attrs])
      ensures failed ==> batch != []
      ensures !failed && old(FullWrites(i0)) ==> FullWrites(i0)
      ensures failed && old(FullWrites(i0)) ==> FullStop(i0)
      ensures AcceptsAll(old(table.rejects)) ==> !failed && AcceptsAll(table.rejects)
    {
      ghost var before := table.inserts;
      ghost var pending := batch;
      ghost var f0 := Flatten(before[i0..]);
      failed := PushRecord(attrs);
      ConcatAssoc(f0, pending, [attrs]);
      if |table.inserts| == |before| {
        assert table.inserts[i0..] == before[i0..];
      } else {
        WriteStep(before, i0, [pending + [attrs]]);
        FlattenSingleton(pending + [attrs]);
      }
    }

    /** handle_item: cont false means "stop, the limit is reached"; failed stands for an insert that raised. */
    method HandleItem(item: SourceItem, ghost i0: nat, ghost base: seq<R>, ghost inserted0: nat, ghost pushed: seq<R>)
      returns (cont: bool, failed: bool)
      requires Valid() && Accounts(i0, base, inserted0, pushed)
      modifies this`batch, this`inserted, this`processed, this`adapterCalls, table
      ensures var reached := limit.Some? && old(processed) >= limit.value;
        && (reached ==> !cont && !failed && processed == old(processed) && adapterCalls == old(adapterCalls))
        && (!reached ==> processed == old(processed) + 1 && cont == !failed
                         && adapterCalls == old(adapterCalls) + DataItems([item]))
        && (reached ==> Accounts(i0, base, inserted0, pushed))
        && (!reached && !failed ==> Accounts(i0, base, inserted0, pushed + ItemRecords(item, buildRecords)))
        && (failed ==> Stopped(i0, base, inserted0, pushed + ItemRecords(item, buildRecords)))
      ensures !failed && old(FullWrites(i0)) ==> FullWrites(i0)
      ensures failed && old(FullWrites(i0)) ==> FullStop(i0)
      ensures AcceptsAll(old(table.rejects)) ==> !failed && AcceptsAll(table.rejects)
    {
      if limit.Some? && processed >= limit.value {
        return false, false;
      }
      processed := processed + 1;
      assert DataItems([item]) == DataItems([]) + (if CommentLine(item.text) then [] else [item]) by {
        assert [item][..0] == [];
      }
      if CommentLine(item.text) {
        assert pushed + ItemRecords(item, buildRecords) == pushed;
        return true, false;
      }
      var records := buildRecords(item.text, item.lineNumber);
      adapterCalls := adapterCalls + [item];
      failed := PushAll(records, i0, base, inserted0, pushed);
      cont := !failed;
    }

    /** The loop of handle_item over the records the adapter built for one item. */
    method PushAll(records: seq<R>, ghost i0: nat, ghost base: seq<R>, ghost inserted0: nat, ghost pushed: seq<R>)
      returns (failed: bool)
      requires Valid() && Accounts(i0, base, inserted0, pushed)
      modifies this`batch, this`inserted, table
      ensures !failed ==> Accounts(i0, base, inserted0, pushed + records)
      ensures failed ==> Stopped(i0, base, inserted0, pushed + records)
      ensures !failed && old(FullWrites(i0)) ==> FullWrites(i0)
      ensures failed && old(FullWrites(i0)) ==> FullStop(i0)
      ensures AcceptsAll(old(table.rejects)) ==> !failed && AcceptsAll(table.rejects)
    {
      ghost var full0, accepting0 := FullWrites(i0), AcceptsAll(table.rejects);
      var j := 0;
      while j < |records|
        invariant 0 <= j <= |records|
        invariant Accounts(i0, base, inserted0, pushed + records[..j])
        invariant full0 ==> FullWrites(i0)
        invariant accepting0 ==> AcceptsAll(table.rejects)
      {
        var f := PushAccounted(records[j], i0, base, inserted0, pushed + records[..j]);
        assert records[..j + 1] == records[..j] + [records[j]];
        if f {
          assert pushed + records[..j + 1] <= pushed + records;
          AccountsStop(i0, base, inserted0, pushed + records[..j + 1], pushed + records);
          return true;
        }
        j := j + 1;
      }
      assert records[..j] == records;
      failed := false;
    }

    /** One turn of the each_source_item loop of call: item i of the run is handled. */
    method ImportStep(items: seq<SourceItem>, i: nat, ghost i0: nat, ghost base: seq<R>, ghost inserted0: nat,
                      ghost processed0: nat, ghost calls0: seq<SourceItem>, ghost batch0: seq<R>)
      returns (cont: bool, failed: bool)
      requires Valid() && i < |items|
      requires processed == processed0 + i && adapterCalls == calls0 + DataItems(items[..i])
      requires Accounts(i0, base, inserted0, batch0 + Records(items[..i], buildRecords))
      modifies this`batch, this`inserted, this`processed, this`adapterCalls, table
      ensures old(FullWrites(i0)) && !failed ==> FullWrites(i0)
      ensures old(FullWrites(i0)) && failed ==> FullStop(i0)
      ensures AcceptsAll(old(table.rejects)) ==> !failed && AcceptsAll(table.rejects)
      ensures var reached := limit.Some? && processed0 + i >= limit.value;
        && (reached ==> !cont && !failed && processed == old(processed) && adapterCalls == old(adapterCalls)
                        && Accounts(i0, base, inserted0, batch0 + Records(items[..i], buildRecords)))
        && (!reached && !failed ==>
              && cont && processed == processed0 + i + 1
              && adapterCalls == calls0 + DataItems(items[..i + 1])
              && Accounts(i0, base, inserted0, batch0 + Records(items[..i + 1], buildRecords)))
        && (failed ==> !reached && Stopped(i0, base, inserted0, batch0 + Records(items[..i + 1], buildRecords)))
    {
      ghost var pushed := batch0 + Records(items[..i], buildRecords);
      cont, failed := HandleItem(items[i], i0, base, inserted0, pushed);
      PrefixStep(items, i, buildRecords);
      assert batch0 + Records(items[..i + 1], buildRecords) == pushed + ItemRecords(items[i], buildRecords);
      assert calls0 + DataItems(items[..i + 1]) == old(adapterCalls) + DataItems([items[i]]);
    }

    /**
     * The each_source_item loop of call: handles the items in order until the limit is
     * reached or an insert fails.
     */
    method ImportItems(items: seq<SourceItem>, ghost i0: nat, ghost base: seq<R>) returns (failed: bool)
      requires Valid() && Accounts(i0, base, inserted, batch)
      modifies this`batch, this`inserted, this`processed, this`adapterCalls, table
      ensures var considered := items[..Taken(|items|, limit, old(processed))];
        var produced := old(batch) + Records(considered, buildRecords);
        && (!failed ==>
              && processed == old(processed) + |considered|
              && adapterCalls == old(adapterCalls) + DataItems(considered)
              && Accounts(i0, base, old(inserted), produced)
              && (old(FullWrites(i0)) ==> FullWrites(i0)))
        && (failed ==> Stopped(i0, base, old(inserted), produced) && (old(FullWrites(i0)) ==> FullStop(i0)))
      ensures AcceptsAll(old(table.rejects)) ==> !failed && AcceptsAll(table.rejects)
    {
      ghost var taken := Taken(|items|, limit, processed);
      ghost var processed0, calls0, inserted0, batch0 := processed, adapterCalls, inserted, batch;
      ghost var full0, accepting0 := FullWrites(i0), AcceptsAll(table.rejects);
      assert items[..0] == [];
      var i := 0;
      while i < |items|
        invariant 0 <= i <= taken
        invariant processed == processed0 + i
        invariant adapterCalls == calls0 + DataItems(items[..i])
        invariant Accounts(i0, base, inserted0, batch0 + Records(items[..i], buildRecords))
        invariant full0 ==> FullWrites(i0)
        invariant accepting0 ==> AcceptsAll(table.rejects)
      {
        var cont, f := ImportStep(items, i, i0, base, inserted0, processed0, calls0, batch0);
        if f {
          StoppedWithin(items, i + 1, taken, i0, base, inserted0, batch0);
          return true;
        }
        if !cont {
          break;
        }
        i := i + 1;
      }
      assert i == taken;
      failed := false;
    }

    /** The flush_batch that ends call: the buffer is written, and with it the whole run. */
    method FinishRun(ghost i0: nat, ghost base: seq<R>, ghost inserted0: nat, ghost produced: seq<R>)
      returns (failed: bool)
      requires Valid() && Accounts(i0, base, inserted0, produced)
      modifies this`batch, this`inserted, table
      ensures i0 <= |table.inserts|
      ensures !failed ==> batch == [] && table.rows == base + produced && inserted == inserted0 + |produced|
      ensures !failed && old(FullWrites(i0)) ==> table.inserts[i0..] == Chunks(produced, batchSize)
      ensures failed ==> Accounts(i0, base, inserted0, produced) && batch != []
      ensures failed && old(FullWrites(i0)) ==> FullWrites(i0)
      ensures AcceptsAll(old(table.rejects)) ==> !failed && AcceptsAll(table.rejects)
    {
      ghost var before := table.inserts;
      ghost var last := batch;
      failed := FlushBatch();
      if failed {
        assert table.inserts == before && batch == last;
        return;
      }
      LastFlush(before, i0, last);
      if old(FullWrites(i0)) {
        LastFlushChunks(before, i0, last, batchSize);
      }
    }

    /** call: the whole import. */
    method Call() returns (outcome: Outcome)
      requires Valid()
      modifies this`batch, this`inserted, this`processed, this`adapterCalls, table
      ensures |table.inserts| >= |old(table.inserts)|
      ensures !source.present ==>
        outcome == Raised(SourceNotFound) && unchanged(this) && unchanged(table)
      ensures source.present ==>
        var items := eachSourceItem(source.lines);
        var considered := items[..Taken(|items|, limit, old(processed))];
        var produced := old(batch) + Records(considered, buildRecords);
        var base := if deleteBeforeImport then [] else old(table.rows);
        var written := table.inserts[|old(table.inserts)|..];
        && (outcome == Completed || outcome == Raised(InsertFailed))
        && (AcceptsAll(old(table.rejects)) ==> outcome == Completed)
        && (outcome == Completed ==>
              && batch == []
              && processed == old(processed) + |considered|
              && adapterCalls == old(adapterCalls) + DataItems(considered)
              && table.rows == base + produced
              && inserted == old(inserted) + |produced|
              && (|old(batch)| < batchSize ==> written == Chunks(produced, batchSize)))
        && (outcome == Raised(InsertFailed) ==>
              && table.rows == base + Flatten(written)
              && inserted == old(inserted) + |Flatten(written)|
              && batch != [] && Flatten(written) + batch <= produced
              && (|old(batch)| < batchSize ==> written + [batch] <= Chunks(produced, batchSize)))
    {
      var ok := VerifySource();
      if !ok {
        return Raised(SourceNotFound);
      }
      BeforeImport();
      ghost var i0 := |table.inserts|;
      assert table.inserts[i0..] == [];
      assert old(|batch| < batchSize) ==> FullWrites(i0);
      var items := eachSourceItem(source.lines);
      ghost var produced := batch + Records(items[..Taken(|items|, limit, processed)], buildRecords);
      var failed := ImportItems(items, i0, table.rows);
      if failed {
        if old(|batch| < batchSize) {
          StoppedPrefix(table.inserts[i0..], batch, produced, batchSize);
        }
        return Raised(InsertFailed);
      }
      failed := FinishRun(i0, if deleteBeforeImport then [] else old(table.rows), old(inserted), produced);
      if failed {
        if old(|batch| < batchSize) {
          StoppedPrefix(table.inserts[i0..], batch, produced, batchSize);
        }
        return Raised(InsertFailed);
      }
      return Completed;
    }
  }
}
