/**
 * BlockRecord (app/models/block_record.rb): the block containing a codepoint, the slug
 * of a block's name, and the neighbouring blocks by id. The table is a sequence of rows
 * in storage order; a query without an order returns the first matching row.
 */
module BlockRecords {
  import opened Wrappers
  import opened RubyString
  import opened Schema
  import opened Sequences

  predicate Contains(b: BlockRecord, cp: int) {
    b.startCode <= cp <= b.endCode
  }

  /** containing_codepoint: some block whose interval holds cp, or nil when none does. */
  function ContainingCodepoint(blocks: seq<BlockRecord>, cp: int): (r: Option<BlockRecord>)
    ensures r.Some? ==> r.value in blocks && Contains(r.value, cp)
    ensures r.None? <==> forall k :: 0 <= k < |blocks| ==> !Contains(blocks[k], cp)
    decreases |blocks|
  {
    if blocks == [] then None
    else if Contains(blocks[0], cp) then Some(blocks[0])
    else
      var r := ContainingCodepoint(blocks[1..], cp);
      assert forall k :: 1 <= k < |blocks| ==> blocks[k] == blocks[1..][k - 1];
      r
  }

  /** When the blocks do not overlap, the block containing cp is the only one that does. */
  lemma ContainingCodepointUnique(blocks: seq<BlockRecord>, cp: int, k: nat)
    requires k < |blocks| && Contains(blocks[k], cp)
    requires forall i, j :: 0 <= i < j < |blocks| ==> blocks[i].endCode < blocks[j].startCode
    ensures ContainingCodepoint(blocks, cp) == Some(blocks[k])
  {
    var r := ContainingCodepoint(blocks, cp);
    var i :| 0 <= i < |blocks| && blocks[i] == r.value;
  }

  // ---------------------------------------------------------------- normalized_name

  /** The characters the slug keeps: [a-z0-9]. */
  predicate IsSlugChar(c: char) {
    ('a' <= c <= 'z') || ('0' <= c <= '9')
  }

  /** The characters of s the slug keeps, in order. */
  function SlugChars(s: string): (k: string)
    ensures forall i :: 0 <= i < |k| ==> IsSlugChar(k[i])
    decreases |s|
  {
    if s == [] then [] else (if IsSlugChar(s[0]) then [s[0]] else []) + SlugChars(s[1..])
  }

  /** Drops the leading run of characters the slug does not keep. */
  function DropRun(s: string): (r: string)
    ensures |r| <= |s| && r == s[|s| - |r|..]
    ensures r != [] ==> IsSlugChar(r[0])
    ensures forall i :: 0 <= i < |s| - |r| ==> !IsSlugChar(s[i])
    decreases |s|
  {
    if s != [] && !IsSlugChar(s[0]) then DropRun(s[1..]) else s
  }

  /**
   * Every maximal run of characters outside [a-z0-9] becomes one underscore: the result
   * has no two underscores side by side (ReplaceRunsKeepsSlugChars: it keeps the slug
   * characters of s in order; ReplaceRunsCollapses: each run becomes one underscore).
   */
  function ReplaceRuns(s: string): (r: string)
    ensures forall i :: 0 <= i < |r| ==> IsSlugChar(r[i]) || r[i] == '_'
    ensures forall i :: 0 <= i < |r| - 1 ==> !(r[i] == '_' && r[i + 1] == '_')
    ensures r != [] && r[0] == '_' ==> s != [] && !IsSlugChar(s[0])
    ensures r != [] && IsSlugChar(r[0]) ==> s != [] && r[0] == s[0]
    ensures s != [] ==> r != []
    decreases |s|
  {
    if s == [] then []
    else if IsSlugChar(s[0]) then [s[0]] + ReplaceRuns(s[1..])
    else
      var rest := DropRun(s);
      assert |rest| < |s|;
      "_" + ReplaceRuns(rest)
  }

  /** The leading run DropRun removes holds no slug character. */
  lemma {:induction false} DropRunKeepsSlugChars(s: string)
    ensures SlugChars(DropRun(s)) == SlugChars(s)
    decreases |s|
  {
    if s != [] && !IsSlugChar(s[0]) {
      DropRunKeepsSlugChars(s[1..]);
    }
  }

  /** Replacing the runs keeps the slug characters of s, in order, and only those. */
  lemma {:induction false} ReplaceRunsKeepsSlugChars(s: string)
    ensures SlugChars(ReplaceRuns(s)) == SlugChars(s)
    decreases |s|
  {
    if s != [] {
      var r := ReplaceRuns(s);
      if IsSlugChar(s[0]) {
        ReplaceRunsKeepsSlugChars(s[1..]);
        assert r[1..] == ReplaceRuns(s[1..]);
      } else {
        var rest := DropRun(s);
        ReplaceRunsKeepsSlugChars(rest);
        DropRunKeepsSlugChars(s);
        assert r[1..] == ReplaceRuns(rest);
      }
    }
  }

  /**
   * normalized_name: the name stripped and lower-cased, with the runs replaced. The slug
   * keeps the name's letters, lower-cased, and its digits, in order.
   */
  function NormalizedName(name: string): (r: string)
    ensures forall i :: 0 <= i < |r| ==> IsSlugChar(r[i]) || r[i] == '_'
    ensures forall i :: 0 <= i < |r| - 1 ==> !(r[i] == '_' && r[i + 1] == '_')
    ensures SlugChars(r) == SlugChars(Downcase(name))
  {
    SlugCharsIgnoreStrip(name);
    ReplaceRunsKeepsSlugChars(Downcase(Strip(name)));
    ReplaceRuns(Downcase(Strip(name)))
  }

  /** The whitespace strip removes holds no slug character, even lower-cased. */
  lemma SlugCharsIgnoreStrip(name: string)
    ensures SlugChars(Downcase(Strip(name))) == SlugChars(Downcase(name))
  {
    SlugCharsOfTrimmed(name, Strip(name));
  }

  lemma SlugCharsOfTrimmed(name: string, r: string)
    requires Trims(name, r)
    ensures SlugChars(Downcase(r)) == SlugChars(Downcase(name))
  {
    var i, j :| 0 <= i <= j <= |name| && r == name[i..j]
      && (forall k :: 0 <= k < i ==> IsStripSpace(name[k]))
      && (forall k :: j <= k < |name| ==> IsStripSpace(name[k]));
    SliceThree(name, i, j);
    SlugCharsOfPadded(name[..i], r, name[j..]);
  }

  lemma SliceThree(s: string, i: nat, j: nat)
    requires i <= j <= |s|
    ensures s == s[..i] + s[i..j] + s[j..]
  {
  }

  lemma SlugCharsOfPadded(pre: string, s: string, post: string)
    requires forall k :: 0 <= k < |pre| ==> IsStripSpace(pre[k])
    requires forall k :: 0 <= k < |post| ==> IsStripSpace(post[k])
    ensures SlugChars(Downcase(pre + s + post)) == SlugChars(Downcase(s))
  {
    var dp, ds, dq := Downcase(pre), Downcase(s), Downcase(post);
    NoSlugCharsInSpaces(pre);
    NoSlugCharsInSpaces(post);
    calc {
      SlugChars(Downcase(pre + s + post));
      { DowncaseAppend(pre + s, post); }
      SlugChars(Downcase(pre + s) + dq);
      { SlugCharsAppend(Downcase(pre + s), dq); }
      SlugChars(Downcase(pre + s)) + SlugChars(dq);
      SlugChars(Downcase(pre + s));
      { DowncaseAppend(pre, s); }
      SlugChars(dp + ds);
      { SlugCharsAppend(dp, ds); }
      SlugChars(dp) + SlugChars(ds);
      SlugChars(ds);
    }
  }

  lemma DowncaseAppend(a: string, b: string)
    ensures Downcase(a + b) == Downcase(a) + Downcase(b)
  {
    assert forall k :: 0 <= k < |a + b| ==> Downcase(a + b)[k] == (Downcase(a) + Downcase(b))[k];
  }

  lemma {:induction false} SlugCharsAppend(a: string, b: string)
    ensures SlugChars(a + b) == SlugChars(a) + SlugChars(b)
    decreases |a|
  {
    if a == [] {
      assert a + b == b;
    } else {
      assert (a + b)[1..] == a[1..] + b;
      SlugCharsAppend(a[1..], b);
    }
  }

  lemma {:induction false} NoSlugCharsInSpaces(s: string)
    requires forall k :: 0 <= k < |s| ==> IsStripSpace(s[k])
    ensures SlugChars(Downcase(s)) == []
    decreases |s|
  {
    if s != [] {
      assert Downcase(s)[1..] == Downcase(s[1..]);
      NoSlugCharsInSpaces(s[1..]);
    }
  }

  /**
   * A maximal run of characters outside [a-z0-9] is replaced by one underscore, whatever
   * surrounds it: "a-+-b" becomes "a_b".
   */
  lemma ReplaceRunsCollapses(a: string, run: string, b: string)
    requires a == [] || IsSlugChar(a[|a| - 1])
    requires run != [] && forall k :: 0 <= k < |run| ==> !IsSlugChar(run[k])
    requires b == [] || IsSlugChar(b[0])
    ensures ReplaceRuns(a + run + b) == ReplaceRuns(a) + "_" + ReplaceRuns(b)
  {
    var t := run + b;
    calc {
      ReplaceRuns(a + run + b);
      { ConcatAssoc(a, run, b); }
      ReplaceRuns(a + t);
      { ReplaceRunsSplit(a, t); }
      ReplaceRuns(a) + ReplaceRuns(t);
      { ReplaceRunsOfRun(run, b); }
      ReplaceRuns(a) + ("_" + ReplaceRuns(b));
      { ConcatAssoc(ReplaceRuns(a), "_", ReplaceRuns(b)); }
      ReplaceRuns(a) + "_" + ReplaceRuns(b);
    }
  }

  /** A string that starts with a run: the run becomes one underscore. */
  lemma ReplaceRunsOfRun(run: string, b: string)
    requires run != [] && forall k :: 0 <= k < |run| ==> !IsSlugChar(run[k])
    requires b == [] || IsSlugChar(b[0])
    ensures ReplaceRuns(run + b) == "_" + ReplaceRuns(b)
  {
    ConcatParts(run, b);
    DropRunOfRun(run, b);
  }

  /** The runs of a string that ends in a slug character are replaced apart from what follows. */
  lemma {:induction false} ReplaceRunsSplit(a: string, t: string)
    requires a == [] || IsSlugChar(a[|a| - 1])
    ensures ReplaceRuns(a + t) == ReplaceRuns(a) + ReplaceRuns(t)
    decreases |a|
  {
    if a == [] {
      ConcatParts(a, t);
    } else if IsSlugChar(a[0]) {
      ConcatParts(a, t);
      calc {
        ReplaceRuns(a + t);
        [a[0]] + ReplaceRuns(a[1..] + t);
        { ReplaceRunsSplit(a[1..], t); }
        [a[0]] + (ReplaceRuns(a[1..]) + ReplaceRuns(t));
        { ConcatAssoc([a[0]], ReplaceRuns(a[1..]), ReplaceRuns(t)); }
        ReplaceRuns(a) + ReplaceRuns(t);
      }
    } else {
      ConcatParts(a, t);
      var d := DropRun(a);
      assert d != [] && d[|d| - 1] == a[|a| - 1];
      calc {
        ReplaceRuns(a + t);
        "_" + ReplaceRuns(DropRun(a + t));
        { DropRunAppend(a, t); }
        "_" + ReplaceRuns(d + t);
        { ReplaceRunsSplit(d, t); }
        "_" + (ReplaceRuns(d) + ReplaceRuns(t));
        { ConcatAssoc("_", ReplaceRuns(d), ReplaceRuns(t)); }
        ReplaceRuns(a) + ReplaceRuns(t);
      }
    }
  }

  lemma {:induction false} DropRunAppend(a: string, t: string)
    requires a != [] && IsSlugChar(a[|a| - 1])
    ensures DropRun(a + t) == DropRun(a) + t
    decreases |a|
  {
    if !IsSlugChar(a[0]) {
      ConcatParts(a, t);
      DropRunAppend(a[1..], t);
    }
  }

  lemma {:induction false} DropRunOfRun(run: string, b: string)
    requires forall k :: 0 <= k < |run| ==> !IsSlugChar(run[k])
    requires b == [] || IsSlugChar(b[0])
    ensures DropRun(run + b) == b
    decreases |run|
  {
    if run == [] {
      ConcatParts(run, b);
    } else {
      ConcatParts(run, b);
      DropRunOfRun(run[1..], b);
    }
  }

  /** Two words of slug characters with a run between them: the slug joins them with one underscore. */
  lemma ReplaceRunsOfTwoWords(w1: string, gap: string, w2: string)
    requires w1 != [] && forall i :: 0 <= i < |w1| ==> IsSlugChar(w1[i])
    requires gap != [] && forall i :: 0 <= i < |gap| ==> !IsSlugChar(gap[i])
    requires forall i :: 0 <= i < |w2| ==> IsSlugChar(w2[i])
    ensures ReplaceRuns(w1 + gap + w2) == w1 + "_" + w2
  {
    ReplaceRunsCollapses(w1, gap, w2);
    ReplaceRunsOfWord(w1);
    ReplaceRunsOfWord(w2);
  }

  lemma ReplaceRunsOfWord(w: string)
    requires forall i :: 0 <= i < |w| ==> IsSlugChar(w[i])
    ensures ReplaceRuns(w) == w
  {
    SlugCharsAreSlug(w);
    ReplaceRunsOfSlug(w);
  }

  /** strip leaves a string that starts and ends with other characters than whitespace as it is. */
  lemma StripKeepsInner(s: string)
    requires s != [] && !IsStripSpace(s[0]) && !IsStripSpace(s[|s| - 1])
    ensures Strip(s) == s
  {
    assert LStrip(s) == s;
    assert RStrip(s) == s;
  }

  /** The block "Basic Latin" has the slug "basic_latin". */
  lemma NormalizedNameExample()
    ensures NormalizedName("Basic Latin") == "basic_latin"
  {
    PreparedExample();
    ReplacedExample();
  }

  lemma PreparedExample()
    ensures Downcase(Strip("Basic Latin")) == "basic" + " " + "latin"
  {
    StripKeepsInner("Basic Latin");
    DowncaseExample();
  }

  lemma ReplacedExample()
    ensures ReplaceRuns("basic" + " " + "latin") == "basic_latin"
  {
    WordsExample();
    ReplaceRunsOfTwoWords("basic", " ", "latin");
    JoinedExample();
  }

  lemma WordsExample()
    ensures "basic" != [] && forall i :: 0 <= i < |"basic"| ==> IsSlugChar("basic"[i])
    ensures " " != [] && forall i :: 0 <= i < |" "| ==> !IsSlugChar(" "[i])
    ensures forall i :: 0 <= i < |"latin"| ==> IsSlugChar("latin"[i])
  {
  }

  lemma JoinedExample()
    ensures "basic" + "_" + "latin" == "basic_latin"
  {
  }

  lemma DowncaseExample()
    ensures Downcase("Basic Latin") == "basic" + " " + "latin"
  {
    var d, e := Downcase("Basic Latin"), "basic" + " " + "latin";
    assert |d| == |e|;
    forall i | 0 <= i < |d| ensures d[i] == e[i] {
      assert d[i] == DowncaseChar("Basic Latin"[i]);
    }
  }

  /** A string made of slug characters and single underscores. */
  predicate IsSlug(s: string) {
    && (forall i :: 0 <= i < |s| ==> IsSlugChar(s[i]) || s[i] == '_')
    && (forall i :: 0 <= i < |s| - 1 ==> !(s[i] == '_' && s[i + 1] == '_'))
  }

  /** Replacing the runs of a slug changes nothing: each underscore is a run of its own. */
  lemma {:induction false} ReplaceRunsOfSlug(s: string)
    requires IsSlug(s)
    ensures ReplaceRuns(s) == s
    decreases |s|
  {
    if s != [] {
      SlugTail(s);
      ReplaceRunsOfSlug(s[1..]);
      if !IsSlugChar(s[0]) {
        assert DropRun(s) == s[1..] by {
          assert DropRun(s) == DropRun(s[1..]);
          if |s| > 1 {
            assert s[1] != '_' by {
              assert s[0] == '_';
            }
            assert IsSlugChar(s[1..][0]);
          }
        }
      }
    }
  }

  /** What follows the first character of a slug is a slug. */
  lemma SlugTail(s: string)
    requires IsSlug(s) && s != []
    ensures IsSlug(s[1..])
    ensures !IsSlugChar(s[0]) ==> s[0] == '_'
  {
    var t := s[1..];
    forall i | 0 <= i < |t| ensures IsSlugChar(t[i]) || t[i] == '_' {
      assert t[i] == s[i + 1];
    }
    forall i | 0 <= i < |t| - 1 ensures !(t[i] == '_' && t[i + 1] == '_') {
      assert t[i] == s[i + 1] && t[i + 1] == s[i + 2];
    }
  }

  /** normalized_name of a normalized name gives it back. */
  lemma NormalizedNameIdempotent(name: string)
    ensures NormalizedName(NormalizedName(name)) == NormalizedName(name)
  {
    var n := NormalizedName(name);
    SlugUnchanged(n);
    ReplaceRunsOfSlug(n);
  }

  /** strip and downcase leave a slug as it is. */
  lemma SlugUnchanged(n: string)
    requires IsSlug(n)
    ensures Downcase(Strip(n)) == n
  {
    StripSlug(n);
    DowncaseSlug(n);
  }

  lemma StripSlug(n: string)
    requires forall i :: 0 <= i < |n| ==> IsSlugChar(n[i]) || n[i] == '_'
    ensures Strip(n) == n
  {
    forall i | 0 <= i < |n| ensures !IsStripSpace(n[i]) {
      assert IsSlugChar(n[i]) || n[i] == '_';
    }
  }

  lemma DowncaseSlug(n: string)
    requires forall i :: 0 <= i < |n| ==> IsSlugChar(n[i]) || n[i] == '_'
    ensures Downcase(n) == n
  {
    forall i | 0 <= i < |n| ensures Downcase(n)[i] == n[i] {
      SlugCharLower(n[i]);
    }
  }

  lemma SlugCharLower(c: char)
    requires IsSlugChar(c) || c == '_'
    ensures DowncaseChar(c) == c
  {
  }

  /** The slug of a name already made of [a-z0-9] is the name itself. */
  lemma NormalizedNameOfSlugChars(name: string)
    requires forall i :: 0 <= i < |name| ==> IsSlugChar(name[i])
    ensures NormalizedName(name) == name
  {
    SlugCharsAreSlug(name);
    SlugUnchanged(name);
    ReplaceRunsOfSlug(name);
  }

  lemma SlugCharsAreSlug(name: string)
    requires forall i :: 0 <= i < |name| ==> IsSlugChar(name[i])
    ensures IsSlug(name)
  {
    forall i | 0 <= i < |name| - 1 ensures !(name[i] == '_' && name[i + 1] == '_') {
      assert IsSlugChar(name[i]);
    }
  }

  /** Surrounding whitespace never reaches the slug: " Basic Latin\n" and "Basic Latin" agree. */
  lemma NormalizedNameIgnoresPadding(pre: string, name: string, post: string)
    requires forall i :: 0 <= i < |pre| ==> IsStripSpace(pre[i])
    requires forall i :: 0 <= i < |post| ==> IsStripSpace(post[i])
    ensures NormalizedName(pre + name + post) == NormalizedName(name)
  {
    StripPadding(pre, name, post);
  }

  // ---------------------------------------------------------------- previous / next

  /** find_by(id:): the first block with that id, or nil. */
  function FindById(blocks: seq<BlockRecord>, id: int): (r: Option<BlockRecord>)
    ensures r.Some? ==> r.value in blocks && r.value.id == id
    ensures r.None? <==> forall k :: 0 <= k < |blocks| ==> blocks[k].id != id
    decreases |blocks|
  {
    if blocks == [] then None
    else if blocks[0].id == id then Some(blocks[0])
    else
      var r := FindById(blocks[1..], id);
      assert forall k :: 1 <= k < |blocks| ==> blocks[k] == blocks[1..][k - 1];
      r
  }

  /** previous(index = 1): the block whose id is index less. */
  function Previous(b: BlockRecord, blocks: seq<BlockRecord>, index: int := 1): (r: Option<BlockRecord>)
    ensures r.Some? ==> r.value in blocks && r.value.id == b.id - index
    ensures r.None? <==> forall k :: 0 <= k < |blocks| ==> blocks[k].id != b.id - index
  {
    FindById(blocks, b.id - index)
  }

  /** next(index = 1): the block whose id is index more. */
  function Next(b: BlockRecord, blocks: seq<BlockRecord>, index: int := 1): (r: Option<BlockRecord>)
    ensures r.Some? ==> r.value in blocks && r.value.id == b.id + index
    ensures r.None? <==> forall k :: 0 <= k < |blocks| ==> blocks[k].id != b.id + index
  {
    FindById(blocks, b.id + index)
  }

  /** With unique ids, the block with a given id is the one found. */
  lemma FindByIdUnique(blocks: seq<BlockRecord>, k: nat)
    requires k < |blocks| && UniqueIds(blocks)
    ensures FindById(blocks, blocks[k].id) == Some(blocks[k])
  {
    var r := FindById(blocks, blocks[k].id);
    var i :| 0 <= i < |blocks| && blocks[i] == r.value;
  }

  /** Going index blocks forward and then index blocks back returns to the starting block. */
  lemma NextThenPrevious(blocks: seq<BlockRecord>, k: nat, index: int)
    requires k < |blocks| && UniqueIds(blocks)
    requires Next(blocks[k], blocks, index).Some?
    ensures Previous(Next(blocks[k], blocks, index).value, blocks, index) == Some(blocks[k])
  {
    FindByIdUnique(blocks, k);
  }

  /** And the other way round. */
  lemma PreviousThenNext(blocks: seq<BlockRecord>, k: nat, index: int)
    requires k < |blocks| && UniqueIds(blocks)
    requires Previous(blocks[k], blocks, index).Some?
    ensures Next(Previous(blocks[k], blocks, index).value, blocks, index) == Some(blocks[k])
  {
    FindByIdUnique(blocks, k);
  }

  /** previous(k) is next(-k): the two differ only in the sign of the offset. */
  lemma PreviousIsNegatedNext(b: BlockRecord, blocks: seq<BlockRecord>, index: int)
    ensures Previous(b, blocks, index) == Next(b, blocks, -index)
  {
  }
}
