/**
 * Buffered bulk writes, as the importer and the seeding script both do them: records
 * are appended to a buffer that is written out whenever it reaches the batch size,
 * and once more at the end if anything is left. Chunks is the reference definition of
 * the sequence of writes such a loop issues.
 */
module Batching {
  import opened Sequences

  /** The records of a sequence of writes, concatenated in order. */
  function Flatten<T>(log: seq<seq<T>>): seq<T>
    decreases |log|
  {
    if log == [] then [] else log[0] + Flatten(log[1..])
  }

  /** Splits s into writes of exactly `size` records each, but the last, which holds the rest. */
  function Chunks<T>(s: seq<T>, size: nat): (log: seq<seq<T>>)
    requires size >= 1
    ensures log == [] <==> s == []
    decreases |s|
  {
    if s == [] then []
    else if |s| <= size then [s]
    else [s[..size]] + Chunks(s[size..], size)
  }

  /** The writes of Chunks hold s in order; each holds 1 to `size` records, and all but the last exactly `size`. */
  lemma {:induction false} ChunksSpec<T>(s: seq<T>, size: nat)
    requires size >= 1
    ensures Flatten(Chunks(s, size)) == s
    ensures IsChunking(Chunks(s, size), size)
    decreases |s|
  {
    if |s| > size {
      var rest := Chunks(s[size..], size);
      ChunksSpec(s[size..], size);
      var log := [s[..size]] + rest;
      assert log[1..] == rest;
      assert s == s[..size] + s[size..];
    } else if s != [] {
      FlattenSingleton(s);
    }
  }

  /** Writing size * k + rest records, 0 < rest <= size, takes k full writes and one of `rest` records. */
  lemma {:induction false} ChunksCount<T>(s: seq<T>, size: nat, k: nat, rest: nat)
    requires size >= 1 && 0 < rest <= size && |s| == size * k + rest
    ensures |Chunks(s, size)| == k + 1
    ensures |Chunks(s, size)[k]| == rest
    decreases k
  {
    if k == 0 {
      assert |s| == rest;
      assert Chunks(s, size) == [s];
    } else {
      MulStep(size, k);
      var tail := s[size..];
      assert |tail| == size * (k - 1) + rest;
      ChunksCount(tail, size, k - 1, rest);
      var log := Chunks(s, size);
      assert log == [s[..size]] + Chunks(tail, size);
      assert log[k] == Chunks(tail, size)[k - 1];
    }
  }

  lemma MulStep(a: nat, k: nat)
    requires k > 0
    ensures a * k == a * (k - 1) + a
  {
  }

  /**
   * Appending one more write of at most `size` records to records that filled k writes
   * exactly adds that write to the chunking.
   */
  lemma {:induction false} ChunksSnoc<T>(s: seq<T>, b: seq<T>, size: nat, k: nat)
    requires size >= 1 && |s| == size * k && 0 < |b| <= size
    ensures Chunks(s + b, size) == Chunks(s, size) + [b]
    decreases k
  {
    if k == 0 {
      assert s + b == b;
    } else {
      MulStep(size, k);
      var tail := s[size..];
      assert (s + b)[..size] == s[..size];
      assert (s + b)[size..] == tail + b;
      if k == 1 {
        assert tail == [];
        assert Chunks(tail + b, size) == [b];
      } else {
        ChunksSnoc(tail, b, size, k - 1);
      }
    }
  }

  /** A write log whose entries are all full but the last, which is non-empty, is the chunking of its records. */
  predicate IsChunking<T>(log: seq<seq<T>>, size: nat) {
    && (forall k :: 0 <= k < |log| ==> 0 < |log[k]| <= size)
    && (forall k :: 0 <= k < |log| - 1 ==> |log[k]| == size)
  }

  lemma {:induction false} FlattenAppend<T>(a: seq<seq<T>>, b: seq<seq<T>>)
    ensures Flatten(a + b) == Flatten(a) + Flatten(b)
    decreases |a|
  {
    if a != [] {
      assert (a + b)[1..] == a[1..] + b;
      FlattenAppend(a[1..], b);
    } else {
      assert a + b == b;
    }
  }

  /** Every loop that writes full batches and then the non-empty rest writes exactly Chunks. */
  lemma {:induction false} ChunksUnique<T>(log: seq<seq<T>>, size: nat)
    requires size >= 1 && IsChunking(log, size)
    ensures log == Chunks(Flatten(log), size)
    decreases |log|
  {
    if log != [] {
      var s := Flatten(log);
      ChunksUnique(log[1..], size);
      if |log| == 1 {
        assert log[1..] == [];
        assert s == log[0];
      } else {
        assert Flatten(log[1..]) != [] by {
          FlattenNonEmpty(log[1..]);
        }
        assert s[..size] == log[0] && s[size..] == Flatten(log[1..]);
      }
    }
  }

  lemma {:induction false} FlattenNonEmpty<T>(log: seq<seq<T>>)
    requires log != [] && log[0] != []
    ensures Flatten(log) != []
  {
  }

  /** The writes since position i0 of a log that grows by `added`. */
  lemma WriteStep<T>(log: seq<seq<T>>, i0: nat, added: seq<seq<T>>)
    requires i0 <= |log|
    ensures (log + added)[i0..] == log[i0..] + added
    ensures Flatten((log + added)[i0..]) == Flatten(log[i0..]) + Flatten(added)
  {
    assert (log + added)[i0..] == log[i0..] + added;
    FlattenAppend(log[i0..], added);
  }

  /** The writes since position i0 after a final write of `last`, which is skipped when empty. */
  lemma LastFlush<T>(log: seq<seq<T>>, i0: nat, last: seq<T>)
    requires i0 <= |log|
    ensures var log' := log + (if last != [] then [last] else []);
      Flatten(log'[i0..]) == Flatten(log[i0..]) + last
  {
    var added := if last != [] then [last] else [];
    WriteStep(log, i0, added);
    if last != [] {
      FlattenSingleton(last);
    }
  }

  /** Full writes since i0, then a final write of the rest below `size`: the writes since i0 are the chunking of their records. */
  lemma LastFlushChunks<T>(log: seq<seq<T>>, i0: nat, last: seq<T>, size: nat)
    requires i0 <= |log| && size >= 1 && |last| < size
    requires forall k :: i0 <= k < |log| ==> |log[k]| == size
    ensures var log' := log + (if last != [] then [last] else []);
      log'[i0..] == Chunks(Flatten(log'[i0..]), size)
  {
    var added := if last != [] then [last] else [];
    WriteStep(log, i0, added);
    ChunksUnique((log + added)[i0..], size);
  }

  lemma FlattenSingleton<T>(b: seq<T>)
    ensures Flatten([b]) == b
  {
    assert [b][1..] == [];
  }

  /** The records written so far, after one more write. */
  lemma FlattenSnoc<T>(log: seq<seq<T>>, b: seq<T>)
    ensures Flatten(log + [b]) == Flatten(log) + b
  {
    FlattenAppend(log, [b]);
    assert Flatten([b]) == b + Flatten([b][1..]);
    assert [b][1..] == [];
  }

  /** Full writes hold `size` records each. */
  lemma {:induction false} FlattenFullLength<T>(log: seq<seq<T>>, size: nat)
    requires forall k :: 0 <= k < |log| ==> |log[k]| == size
    ensures |Flatten(log)| == size * |log|
    decreases |log|
  {
    if log != [] {
      FlattenFullLength(log[1..], size);
      MulStep(size, |log|);
    }
  }

  /** Records that fill m writes exactly, taken from the front of p, are written as the first m writes of p. */
  lemma {:induction false} ChunksOfPrefix<T>(q: seq<T>, p: seq<T>, size: nat, m: nat)
    requires size >= 1 && |q| == size * m && q <= p
    ensures Chunks(q, size) <= Chunks(p, size)
    decreases m
  {
    if m > 0 {
      MulStep(size, m);
      if |p| <= size {
        assert q == p;
      } else if |q| == size {
        assert q == p[..size];
        assert Chunks(q, size) == [p[..size]];
      } else {
        var q', p' := q[size..], p[size..];
        assert q[..size] == p[..size];
        assert q' <= p';
        ChunksOfPrefix(q', p', size, m - 1);
        PrefixConcat([p[..size]], Chunks(q', size), Chunks(p', size));
      }
    }
  }

  /**
   * A loop that wrote full batches and then failed on the buffer b, full or the final
   * rest of p, had written the first writes of Chunks(p): its log followed by b is a
   * prefix of Chunks(p).
   */
  lemma StoppedPrefix<T>(log: seq<seq<T>>, b: seq<T>, p: seq<T>, size: nat)
    requires size >= 1 && forall k :: 0 <= k < |log| ==> |log[k]| == size
    requires 0 < |b| <= size && Flatten(log) + b <= p
    requires |b| == size || Flatten(log) + b == p
    ensures log + [b] <= Chunks(p, size)
  {
    var q := Flatten(log) + b;
    FlattenSnoc(log, b);
    ChunksUnique(log + [b], size);
    if q != p {
      FlattenFullLength(log, size);
      MulStep(size, |log| + 1);
      ChunksOfPrefix(q, p, size, |log| + 1);
    }
  }
}
