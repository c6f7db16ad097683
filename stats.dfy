/**
  `Stats` (icd_tokenize/stats.py): the records of one input file under a
  name, and the counts reported about them — how many records, how many
  of them are correct, and how many categories with `?` they hold in all.
  `Stats.sum` pools several files into one.
*/
module Statistics {
  import opened Records

  /** A named list of records. */
  datatype Stats = Stats(name: string, records: seq<Record>)

  /** `total`: the number of records. */
  function Total(s: Stats): (n: nat)
    ensures n == |s.records|
  {
    |s.records|
  }

  /** The number of records of `rs` that are correct. */
  function CorrectCount(rs: seq<Record>): (n: nat)
    reads set r | r in rs
    ensures n <= |rs|
    ensures n == |rs| <==> forall j :: 0 <= j < |rs| ==> rs[j].IsCorrect()
    ensures n == 0 <==> forall j :: 0 <= j < |rs| ==> !rs[j].IsCorrect()
    decreases |rs|
  {
    if rs == [] then 0
    else
      var rest := rs[1..];
      assert forall j :: 1 <= j < |rs| ==> rs[j] == rest[j - 1];
      (if rs[0].IsCorrect() then 1 else 0) + CorrectCount(rest)
  }

  /** `correct`: how many `is_correct` values are `True`. */
  function Correct(s: Stats): (n: nat)
    reads set r | r in s.records
    ensures n <= Total(s)
  {
    CorrectCount(s.records)
  }

  /** The `dirty` counts of the records of `rs`, added up. */
  function DirtySum(rs: seq<Record>): (n: nat)
    reads set r | r in rs
    ensures n <= 5 * |rs|
    ensures n == 0 <==> forall j :: 0 <= j < |rs| ==> rs[j].DirtyCount() == 0
    decreases |rs|
  {
    if rs == [] then 0
    else
      var rest := rs[1..];
      assert forall j :: 1 <= j < |rs| ==> rs[j] == rest[j - 1];
      rs[0].DirtyCount() + DirtySum(rest)
  }

  /** `dirty`: the sum of the records' `dirty` counts, at most five per record. */
  function Dirty(s: Stats): (n: nat)
    reads set r | r in s.records
    ensures n <= 5 * Total(s)
  {
    DirtySum(s.records)
  }

  /** One record contributes exactly its own `dirty` count. */
  lemma DirtySumSingle(r: Record)
    ensures DirtySum([r]) == r.DirtyCount()
  {
    assert [r][1..] == [];
  }

  /** The records of all the stats, file after file. */
  function AllRecords(stats: seq<Stats>): (rs: seq<Record>)
    ensures |rs| == TotalOf(stats)
    ensures forall k, j :: 0 <= k < |stats| && 0 <= j < |stats[k].records| ==> stats[k].records[j] in rs
    ensures forall i :: 0 <= i < |rs| ==> exists k :: 0 <= k < |stats| && rs[i] in stats[k].records
    decreases |stats|
  {
    if stats == [] then []
    else
      var first, rest := stats[0].records, AllRecords(stats[1..]);
      assert forall k :: 1 <= k < |stats| ==> stats[k] == stats[1..][k - 1];
      assert forall i :: |first| <= i < |first| + |rest| ==> (first + rest)[i] == rest[i - |first|];
      first + rest
  }

  /** Pooling one file gives its records as they are. */
  lemma AllRecordsSingle(s: Stats)
    ensures AllRecords([s]) == s.records
  {
    assert [s][1..] == [];
  }

  /** Pooling respects concatenation: the records of `a` come first, in their order, then those of `b`. */
  lemma {:induction false} AllRecordsAppend(a: seq<Stats>, b: seq<Stats>)
    ensures AllRecords(a + b) == AllRecords(a) + AllRecords(b)
    decreases |a|
  {
    if a == [] {
      assert a + b == b;
    } else {
      assert (a + b)[0] == a[0] && (a + b)[1..] == a[1..] + b;
      AllRecordsAppend(a[1..], b);
    }
  }

  /** `Stats.sum`: one `Stats` under `name` holding every record of `stats` in order. */
  function Sum(stats: seq<Stats>, name: string := "total"): (r: Stats)
    ensures r.name == name
    ensures Total(r) == TotalOf(stats)
  {
    Stats(name, AllRecords(stats))
  }

  /** The totals of `stats`, added up. */
  function TotalOf(stats: seq<Stats>): nat
    decreases |stats|
  {
    if stats == [] then 0 else Total(stats[0]) + TotalOf(stats[1..])
  }

  /** Every record read by any of `stats`. */
  ghost function Footprint(stats: seq<Stats>): set<Record> {
    set s, r | s in stats && r in s.records :: r
  }

  /** The correct counts of `stats`, added up. */
  function CorrectOf(stats: seq<Stats>): nat
    reads Footprint(stats)
    decreases |stats|
  {
    if stats == [] then 0 else Correct(stats[0]) + CorrectOf(stats[1..])
  }

  /** The dirty counts of `stats`, added up. */
  function DirtyOf(stats: seq<Stats>): nat
    reads Footprint(stats)
    decreases |stats|
  {
    if stats == [] then 0 else Dirty(stats[0]) + DirtyOf(stats[1..])
  }

  /** Counting correct records is additive over concatenation. */
  lemma {:induction false} CorrectAppend(a: seq<Record>, b: seq<Record>)
    ensures CorrectCount(a + b) == CorrectCount(a) + CorrectCount(b)
    decreases |a|
  {
    if a != [] {
      assert (a + b)[0] == a[0] && (a + b)[1..] == a[1..] + b;
      assert CorrectCount(a + b) == (if a[0].IsCorrect() then 1 else 0) + CorrectCount(a[1..] + b);
      CorrectAppend(a[1..], b);
    } else {
      assert a + b == b;
    }
  }

  /** Adding up dirty counts is additive over concatenation. */
  lemma {:induction false} DirtyAppend(a: seq<Record>, b: seq<Record>)
    ensures DirtySum(a + b) == DirtySum(a) + DirtySum(b)
    decreases |a|
  {
    if a != [] {
      assert (a + b)[0] == a[0] && (a + b)[1..] == a[1..] + b;
      assert DirtySum(a + b) == a[0].DirtyCount() + DirtySum(a[1..] + b);
      DirtyAppend(a[1..], b);
    } else {
      assert a + b == b;
    }
  }

  /** The pooled correct count is the sum of the files' correct counts. */
  lemma {:induction false} SumCorrect(stats: seq<Stats>, name: string)
    ensures Correct(Sum(stats, name)) == CorrectOf(stats)
    decreases |stats|
  {
    if stats != [] {
      SumCorrect(stats[1..], name);
      CorrectAppend(stats[0].records, AllRecords(stats[1..]));
    }
  }

  /** The pooled dirty count is the sum of the files' dirty counts. */
  lemma {:induction false} SumDirty(stats: seq<Stats>, name: string)
    ensures Dirty(Sum(stats, name)) == DirtyOf(stats)
    decreases |stats|
  {
    if stats != [] {
      SumDirty(stats[1..], name);
      DirtyAppend(stats[0].records, AllRecords(stats[1..]));
    }
  }
}
