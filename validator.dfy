/**
  `ICDValidator` (icd_tokenize/validator.py): decides whether predicted
  diagnoses agree with target ones.  Both lists are cut into chunks of four
  (one chunk per category), each chunk is sorted, and the entries are
  compared position by position; `zip` stops at the shorter list of chunks
  and at the shorter chunk.  Two entries agree when they are equal after
  upper-casing or when both upper-cased entries occur in one synonym line.
*/
module Validator {
  import opened Text
  import opened Sorting

  // ---------------------------------------------------------------------
  // _icd_compare (icd_tokenize/validator.py:20-27)
  // ---------------------------------------------------------------------

  /** The `for synonym in self.synonyms_list` search: some line holds both `a` and `b`. */
  predicate SharedLine(lines: seq<seq<string>>, a: string, b: string)
    decreases |lines|
  {
    lines != [] && ((a in lines[0] && b in lines[0]) || SharedLine(lines[1..], a, b))
  }

  /** The search succeeds exactly when some line holds both. */
  lemma {:induction false} SharedLineMeaning(lines: seq<seq<string>>, a: string, b: string)
    ensures SharedLine(lines, a, b) <==> exists i :: 0 <= i < |lines| && a in lines[i] && b in lines[i]
    decreases |lines|
  {
    if lines != [] {
      SharedLineMeaning(lines[1..], a, b);
      if exists i :: 0 <= i < |lines| && a in lines[i] && b in lines[i] {
        var i :| 0 <= i < |lines| && a in lines[i] && b in lines[i];
        if i > 0 {
          assert lines[1..][i - 1] == lines[i];
        }
      }
      if SharedLine(lines[1..], a, b) {
        var i :| 0 <= i < |lines[1..]| && a in lines[1..][i] && b in lines[1..][i];
        assert lines[i + 1] == lines[1..][i];
      }
    }
  }

  /**
    `_icd_compare(str1, str2)` against the synonym lines `lines`: two entries
    agree iff they are equal up to case or both occur, upper-cased, in one
    synonym line.
  */
  predicate Compare(lines: seq<seq<string>>, str1: string, str2: string)
    ensures Compare(lines, str1, str2) <==>
      Upper(str1) == Upper(str2) ||
      exists i :: 0 <= i < |lines| && Upper(str1) in lines[i] && Upper(str2) in lines[i]
  {
    var a, b := Upper(str1), Upper(str2);
    SharedLineMeaning(lines, a, b);
    a == b || SharedLine(lines, a, b)
  }

  /** Every entry agrees with itself. */
  lemma CompareReflexive(lines: seq<seq<string>>, s: string)
    ensures Compare(lines, s, s)
  {
  }

  /** Agreement does not depend on the order of the two entries. */
  lemma CompareSymmetric(lines: seq<seq<string>>, str1: string, str2: string)
    ensures Compare(lines, str1, str2) == Compare(lines, str2, str1)
  {
    SharedLineMeaning(lines, Upper(str1), Upper(str2));
    SharedLineMeaning(lines, Upper(str2), Upper(str1));
  }

  /**
    The synonym entries are not upper-cased: an entry holding a lower-case
    letter is never the upper-cased form of anything, so it never matches.
  */
  lemma LowerEntryNeverMatches(str1: string, entry: string, i: int)
    requires 0 <= i < |entry| && IsLowerAscii(entry[i])
    ensures Upper(str1) != entry
  {
    assert entry[i] in entry;
  }

  // ---------------------------------------------------------------------
  // icd_validate (icd_tokenize/validator.py:9-18)
  // ---------------------------------------------------------------------

  function Min(a: int, b: int): int {
    if a <= b then a else b
  }

  /** `[xs[i : i + 4] for i in range(0, len(xs), 4)]`. */
  function Chunks(xs: seq<string>): (r: seq<seq<string>>)
    ensures |r| == (|xs| + 3) / 4
    ensures forall k :: 0 <= k < |r| ==> 4 * k < |xs| && r[k] == xs[4 * k..Min(4 * k + 4, |xs|)]
    decreases |xs|
  {
    if xs == [] then []
    else
      var n := Min(4, |xs|);
      var rest := Chunks(xs[n..]);
      ChunksCons(xs, rest);
      [xs[..n]] + rest
  }

  /** The first chunk in front of the chunks of the rest are the chunks of the whole list. */
  lemma ChunksCons(xs: seq<string>, rest: seq<seq<string>>)
    requires xs != []
    requires |rest| == (|xs| - Min(4, |xs|) + 3) / 4
    requires forall k :: 0 <= k < |rest| ==>
      4 * k < |xs| - Min(4, |xs|) && rest[k] == xs[Min(4, |xs|)..][4 * k..Min(4 * k + 4, |xs| - Min(4, |xs|))]
    ensures |[xs[..Min(4, |xs|)]] + rest| == (|xs| + 3) / 4
    ensures forall k :: 0 <= k < |rest| + 1 ==>
      4 * k < |xs| && ([xs[..Min(4, |xs|)]] + rest)[k] == xs[4 * k..Min(4 * k + 4, |xs|)]
  {
    var n := Min(4, |xs|);
    var r := [xs[..n]] + rest;
    if |xs| <= 4 {
      assert rest == [];
    } else {
      forall k | 1 <= k < |r| ensures 4 * k < |xs| && r[k] == xs[4 * k..Min(4 * k + 4, |xs|)] {
        var lo, hi := 4 * (k - 1), Min(4 * (k - 1) + 4, |xs| - 4);
        assert r[k] == rest[k - 1] == xs[4..][lo..hi];
        SliceOfSlice(xs, 4, lo, hi);
        assert 4 + lo == 4 * k && 4 + hi == Min(4 * k + 4, |xs|);
      }
    }
  }

  /** A slice of a suffix is a slice of the whole. */
  lemma SliceOfSlice(s: seq<string>, a: nat, lo: nat, hi: nat)
    requires a <= |s| && lo <= hi <= |s| - a
    ensures s[a..][lo..hi] == s[a + lo..a + hi]
  {
  }

  /** The chunks laid end to end. */
  function Flatten(cs: seq<seq<string>>): seq<string>
    decreases |cs|
  {
    if cs == [] then [] else cs[0] + Flatten(cs[1..])
  }

  /** Chunking loses nothing: the chunks laid end to end give the list back. */
  lemma {:induction false} FlattenChunks(xs: seq<string>)
    ensures Flatten(Chunks(xs)) == xs
    decreases |xs|
  {
    if xs != [] {
      var n := Min(4, |xs|);
      FlattenChunks(xs[n..]);
      assert Chunks(xs)[1..] == Chunks(xs[n..]);
      assert xs == xs[..n] + xs[n..];
    }
  }

  /** `for str1, str2 in zip(pred, trgt)`: every pair up to the shorter chunk agrees. */
  predicate PairsMatch(lines: seq<seq<string>>, pred: seq<string>, trgt: seq<string>)
    decreases |pred|
  {
    pred == [] || trgt == [] ||
    (Compare(lines, pred[0], trgt[0]) && PairsMatch(lines, pred[1..], trgt[1..]))
  }

  /** `for pred, trgt in zip(predict, target)`: every pair of chunks, sorted, matches. */
  predicate ChunksMatch(lines: seq<seq<string>>, ps: seq<seq<string>>, ts: seq<seq<string>>)
    decreases |ps|
  {
    ps == [] || ts == [] ||
    (PairsMatch(lines, Sort(ps[0]), Sort(ts[0])) && ChunksMatch(lines, ps[1..], ts[1..]))
  }

  /** Positionwise agreement as a quantifier. */
  lemma {:induction false} PairsMatchMeaning(lines: seq<seq<string>>, pred: seq<string>, trgt: seq<string>)
    ensures PairsMatch(lines, pred, trgt) <==>
      forall i :: 0 <= i < Min(|pred|, |trgt|) ==> Compare(lines, pred[i], trgt[i])
    decreases |pred|
  {
    if pred != [] && trgt != [] {
      PairsMatchMeaning(lines, pred[1..], trgt[1..]);
      if forall i :: 0 <= i < Min(|pred|, |trgt|) ==> Compare(lines, pred[i], trgt[i]) {
        forall i | 0 <= i < Min(|pred| - 1, |trgt| - 1)
          ensures Compare(lines, pred[1..][i], trgt[1..][i])
        {
          assert pred[1..][i] == pred[i + 1] && trgt[1..][i] == trgt[i + 1];
        }
      }
      if PairsMatch(lines, pred, trgt) {
        forall i | 0 <= i < Min(|pred|, |trgt|) ensures Compare(lines, pred[i], trgt[i]) {
          if i > 0 {
            assert pred[1..][i - 1] == pred[i] && trgt[1..][i - 1] == trgt[i];
          }
        }
      }
    }
  }

  /** Chunkwise agreement as a quantifier over chunk and position. */
  lemma {:induction false} ChunksMatchMeaning(lines: seq<seq<string>>, ps: seq<seq<string>>, ts: seq<seq<string>>)
    ensures ChunksMatch(lines, ps, ts) <==>
      forall k :: 0 <= k < Min(|ps|, |ts|) ==> PairsMatch(lines, Sort(ps[k]), Sort(ts[k]))
    decreases |ps|
  {
    if ps != [] && ts != [] {
      ChunksMatchMeaning(lines, ps[1..], ts[1..]);
      if forall k :: 0 <= k < Min(|ps|, |ts|) ==> PairsMatch(lines, Sort(ps[k]), Sort(ts[k])) {
        forall k | 0 <= k < Min(|ps| - 1, |ts| - 1)
          ensures PairsMatch(lines, Sort(ps[1..][k]), Sort(ts[1..][k]))
        {
          assert ps[1..][k] == ps[k + 1] && ts[1..][k] == ts[k + 1];
        }
      }
      if ChunksMatch(lines, ps, ts) {
        forall k | 0 <= k < Min(|ps|, |ts|) ensures PairsMatch(lines, Sort(ps[k]), Sort(ts[k])) {
          if k > 0 {
            assert ps[1..][k - 1] == ps[k] && ts[1..][k - 1] == ts[k];
          }
        }
      }
    }
  }

  lemma {:induction false} PairsMatchSymmetric(lines: seq<seq<string>>, pred: seq<string>, trgt: seq<string>)
    ensures PairsMatch(lines, pred, trgt) == PairsMatch(lines, trgt, pred)
    decreases |pred|
  {
    if pred != [] && trgt != [] {
      CompareSymmetric(lines, pred[0], trgt[0]);
      PairsMatchSymmetric(lines, pred[1..], trgt[1..]);
    }
  }

  lemma {:induction false} PairsMatchReflexive(lines: seq<seq<string>>, xs: seq<string>)
    ensures PairsMatch(lines, xs, xs)
    decreases |xs|
  {
    if xs != [] {
      CompareReflexive(lines, xs[0]);
      PairsMatchReflexive(lines, xs[1..]);
    }
  }

  lemma {:induction false} ChunksMatchSymmetric(lines: seq<seq<string>>, ps: seq<seq<string>>, ts: seq<seq<string>>)
    ensures ChunksMatch(lines, ps, ts) == ChunksMatch(lines, ts, ps)
    decreases |ps|
  {
    if ps != [] && ts != [] {
      PairsMatchSymmetric(lines, Sort(ps[0]), Sort(ts[0]));
      ChunksMatchSymmetric(lines, ps[1..], ts[1..]);
    }
  }

  lemma {:induction false} ChunksMatchReflexive(lines: seq<seq<string>>, ps: seq<seq<string>>)
    ensures ChunksMatch(lines, ps, ps)
    decreases |ps|
  {
    if ps != [] {
      PairsMatchReflexive(lines, Sort(ps[0]));
      ChunksMatchReflexive(lines, ps[1..]);
    }
  }

  /** Chunk lists that sort to the same chunks match the same targets. */
  lemma {:induction false} ChunksMatchSorted(lines: seq<seq<string>>, ps: seq<seq<string>>, qs: seq<seq<string>>, ts: seq<seq<string>>)
    requires |ps| == |qs| && forall k :: 0 <= k < |ps| ==> Sort(ps[k]) == Sort(qs[k])
    ensures ChunksMatch(lines, ps, ts) == ChunksMatch(lines, qs, ts)
    decreases |ps|
  {
    if ps != [] && ts != [] {
      assert Sort(ps[0]) == Sort(qs[0]);
      ChunksMatchSorted(lines, ps[1..], qs[1..], ts[1..]);
    }
  }

  /** The validator: its synonym lines are read once, at construction. */
  class IcdValidator {
    const synonymsList: seq<seq<string>>

    /**
      Reads the synonym file, given here as its lines: each line loses its
      newlines and is split on commas.
    */
    constructor(lines: seq<string>)
      ensures |synonymsList| == |lines|
      ensures forall i :: 0 <= i < |lines| ==> synonymsList[i] == ParseLine(lines[i])
    {
      var parsed: seq<seq<string>> := [];
      for i := 0 to |lines|
        invariant |parsed| == i
        invariant forall j :: 0 <= j < i ==> parsed[j] == ParseLine(lines[j])
      {
        parsed := parsed + [ParseLine(lines[i])];
      }
      synonymsList := parsed;
    }

    /**
      `icd_validate(predict, target)`: it fails exactly when, in some pair of
      chunks, some pair of entries at the same position of the sorted chunks
      does not agree.
    */
    predicate IcdValidate(predict: seq<string>, target: seq<string>)
      ensures IcdValidate(predict, target) <==> SortedPositionsAgree(synonymsList, Chunks(predict), Chunks(target))
    {
      MatchAllPositions(synonymsList, Chunks(predict), Chunks(target));
      ChunksMatch(synonymsList, Chunks(predict), Chunks(target))
    }
  }

  /** `line.replace("\n", "").split(",")`. */
  function ParseLine(line: string): (r: seq<string>)
    ensures |r| >= 1
    ensures forall i :: 0 <= i < |r| ==> ',' !in r[i] && '\n' !in r[i]
    ensures Join(r, ',') == DeleteChar(line, '\n')
  {
    var r := Split(DeleteChar(line, '\n'), ',');
    forall i | 0 <= i < |r| ensures '\n' !in r[i] {
      JoinPartsWithin(r, ',', i);
    }
    r
  }

  /** Each part occurs within the joined text, so it holds no character the text lacks. */
  lemma {:induction false} JoinPartsWithin(parts: seq<string>, sep: char, i: int)
    requires 0 <= i < |parts|
    ensures forall c :: c in parts[i] ==> c in Join(parts, sep)
    decreases |parts|
  {
    if |parts| > 1 && i < |parts| - 1 {
      JoinPartsWithin(parts[..|parts| - 1], sep, i);
    }
  }

  /** In every pair of chunks, the entries at each position of the sorted chunks agree. */
  predicate SortedPositionsAgree(lines: seq<seq<string>>, ps: seq<seq<string>>, ts: seq<seq<string>>) {
    forall k, i :: 0 <= k < Min(|ps|, |ts|) && 0 <= i < Min(|ps[k]|, |ts[k]|) ==>
      Compare(lines, Sort(ps[k])[i], Sort(ts[k])[i])
  }

  /** Chunkwise agreement as a quantifier over chunk and position. */
  lemma MatchAllPositions(lines: seq<seq<string>>, ps: seq<seq<string>>, ts: seq<seq<string>>)
    ensures ChunksMatch(lines, ps, ts) <==> SortedPositionsAgree(lines, ps, ts)
  {
    ChunksMatchMeaning(lines, ps, ts);
    forall k | 0 <= k < Min(|ps|, |ts|) {
      PairsMatchMeaning(lines, Sort(ps[k]), Sort(ts[k]));
    }
  }

  /** An empty prediction validates against any target: `zip` yields nothing. */
  lemma EmptyPredictionPasses(v: IcdValidator, target: seq<string>)
    ensures v.IcdValidate([], target)
  {
  }

  /** Any list validates against itself. */
  lemma ValidateReflexive(v: IcdValidator, xs: seq<string>)
    ensures v.IcdValidate(xs, xs)
  {
    ChunksMatchReflexive(v.synonymsList, Chunks(xs));
  }

  /** Swapping prediction and target does not change the verdict. */
  lemma ValidateSymmetric(v: IcdValidator, a: seq<string>, b: seq<string>)
    ensures v.IcdValidate(a, b) == v.IcdValidate(b, a)
  {
    ChunksMatchSymmetric(v.synonymsList, Chunks(a), Chunks(b));
  }

  /**
    Reordering the entries within chunks does not change the verdict: each
    chunk is sorted before it is compared.
  */
  lemma ValidatePermutedChunks(v: IcdValidator, p: seq<string>, q: seq<string>, target: seq<string>)
    requires |p| == |q|
    requires forall k :: 0 <= k < |Chunks(p)| ==> multiset(Chunks(p)[k]) == multiset(Chunks(q)[k])
    ensures v.IcdValidate(p, target) == v.IcdValidate(q, target)
  {
    var ps, qs := Chunks(p), Chunks(q);
    forall k | 0 <= k < |ps| ensures Sort(ps[k]) == Sort(qs[k]) {
      SortPermutation(ps[k], qs[k]);
    }
    ChunksMatchSorted(v.synonymsList, ps, qs, Chunks(target));
  }
}
