/**
  The older `ICDValidator` (validator.py).  It looks only at the entries at
  positions 0, 4, 8, ... of both lists, pairs them up to the shorter list,
  and checks every character of a predicted entry: each must agree, by
  `_icd_compare` on one-character strings, with some character of the
  paired target entry.  Its synonym lines keep their trailing newline.
*/
module LegacyValidator {
  import opened Text
  import Validator

  /** `xs[::4]`. */
  function EveryFourth(xs: seq<string>): (r: seq<string>)
    ensures |r| == (|xs| + 3) / 4
    ensures forall k :: 0 <= k < |r| ==> 4 * k < |xs| && r[k] == xs[4 * k]
    decreases |xs|
  {
    if xs == [] then []
    else
      var rest := EveryFourth(if |xs| <= 4 then [] else xs[4..]);
      var r := [xs[0]] + rest;
      assert forall k :: 1 <= k < |r| ==> r[k] == rest[k - 1];
      r
  }

  /** Some character of `trgt` agrees with the character `c`. */
  predicate CharFound(lines: seq<seq<string>>, c: char, trgt: string) {
    exists j :: 0 <= j < |trgt| && Validator.Compare(lines, [c], [trgt[j]])
  }

  /** Every character of `pred` agrees with some character of `trgt`. */
  predicate EntryCovered(lines: seq<seq<string>>, pred: string, trgt: string) {
    forall i :: 0 <= i < |pred| ==> CharFound(lines, pred[i], trgt)
  }

  /** What `icd_validate` decides. */
  predicate LegacyValid(lines: seq<seq<string>>, predict: seq<string>, target: seq<string>)
    ensures LegacyValid(lines, predict, target) <==>
      forall k :: 0 <= k && 4 * k < |predict| && 4 * k < |target| ==> EntryCovered(lines, predict[4 * k], target[4 * k])
  {
    var ps, ts := EveryFourth(predict), EveryFourth(target);
    assert forall k :: 0 <= k && 4 * k < |predict| ==> k < |ps| by {
      forall k | 0 <= k && 4 * k < |predict| ensures k < |ps| {
        FourthBound(k, |predict|);
      }
    }
    assert forall k :: 0 <= k && 4 * k < |target| ==> k < |ts| by {
      forall k | 0 <= k && 4 * k < |target| ensures k < |ts| {
        FourthBound(k, |target|);
      }
    }
    AllCovered(lines, ps, ts)
  }

  /** Position `4 * k` lies inside a list of `n` entries exactly when `k` lies inside its every-fourth slice. */
  lemma FourthBound(k: nat, n: nat)
    ensures 4 * k < n <==> k < (n + 3) / 4
  {
  }

  /** `zip(ps, ts)`: every pair of entries up to the shorter list is covered. */
  predicate AllCovered(lines: seq<seq<string>>, ps: seq<string>, ts: seq<string>) {
    forall k :: 0 <= k < |ps| && k < |ts| ==> EntryCovered(lines, ps[k], ts[k])
  }

  class LegacyIcdValidator {
    const synonymsList: seq<seq<string>>

    /** Reads the synonym file, given as its lines, split on commas as they are: the newline stays. */
    constructor(lines: seq<string>)
      ensures |synonymsList| == |lines|
      ensures forall i :: 0 <= i < |lines| ==> synonymsList[i] == Split(lines[i], ',')
    {
      var parsed: seq<seq<string>> := [];
      for i := 0 to |lines|
        invariant |parsed| == i
        invariant forall j :: 0 <= j < i ==> parsed[j] == Split(lines[j], ',')
      {
        parsed := parsed + [Split(lines[i], ',')];
      }
      synonymsList := parsed;
    }

    /** `icd_validate`: the outer loop over every fourth entry, returning at the first failure. */
    method IcdValidate(predict: seq<string>, target: seq<string>) returns (ok: bool)
      ensures ok == LegacyValid(synonymsList, predict, target)
    {
      ok := PairsCovered(EveryFourth(predict), EveryFourth(target));
    }

    /** The loop over `zip(ps, ts)`. */
    method PairsCovered(ps: seq<string>, ts: seq<string>) returns (ok: bool)
      ensures ok == AllCovered(synonymsList, ps, ts)
    {
      var k := 0;
      while k < |ps| && k < |ts|
        invariant 0 <= k <= |ps| && k <= |ts|
        invariant forall m :: 0 <= m < k ==> EntryCovered(synonymsList, ps[m], ts[m])
      {
        var covered := Covers(ps[k], ts[k]);
        if !covered {
          return false;
        }
        k := k + 1;
      }
      return true;
    }

    /** The loop over the characters of one predicted entry. */
    method Covers(pred: string, trgt: string) returns (ok: bool)
      ensures ok == EntryCovered(synonymsList, pred, trgt)
    {
      for i := 0 to |pred|
        invariant forall m :: 0 <= m < i ==> CharFound(synonymsList, pred[m], trgt)
      {
        var str1 := [pred[i]];
        if str1 == "" {
          continue;
        }
        var exist := Find(pred[i], trgt);
        if !exist {
          return false;
        }
      }
      return true;
    }

    /** The innermost loop: search `trgt` for a character agreeing with `c`, stopping at the first. */
    method Find(c: char, trgt: string) returns (exist: bool)
      ensures exist == CharFound(synonymsList, c, trgt)
    {
      exist := false;
      for j := 0 to |trgt|
        invariant forall m :: 0 <= m < j ==> !Validator.Compare(synonymsList, [c], [trgt[m]])
      {
        var str2 := [trgt[j]];
        if str2 == "" {
          continue;
        }
        if Validator.Compare(synonymsList, [c], str2) {
          exist := true;
          break;
        }
      }
    }
  }

  /** An empty predicted entry has no character to check, so it always passes. */
  lemma EmptyEntryPasses(lines: seq<seq<string>>, trgt: string)
    ensures EntryCovered(lines, "", trgt)
  {
  }

  /** A predicted entry with a character but an empty target entry fails. */
  lemma EmptyTargetFails(lines: seq<seq<string>>, pred: string)
    requires pred != ""
    ensures !EntryCovered(lines, pred, "")
  {
    assert !CharFound(lines, pred[0], "");
  }

  /** Only the entries at positions 0, 4, 8, ... matter. */
  lemma OnlyEveryFourthMatters(lines: seq<seq<string>>, p: seq<string>, q: seq<string>, target: seq<string>)
    requires |p| == |q|
    requires forall k :: 0 <= 4 * k < |p| ==> p[4 * k] == q[4 * k]
    ensures LegacyValid(lines, p, target) == LegacyValid(lines, q, target)
  {
    var ps, qs := EveryFourth(p), EveryFourth(q);
    assert ps == qs by {
      forall k | 0 <= k < |ps| ensures ps[k] == qs[k] {
        assert p[4 * k] == q[4 * k];
      }
    }
  }

  /** An entry agrees character by character with one that differs from it only in case. */
  lemma SameUpperCovered(lines: seq<seq<string>>, pred: string, trgt: string)
    requires Upper(pred) == Upper(trgt)
    ensures EntryCovered(lines, pred, trgt)
  {
    forall i | 0 <= i < |pred| ensures CharFound(lines, pred[i], trgt) {
      assert Upper(pred)[i] == Upper(trgt)[i];
      assert Upper([pred[i]]) == Upper([trgt[i]]);
      assert Validator.Compare(lines, [pred[i]], [trgt[i]]);
    }
  }

  /** Upper-casing `covid-19` gives `COVID-19`. */
  lemma CovidUpper(p: string, t: string)
    requires p == "covid-19" && t == "COVID-19"
    ensures Upper(p) == t
  {
    assert Upper(p)[0] == t[0] && Upper(p)[1] == t[1] && Upper(p)[2] == t[2] && Upper(p)[3] == t[3];
    assert Upper(p)[4] == t[4] && Upper(p)[5] == t[5] && Upper(p)[6] == t[6] && Upper(p)[7] == t[7];
  }

  /**
    The demonstration at the end of the file: five lower-case `covid-19`
    entries, each followed by three empty ones, validate against the
    upper-case `COVID-19` whatever the synonym lines.
  */
  lemma Demo(lines: seq<seq<string>>, predict: seq<string>, target: seq<string>, p: string, t: string)
    requires p == "covid-19" && t == "COVID-19"
    requires predict == [p, "", "", "", p, "", "", "", p, "", "", "", p, "", "", "", p, "", "", ""]
    requires target == [t, "", "", "", t, "", "", "", t, "", "", "", t, "", "", "", t, "", "", ""]
    ensures LegacyValid(lines, predict, target)
  {
    CovidUpper(p, t);
    UpperIdempotent(t);
    SameUpperCovered(lines, p, t);
    Uniform(lines, predict, target, p, t);
  }

  /** Lists whose every fourth entries are all `p` and `t` validate when `p` is covered by `t`. */
  lemma Uniform(lines: seq<seq<string>>, predict: seq<string>, target: seq<string>, p: string, t: string)
    requires EntryCovered(lines, p, t)
    requires forall k :: 0 <= 4 * k < |predict| ==> predict[4 * k] == p
    requires forall k :: 0 <= 4 * k < |target| ==> target[4 * k] == t
    ensures LegacyValid(lines, predict, target)
  {
    var ps, ts := EveryFourth(predict), EveryFourth(target);
    forall k | 0 <= k < |ps| && k < |ts| ensures EntryCovered(lines, ps[k], ts[k]) {
      assert ps[k] == predict[4 * k];
      assert ts[k] == target[4 * k];
    }
  }
}
