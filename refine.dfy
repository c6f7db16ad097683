/**
  The three clean-up passes `extract` runs over the segmented terms, in this
  order (icd_tokenize/tokenizer.py:121-143, 220-222): drop every term whose
  characters all occur in some other term, replace each term that has a
  synonym entry by its ICD code, and drop repeats keeping first occurrences.
*/
module Refine {
  import opened Text

  /**
    `_is_subset(a, b)`: `a` differs from `b` and each of its characters
    occurs somewhere in `b` (order and multiplicity are ignored).
  */
  predicate IsSubset(a: string, b: string)
    ensures a == b ==> !IsSubset(a, b)
  {
    a != b && forall c :: c in a ==> c in b
  }

  /** A term occurring inside a different term is a subset of it, so `remove_subset` drops it. */
  lemma ContainedIsSubset(a: string, b: string)
    requires a != b && Contains(b, a)
    ensures IsSubset(a, b)
  {
    ContainsChars(b, a);
  }

  /** Some other term of `all` covers every character of `x`. */
  predicate Dominated(x: string, all: seq<string>) {
    exists y :: y in all && IsSubset(x, y)
  }

  /** The terms of `xs` that no term of `all` dominates, in their order. */
  function Undominated(xs: seq<string>, all: seq<string>): (r: seq<string>)
    ensures IsSubseq(r, xs)
    ensures forall x :: x in r <==> x in xs && !Dominated(x, all)
    ensures forall x :: !Dominated(x, all) ==> multiset(r)[x] == multiset(xs)[x]
    decreases |xs|
  {
    if xs == [] then []
    else
      var front := xs[..|xs| - 1];
      var x := xs[|xs| - 1];
      var r := Undominated(front, all);
      assert xs == front + [x];
      if Dominated(x, all) then
        SubseqExtend(r, front, x);
        r
      else
        SubseqSnoc(r, front, x);
        r + [x]
  }

  /**
    `remove_subset`: keeps a term iff no different term of the list contains
    all of its characters; the kept terms stay in order, and equal terms
    never remove each other, so all copies of a kept term stay.
  */
  function RemoveSubset(data: seq<string>): (r: seq<string>)
    ensures IsSubseq(r, data)
    ensures forall x :: x in r <==> x in data && !Dominated(x, data)
    ensures forall x :: x in r ==> multiset(r)[x] == multiset(data)[x]
  {
    Undominated(data, data)
  }

  /** A list in which no term dominates another is kept whole. */
  lemma {:induction false} UndominatedAll(xs: seq<string>, all: seq<string>)
    requires forall x :: x in xs ==> !Dominated(x, all)
    ensures Undominated(xs, all) == xs
    decreases |xs|
  {
    if xs != [] {
      var front := xs[..|xs| - 1];
      assert xs == front + [xs[|xs| - 1]];
      UndominatedAll(front, all);
    }
  }

  /**
    Removing subsets twice removes nothing more: what survives is not
    dominated by any term of the original list, so not by any survivor.
  */
  lemma RemoveSubsetIdempotent(data: seq<string>)
    ensures RemoveSubset(RemoveSubset(data)) == RemoveSubset(data)
  {
    var r := RemoveSubset(data);
    forall x | x in r ensures !Dominated(x, r) {
      DominatedWithin(x, r, data);
    }
    UndominatedAll(r, r);
  }

  /** Whatever dominates within a sublist dominates within the whole list. */
  lemma DominatedWithin(x: string, r: seq<string>, data: seq<string>)
    requires forall y :: y in r ==> y in data
    ensures Dominated(x, r) ==> Dominated(x, data)
  {
  }

  /** 癌 (cancer) is dropped beside 肺癌 (lung cancer), which covers its only character. */
  lemma RemoveSubsetExample()
    ensures RemoveSubset(["癌", "肺癌"]) == ["肺癌"]
  {
    var data := ["癌", "肺癌"];
    assert IsSubset("癌", "肺癌");
    assert Dominated("癌", data);
    assert !Dominated("肺癌", data) by {
      forall y | y in data ensures !IsSubset("肺癌", y) {
        assert '肺' in "肺癌";
      }
    }
    assert data[..1] == ["癌"];
    assert Undominated(data[..1], data) == [];
  }

  // ---------------------------------------------------------------------
  // remove_synonyms
  // ---------------------------------------------------------------------

  /** The terms of `xs` that have no synonym entry, in order. */
  function Unmapped(xs: seq<string>, syn: map<string, string>): (r: seq<string>)
    ensures IsSubseq(r, xs)
    ensures forall x :: x in r <==> x in xs && x !in syn
    decreases |xs|
  {
    if xs == [] then []
    else
      var front := xs[..|xs| - 1];
      var x := xs[|xs| - 1];
      assert xs == front + [x];
      var r := Unmapped(front, syn);
      if x in syn then
        SubseqExtend(r, front, x);
        r
      else
        SubseqSnoc(r, front, x);
        r + [x]
  }

  /** The codes of the terms of `xs` that have a synonym entry. */
  function Codes(xs: seq<string>, syn: map<string, string>): set<string> {
    set d | d in xs && d in syn :: syn[d]
  }

  /**
    What `remove_synonyms` returns: each term with a synonym entry is replaced
    by its code, added only if that code is not in the result yet; every
    other term is added as it is.
  */
  function Collapse(xs: seq<string>, syn: map<string, string>): (r: seq<string>)
    ensures forall x :: x in r <==> x in Unmapped(xs, syn) || x in Codes(xs, syn)
    decreases |xs|
  {
    if xs == [] then []
    else
      var front := xs[..|xs| - 1];
      var d := xs[|xs| - 1];
      assert xs == front + [d];
      var r := Collapse(front, syn);
      CodesSnoc(front, d, syn);
      if d in syn then
        if syn[d] in r then r else r + [syn[d]]
      else
        r + [d]
  }

  /** One more term adds its code, if it has one. */
  lemma CodesSnoc(front: seq<string>, d: string, syn: map<string, string>)
    ensures Codes(front + [d], syn) == if d in syn then Codes(front, syn) + {syn[d]} else Codes(front, syn)
  {
    if d in syn {
      assert Codes(front + [d], syn) == Codes(front, syn) + {syn[d]};
    } else {
      assert Codes(front + [d], syn) == Codes(front, syn);
    }
  }

  /** One more term is kept by `Unmapped` exactly when it has no synonym entry. */
  lemma UnmappedSnoc(front: seq<string>, d: string, syn: map<string, string>)
    ensures Unmapped(front + [d], syn) == if d in syn then Unmapped(front, syn) else Unmapped(front, syn) + [d]
  {
    assert (front + [d])[..|front|] == front;
  }

  /** What a term turns into: its code when it has a synonym entry, itself otherwise. */
  function Translated(d: string, syn: map<string, string>): string {
    if d in syn then syn[d] else d
  }

  /** Every term of `xs` translated, one for one, in order. */
  function Translate(xs: seq<string>, syn: map<string, string>): (t: seq<string>)
    ensures |t| == |xs|
  {
    seq(|xs|, i requires 0 <= i < |xs| => Translated(xs[i], syn))
  }

  /** `Collapse` of a list with one more term, unfolded once. */
  lemma CollapseSnoc(front: seq<string>, d: string, syn: map<string, string>)
    ensures Collapse(front + [d], syn) ==
      var r := Collapse(front, syn);
      if d in syn then (if syn[d] in r then r else r + [syn[d]]) else r + [d]
  {
    assert (front + [d])[..|front|] == front;
  }

  /** Translating a list with one more term adds that term's translation. */
  lemma TranslateSnoc(front: seq<string>, d: string, syn: map<string, string>)
    ensures Translate(front + [d], syn) == Translate(front, syn) + [Translated(d, syn)]
  {
    assert forall i :: 0 <= i < |front| ==> (front + [d])[i] == front[i];
  }

  /** The terms without a synonym entry all stay, in their original order. */
  lemma {:induction false} CollapseKeepsOrder(xs: seq<string>, syn: map<string, string>)
    ensures IsSubseq(Unmapped(xs, syn), Collapse(xs, syn))
    decreases |xs|
  {
    if xs != [] {
      var front := xs[..|xs| - 1];
      var d := xs[|xs| - 1];
      assert xs == front + [d];
      CollapseKeepsOrder(front, syn);
      UnmappedSnoc(front, d, syn);
      CollapseSnoc(front, d, syn);
      var u, r := Unmapped(front, syn), Collapse(front, syn);
      if d !in syn {
        SubseqSnoc(u, r, d);
      } else if syn[d] !in r {
        SubseqExtend(u, r, syn[d]);
      }
    }
  }

  /**
    The result is the translated list with some codes left out: every entry
    stands where its term stood, so a code sits where the first of its
    synonyms stood, unless the code was already there.
  */
  lemma {:induction false} CollapseWithinTranslation(xs: seq<string>, syn: map<string, string>)
    ensures IsSubseq(Collapse(xs, syn), Translate(xs, syn))
    decreases |xs|
  {
    if xs != [] {
      var front := xs[..|xs| - 1];
      var d := xs[|xs| - 1];
      assert xs == front + [d];
      CollapseWithinTranslation(front, syn);
      CollapseSnoc(front, d, syn);
      TranslateSnoc(front, d, syn);
      var r, t := Collapse(front, syn), Translate(front, syn);
      if d in syn && syn[d] in r {
        SubseqExtend(r, t, syn[d]);
      } else {
        SubseqSnoc(r, t, Translated(d, syn));
      }
    }
  }

  /**
    A term that is no code keeps as many copies as it had; a code appears at
    most once more than it appeared verbatim.
  */
  lemma {:induction false} CollapseCounts(xs: seq<string>, syn: map<string, string>, x: string)
    ensures x !in Codes(xs, syn) ==> multiset(Collapse(xs, syn))[x] == multiset(Unmapped(xs, syn))[x]
    ensures multiset(Collapse(xs, syn))[x] <= multiset(Unmapped(xs, syn))[x] + 1
    decreases |xs|
  {
    if xs != [] {
      var front := xs[..|xs| - 1];
      var d := xs[|xs| - 1];
      assert xs == front + [d];
      CollapseCounts(front, syn, x);
      CodesSnoc(front, d, syn);
      UnmappedSnoc(front, d, syn);
    }
  }

  /** `remove_synonyms` as the loop it is. */
  method RemoveSynonyms(data: seq<string>, syn: map<string, string>) returns (result: seq<string>)
    ensures result == Collapse(data, syn)
  {
    result := [];
    var i := 0;
    while i < |data|
      invariant 0 <= i <= |data|
      invariant result == Collapse(data[..i], syn)
    {
      var d := data[i];
      assert data[..i + 1][..i] == data[..i];
      if d in syn {
        if syn[d] !in result {
          result := result + [syn[d]];
        }
      } else {
        result := result + [d];
      }
      i := i + 1;
    }
    assert data[..|data|] == data;
  }

  /** Without any synonym in the list, nothing changes. */
  lemma {:induction false} CollapseUnmapped(xs: seq<string>, syn: map<string, string>)
    requires forall x :: x in xs ==> x !in syn
    ensures Collapse(xs, syn) == xs
    decreases |xs|
  {
    if xs != [] {
      var front := xs[..|xs| - 1];
      assert xs == front + [xs[|xs| - 1]];
      CollapseUnmapped(front, syn);
    }
  }

  /** A code is added once, however many of its synonyms occur, unless it also occurs verbatim. */
  lemma CollapseCodeOnce(xs: seq<string>, syn: map<string, string>, x: string)
    requires x in Codes(xs, syn) && x !in Unmapped(xs, syn)
    ensures multiset(Collapse(xs, syn))[x] == 1
  {
    CollapseCounts(xs, syn, x);
    assert x in Collapse(xs, syn);
  }

  // ---------------------------------------------------------------------
  // remove_duplicate
  // ---------------------------------------------------------------------

  /** The position of the first occurrence of `x`. */
  function FirstIndex(xs: seq<string>, x: string): (k: nat)
    requires x in xs
    ensures k < |xs| && xs[k] == x && x !in xs[..k]
    decreases |xs|
  {
    var front := xs[..|xs| - 1];
    assert xs == front + [xs[|xs| - 1]];
    if x in front then FirstIndex(front, x) else |xs| - 1
  }

  /** `list(dict.fromkeys(xs))`: each term once, where it first occurs. */
  function Dedup(xs: seq<string>): (r: seq<string>)
    ensures forall i, j :: 0 <= i < j < |r| ==> r[i] != r[j]
    ensures forall x :: x in r <==> x in xs
    ensures IsSubseq(r, xs)
    decreases |xs|
  {
    if xs == [] then []
    else
      var front := xs[..|xs| - 1];
      var x := xs[|xs| - 1];
      assert xs == front + [x];
      var r := Dedup(front);
      if x in r then
        SubseqExtend(r, front, x);
        r
      else
        SubseqSnoc(r, front, x);
        r + [x]
  }

  /** The kept terms are ordered by where they first occur. */
  lemma {:induction false} DedupFirstOccurrences(xs: seq<string>)
    ensures forall i, j :: 0 <= i < j < |Dedup(xs)| ==>
      FirstIndex(xs, Dedup(xs)[i]) < FirstIndex(xs, Dedup(xs)[j])
    decreases |xs|
  {
    if xs != [] {
      var front := xs[..|xs| - 1];
      var x := xs[|xs| - 1];
      assert xs == front + [x];
      DedupFirstOccurrences(front);
      var r, r' := Dedup(front), Dedup(xs);
      forall y | y in front ensures FirstIndex(xs, y) == FirstIndex(front, y) {
      }
      forall i, j | 0 <= i < j < |r'| ensures FirstIndex(xs, r'[i]) < FirstIndex(xs, r'[j]) {
        assert r'[i] in r;
        if j < |r| {
          assert r'[j] in r;
        }
      }
    }
  }

  /** A list without repeats is its own deduplication. */
  lemma {:induction false} DedupNoRepeats(xs: seq<string>)
    requires forall i, j :: 0 <= i < j < |xs| ==> xs[i] != xs[j]
    ensures Dedup(xs) == xs
    decreases |xs|
  {
    if xs != [] {
      var front := xs[..|xs| - 1];
      assert xs == front + [xs[|xs| - 1]];
      DedupNoRepeats(front);
    }
  }
}
