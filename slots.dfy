/**
  The five cause-of-death categories and the fixed four slots each of them
  has on a death certificate.  Every list of diagnoses per category is padded
  with empty strings to four slots before it is written out.
*/
module Slots {

  /** 甲, 乙, 丙, 丁 (the chain of causes, immediate first) and 其他 (other conditions). */
  datatype Category = Jia | Yi | Bing | Ding | Other

  /** The categories in the order the program always visits them. */
  const Categories: seq<Category> := [Jia, Yi, Bing, Ding, Other]

  /** The four categories of the causal chain, the ones `extract_icd` shifts. */
  const Causes: seq<Category> := [Jia, Yi, Bing, Ding]

  /** The slot suffixes of the spreadsheet columns: 甲, 甲2, 甲3, 甲4. */
  const Tags: seq<string> := ["", "2", "3", "4"]

  /** The category's name, used as dictionary key and column prefix. */
  function Name(c: Category): string {
    match c
    case Jia => "甲"
    case Yi => "乙"
    case Bing => "丙"
    case Ding => "丁"
    case Other => "其他"
  }

  /** The category's code in the JSON output (`CA1` .. `CE4`). */
  function Code(c: Category): string {
    match c
    case Jia => "CA"
    case Yi => "CB"
    case Bing => "CC"
    case Ding => "CD"
    case Other => "CE"
  }

  /** Where a causal category stands in `Causes`. */
  function CauseIndex(c: Category): (k: nat)
    requires c != Other
    ensures k < |Causes| && Causes[k] == c
  {
    match c
    case Jia => 0
    case Yi => 1
    case Bing => 2
    case Ding => 3
  }

  /** Distinct categories have distinct names and distinct codes. */
  lemma NamesDistinct(c: Category, d: Category)
    ensures Name(c) == Name(d) ==> c == d
    ensures Code(c) == Code(d) ==> c == d
  {
  }

  /** No category is listed twice. */
  lemma CategoriesDistinct()
    ensures forall i, j :: 0 <= i < j < |Categories| ==> Categories[i] != Categories[j]
  {
  }

  /** Every category is listed once. */
  lemma CategoriesComplete(c: Category)
    ensures c in Categories
    ensures c != Other <==> c in Causes
  {
  }

  /**
    `xs += ["" for _ in range(4 - len(xs))]` when `len(xs) < 4`: pads with
    empty strings up to four slots and never shortens.
  */
  function Pad4(xs: seq<string>): (r: seq<string>)
    ensures |r| == if |xs| < 4 then 4 else |xs|
    ensures r[..|xs|] == xs
    ensures forall i :: |xs| <= i < |r| ==> r[i] == ""
  {
    if |xs| < 4 then xs + seq(4 - |xs|, i => "") else xs
  }

  /**
    Pad to four slots, then keep the first four: exactly four slots holding
    the first entries of `xs` and empty strings after them.
  */
  function FitFour(xs: seq<string>): (r: seq<string>)
    ensures |r| == 4
    ensures forall i :: 0 <= i < 4 ==> r[i] == if i < |xs| then xs[i] else ""
  {
    Pad4(xs)[..4]
  }

  /** Padding is idempotent and fitting an already fitted list changes nothing. */
  lemma {:induction false} FitFourIdempotent(xs: seq<string>)
    ensures Pad4(Pad4(xs)) == Pad4(xs)
    ensures FitFour(FitFour(xs)) == FitFour(xs)
  {
    var f := FitFour(xs);
    assert forall i :: 0 <= i < 4 ==> FitFour(f)[i] == f[i];
  }

  /** One more empty slot below four does not change the padded list: the padding loops' step. */
  lemma {:induction false} Pad4Step(xs: seq<string>)
    requires |xs| < 4
    ensures Pad4(xs + [""]) == Pad4(xs)
  {
    var a, b := Pad4(xs + [""]), Pad4(xs);
    assert |a| == |b|;
    forall i | 0 <= i < |a| ensures a[i] == b[i] {
      if i < |xs| {
        assert a[..|xs| + 1][i] == (xs + [""])[i];
        assert b[..|xs|][i] == xs[i];
      }
    }
  }

  /**
    `Data` (a dictionary with one list per category, all five present and
    initially empty).  The tokenizer overwrites its lists in place.
  */
  class Data {
    var slots: map<Category, seq<string>>

    predicate Valid()
      reads this
    {
      forall c :: c in slots
    }

    constructor()
      ensures Valid()
      ensures forall c :: slots[c] == []
    {
      slots := map[Jia := [], Yi := [], Bing := [], Ding := [], Other := []];
      new;
      forall c: Category ensures c in slots {
        CategoriesComplete(c);
      }
    }
  }
}
