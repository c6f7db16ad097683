/**
  `ICDTokenizer` (icd_tokenize/tokenizer.py): cuts a free-text cause of
  death into dictionary diagnoses.  After pre-processing, the text is
  scanned left to right taking the longest dictionary key at each position;
  where none starts, the optional experimental recovery collects every key
  made of that character and a subsequence of the rest, and the scan moves
  one character on.  The found terms are then refined.
*/
module Tokenizer {
  import opened Text
  import opened Trie
  import opened Slots
  import opened Preprocess
  import opened Refine
  import opened Shift

  /**
    The tokenizer's fixed state: the diagnoses it loads into its trie, the
    synonym table (diagnosis to ICD code) and the experimental flag.
  */
  datatype IcdTokenizer = IcdTokenizer(dict: Dictionary, synonyms: map<string, string>, experimental: bool)
  {
    predicate Valid() {
      Trie.Valid(dict)
    }
  }

  // ---------------------------------------------------------------------
  // Experimental recovery (icd_tokenize/tokenizer.py:204-215)
  // ---------------------------------------------------------------------

  /** `currents`: each candidate extended by `ch`, when the trie has a node there. */
  function Extensions(d: Dictionary, ps: seq<string>, ch: char): (r: seq<string>)
    ensures forall y :: y in r <==> y != [] && y[..|y| - 1] in ps && y[|y| - 1] == ch && HasNode(d, y)
    decreases |ps|
  {
    if ps == [] then []
    else
      var front := ps[..|ps| - 1];
      var y := ps[|ps| - 1] + [ch];
      var r := Extensions(d, front, ch);
      assert y[..|y| - 1] == ps[|ps| - 1];
      assert forall z :: z in ps <==> z in front || z == ps[|ps| - 1] by {
        assert ps == front + [ps[|ps| - 1]];
      }
      assert forall z :: z != [] && z[..|z| - 1] == ps[|ps| - 1] && z[|z| - 1] == ch ==> z == y by {
        forall z | z != [] && z[..|z| - 1] == ps[|ps| - 1] && z[|z| - 1] == ch ensures z == y {
          assert z == z[..|z| - 1] + [z[|z| - 1]];
        }
      }
      if HasNode(d, y) then r + [y] else r
  }

  /**
    `possibles` after the loop over the characters `t` that follow the
    anchor `a`: it starts as `[a]` and after each character gains every
    candidate extended by it.
  */
  function Possibles(d: Dictionary, a: char, t: string): (ps: seq<string>)
    ensures |ps| >= 1 && ps[0] == [a]
    decreases |t|
  {
    if t == [] then [[a]]
    else
      var prev := Possibles(d, a, t[..|t| - 1]);
      prev + Extensions(d, prev, t[|t| - 1])
  }

  /** A candidate: the anchor followed by a subsequence of `t`, which is the anchor alone or a trie node. */
  predicate Candidate(d: Dictionary, a: char, t: string, x: string) {
    |x| >= 1 && x[0] == a && IsSubseq(x[1..], t) && (x == [a] || HasNode(d, x))
  }

  /** `possibles` holds exactly the candidates. */
  lemma {:induction false} PossiblesMember(d: Dictionary, a: char, t: string, x: string)
    ensures x in Possibles(d, a, t) <==> Candidate(d, a, t, x)
    decreases |t|
  {
    if t == [] {
      assert Possibles(d, a, t) == [[a]];
      if Candidate(d, a, t, x) {
        assert IsSubseq(x[1..], []);
        assert x[1..] == [];
        assert x == [a] + x[1..];
      }
      if x == [a] {
        assert x[1..] == [];
      }
    } else {
      var u, ch := t[..|t| - 1], t[|t| - 1];
      assert t == u + [ch];
      PossiblesStep(d, a, u, ch, x);
      PossiblesMember(d, a, u, x);
      if |x| >= 1 {
        PossiblesMember(d, a, u, x[..|x| - 1]);
      }
      CandidateStep(d, a, u, ch, x);
    }
  }

  /** One more character `ch`: `possibles` keeps its members and gains their extensions by `ch` that are trie nodes. */
  lemma PossiblesStep(d: Dictionary, a: char, u: string, ch: char, x: string)
    ensures x in Possibles(d, a, u + [ch]) <==>
      x in Possibles(d, a, u) ||
      (x != [] && x[..|x| - 1] in Possibles(d, a, u) && x[|x| - 1] == ch && HasNode(d, x))
  {
    var t := u + [ch];
    assert t[..|t| - 1] == u;
  }

  /**
    One more character `ch`: the candidates are the old ones and those
    extended by `ch` that are trie nodes.
  */
  lemma CandidateStep(d: Dictionary, a: char, u: string, ch: char, x: string)
    ensures Candidate(d, a, u + [ch], x) <==>
      Candidate(d, a, u, x) ||
      (|x| >= 2 && x[|x| - 1] == ch && Candidate(d, a, u, x[..|x| - 1]) && HasNode(d, x))
  {
    if |x| >= 1 {
      SubseqLast(x[1..], u, ch);
      if IsSubseq(x[1..], u) {
        SubseqExtend(x[1..], u, ch);
      }
    }
    if |x| >= 2 {
      var p := x[..|x| - 1];
      assert x[1..][..|x| - 2] == p[1..];
      if HasNode(d, x) {
        NodePrefix(d, x, p);
      }
    }
  }

  /** `[e for e in possibles if trie.has_key(e)]`. */
  function KeysOf(d: Dictionary, ps: seq<string>): (r: seq<string>)
    ensures forall x :: x in r <==> x in ps && x in d
    decreases |ps|
  {
    if ps == [] then []
    else
      var front := ps[..|ps| - 1];
      assert ps == front + [ps[|ps| - 1]];
      if ps[|ps| - 1] in d then KeysOf(d, front) + [ps[|ps| - 1]] else KeysOf(d, front)
  }

  /**
    What the recovery adds at a position where no key starts: the keys
    that are the anchor `a` followed by a subsequence of the rest `t`.
  */
  lemma RecoveredKeys(d: Dictionary, a: char, t: string, x: string)
    ensures x in KeysOf(d, Possibles(d, a, t)) <==> x in d && |x| >= 1 && x[0] == a && IsSubseq(x[1..], t)
  {
    PossiblesMember(d, a, t, x);
    if x in d {
      assert IsPrefix(x, x);
    }
  }

  /** The recovery as the source performs it: two nested loops, then the key filter. */
  method Recover(d: Dictionary, a: char, t: string) returns (found: seq<string>)
    ensures found == KeysOf(d, Possibles(d, a, t))
  {
    var possibles := [[a]];
    for i := 0 to |t|
      invariant possibles == Possibles(d, a, t[..i])
    {
      var ch := t[i];
      var currents := [];
      for j := 0 to |possibles|
        invariant currents == Extensions(d, possibles[..j], ch)
      {
        assert possibles[..j + 1][..j] == possibles[..j];
        if HasNode(d, possibles[j] + [ch]) {
          currents := currents + [possibles[j] + [ch]];
        }
      }
      assert possibles[..|possibles|] == possibles;
      assert t[..i + 1][..i] == t[..i];
      possibles := possibles + currents;
    }
    assert t[..|t|] == t;
    found := KeysOf(d, possibles);
  }

  // ---------------------------------------------------------------------
  // Segmentation (icd_tokenize/tokenizer.py:200-218)
  // ---------------------------------------------------------------------

  /** What the scan adds at a position where no key starts. */
  function Recovered(d: Dictionary, experimental: bool, s: string): seq<string>
    requires s != []
  {
    if experimental && HasSubtrie(d, s[..1]) then KeysOf(d, Possibles(d, s[0], s[1..])) else []
  }

  /** The terms the scan collects before refinement; every one of them is a dictionary key. */
  function Segment(d: Dictionary, experimental: bool, s: string): (r: seq<string>)
    requires Trie.Valid(d)
    ensures forall x :: x in r ==> x in d
    decreases |s|
  {
    if s == [] then []
    else
      match LongestPrefix(d, s)
      case Some(p) => [p] + Segment(d, experimental, s[|p|..])
      case None => Recovered(d, experimental, s) + Segment(d, experimental, s[1..])
  }

  /** Without the experimental mode the scan is the plain longest-prefix segmentation. */
  lemma {:induction false} SegmentGreedy(d: Dictionary, s: string)
    requires Trie.Valid(d)
    ensures Segment(d, false, s) == Greedy(d, s)
    decreases |s|
  {
    if s != [] {
      match LongestPrefix(d, s)
      case Some(p) => SegmentGreedy(d, s[|p|..]);
      case None => SegmentGreedy(d, s[1..]);
    }
  }

  /** Refinement: subsets out, synonyms to codes, repeats out. */
  function Refined(tk: IcdTokenizer, terms: seq<string>): (r: seq<string>)
    ensures forall i, j :: 0 <= i < j < |r| ==> r[i] != r[j]
    ensures forall x :: x in r ==> x in terms || x in tk.synonyms.Values
  {
    var kept := RemoveSubset(terms);
    var coded := Collapse(kept, tk.synonyms);
    var r := Dedup(coded);
    assert forall x :: x in r ==> x in terms || x in tk.synonyms.Values by {
      forall x | x in r ensures x in terms || x in tk.synonyms.Values {
        if x !in Unmapped(kept, tk.synonyms) {
          var y :| y in kept && y in tk.synonyms && tk.synonyms[y] == x;
        }
      }
    }
    r
  }

  /**
    What `extract` returns.  The empty input gives `[""]`; a pre-processed
    text that is itself a key is returned whole; otherwise the refined scan.
    The result has no repeats, and each element is a key, a code, or the
    `""` of the empty input.
  */
  function ExtractSpec(tk: IcdTokenizer, input: string): (r: seq<string>)
    requires tk.Valid()
    ensures forall i, j :: 0 <= i < j < |r| ==> r[i] != r[j]
    ensures forall x :: x in r ==> x in tk.dict || x in tk.synonyms.Values || (input == "" && x == "")
  {
    if input == "" then [""]
    else
      var s := PreProcess(input);
      if s in tk.dict then [s] else Refined(tk, Segment(tk.dict, tk.experimental, s))
  }

  /** The empty input gives the one-element list `[""]`, not `[]`. */
  lemma ExtractEmpty(tk: IcdTokenizer)
    requires tk.Valid()
    ensures ExtractSpec(tk, "") == [""]
  {
  }

  /** A text that pre-processes to a key is returned whole, without scanning or refinement. */
  lemma ExtractWholeKey(tk: IcdTokenizer, input: string)
    requires tk.Valid() && input != "" && PreProcess(input) in tk.dict
    ensures ExtractSpec(tk, input) == [PreProcess(input)]
  {
  }

  /** `extract` as the source performs it: the scanning loop, then the three refinement passes. */
  method Extract(tk: IcdTokenizer, input: string) returns (result: seq<string>)
    requires tk.Valid()
    ensures result == ExtractSpec(tk, input)
  {
    if input == "" {
      return [""];
    }
    var s := PreProcess(input);
    if s in tk.dict {
      return [s];
    }
    var terms := Scan(tk, s);
    result := RefineTerms(tk, terms);
  }

  /** The `while input_str != ""` loop: longest key, or recovery and one character on. */
  method Scan(tk: IcdTokenizer, s: string) returns (result: seq<string>)
    requires tk.Valid()
    ensures result == Segment(tk.dict, tk.experimental, s)
  {
    var rest := s;
    result := [];
    while rest != ""
      invariant result + Segment(tk.dict, tk.experimental, rest) == Segment(tk.dict, tk.experimental, s)
      decreases |rest|
    {
      var prefix := LongestPrefix(tk.dict, rest);
      if prefix.None? {
        var found := [];
        if tk.experimental && HasSubtrie(tk.dict, rest[..1]) {
          found := Recover(tk.dict, rest[0], rest[1..]);
        }
        SegmentSkip(tk.dict, tk.experimental, rest, found);
        AppendAssoc(result, found, Segment(tk.dict, tk.experimental, rest[1..]));
        result := result + found;
        rest := rest[1..];
      } else {
        SegmentMatch(tk.dict, tk.experimental, rest, prefix.value);
        AppendAssoc(result, [prefix.value], Segment(tk.dict, tk.experimental, rest[|prefix.value|..]));
        rest := rest[|prefix.value|..];
        result := result + [prefix.value];
      }
    }
  }

  /** Where a key starts, the scan takes it and goes on after it. */
  lemma SegmentMatch(d: Dictionary, experimental: bool, s: string, p: string)
    requires Trie.Valid(d) && s != [] && LongestPrefix(d, s) == Some(p)
    ensures 0 < |p| <= |s|
    ensures Segment(d, experimental, s) == [p] + Segment(d, experimental, s[|p|..])
  {
  }

  /** Where no key starts, the scan adds what the recovery finds and goes one character on. */
  lemma SegmentSkip(d: Dictionary, experimental: bool, s: string, found: seq<string>)
    requires Trie.Valid(d) && s != [] && LongestPrefix(d, s).None?
    requires found == Recovered(d, experimental, s)
    ensures Segment(d, experimental, s) == found + Segment(d, experimental, s[1..])
  {
  }

  /** The three refinement passes, in the source's order. */
  method RefineTerms(tk: IcdTokenizer, terms: seq<string>) returns (result: seq<string>)
    ensures result == Refined(tk, terms)
  {
    result := RemoveSubset(terms);
    result := RemoveSynonyms(result, tk.synonyms);
    result := Dedup(result);
  }

  /**
    Without the experimental mode, a text that is no key is cut greedily:
    the terms refined are the longest keys at the positions `Starts` names,
    which `GreedyCover` characterises.
  */
  lemma ExtractGreedy(tk: IcdTokenizer, input: string)
    requires tk.Valid() && !tk.experimental
    requires input != "" && PreProcess(input) !in tk.dict
    ensures ExtractSpec(tk, input) == Refined(tk, Greedy(tk.dict, PreProcess(input)))
    ensures IsGreedyCover(tk.dict, PreProcess(input), Greedy(tk.dict, PreProcess(input)),
      Starts(tk.dict, PreProcess(input)))
  {
    SegmentGreedy(tk.dict, PreProcess(input));
    GreedyCover(tk.dict, PreProcess(input));
  }

  // ---------------------------------------------------------------------
  // extract_icd (icd_tokenize/tokenizer.py:145-191)
  // ---------------------------------------------------------------------

  /** The extractions of the first `n` inputs of a row, concatenated. */
  function ExtractUpTo(tk: IcdTokenizer, row: seq<string>, n: nat): seq<string>
    requires tk.Valid() && n <= |row|
  {
    if n == 0 then [] else ExtractUpTo(tk, row, n - 1) + ExtractSpec(tk, row[n - 1])
  }

  /** A category's result: its four inputs extracted, then fitted to four slots. */
  function CategoryResult(tk: IcdTokenizer, row: seq<string>): (r: seq<string>)
    requires tk.Valid() && |row| >= 4
    ensures |r| == 4
  {
    FitFour(ExtractUpTo(tk, row, 4))
  }

  /**
    `extract_icd`: shifts the causal chain in `inputs` in place, then fills a
    new `Data` with each category's four inputs extracted and fitted to
    exactly four slots.  The source indexes 其他's first four inputs without
    a check, so it demands them.
  */
  method ExtractIcd(tk: IcdTokenizer, inputs: Data) returns (data: Data)
    requires tk.Valid() && inputs.Valid() && |inputs.slots[Other]| >= 4
    modifies inputs
    ensures inputs.Valid() && inputs.slots == Shifted(old(inputs.slots))
    ensures fresh(data) && data.Valid()
    ensures forall c :: data.slots[c] == CategoryResult(tk, inputs.slots[c])
  {
    ShiftInputs(inputs);
    data := new Data();
    FillData(tk, inputs.slots, data);
  }

  /** The `for catalog in Data.KEYS` loop: each category's row extracted into the new `Data`. */
  method FillData(tk: IcdTokenizer, slots: map<Category, seq<string>>, data: Data)
    requires tk.Valid() && forall c :: c in slots && |slots[c]| >= 4
    requires data.Valid()
    modifies data
    ensures data.Valid()
    ensures forall c :: data.slots[c] == CategoryResult(tk, slots[c])
  {
    CategoriesDistinct();
    for k := 0 to |Categories|
      invariant data.Valid()
      invariant forall j :: 0 <= j < k ==> data.slots[Categories[j]] == CategoryResult(tk, slots[Categories[j]])
    {
      var catalog := Categories[k];
      var found := ExtractRow(tk, slots[catalog]);
      data.slots := data.slots[catalog := found];
    }
    forall c ensures data.slots[c] == CategoryResult(tk, slots[c]) {
      CategoriesComplete(c);
    }
  }

  /** One pass over a category: the four extractions appended, padded to four, cut to four. */
  method ExtractRow(tk: IcdTokenizer, row: seq<string>) returns (found: seq<string>)
    requires tk.Valid() && |row| >= 4
    ensures found == CategoryResult(tk, row)
  {
    found := ExtractInputs(tk, row);
    found := PadRow(found);
    found := found[..4];
  }

  /** The `for i in range(4)` loop: the extractions of the first four inputs, appended. */
  method ExtractInputs(tk: IcdTokenizer, row: seq<string>) returns (found: seq<string>)
    requires tk.Valid() && |row| >= 4
    ensures found == ExtractUpTo(tk, row, 4)
  {
    found := [];
    for i := 0 to 4
      invariant found == ExtractUpTo(tk, row, i)
    {
      found := ExtractNext(tk, row, i, found);
    }
  }

  /** One pass of the loop: the extraction of input `i` appended to those before it. */
  method ExtractNext(tk: IcdTokenizer, row: seq<string>, i: nat, found: seq<string>) returns (more: seq<string>)
    requires tk.Valid() && i < |row| && found == ExtractUpTo(tk, row, i)
    ensures more == ExtractUpTo(tk, row, i + 1)
  {
    var next := Extract(tk, row[i]);
    ExtractUpToStep(tk, row, i);
    more := found + next;
  }

  /** One more input appends its extraction. */
  lemma ExtractUpToStep(tk: IcdTokenizer, row: seq<string>, i: nat)
    requires tk.Valid() && i < |row|
    ensures ExtractUpTo(tk, row, i + 1) == ExtractUpTo(tk, row, i) + ExtractSpec(tk, row[i])
  {
  }
}
