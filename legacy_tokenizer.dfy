/**
  The older `ICDTokenizer` (tokenizer.py).  It deletes every 併 and every
  space, spells `COVID19` as `COVID 19`, and then cuts the text greedily
  into the longest dictionary keys, skipping a character where no key
  starts.  A key whose removal leaves exactly `COVID-19` is recorded as
  `COVID 19` instead.  There is no refinement and no experimental mode.
*/
module LegacyTokenizer {
  import opened Text
  import opened Trie

  const CovidPattern := "COVID19"
  const CovidSpelled := "COVID 19"
  const CovidDashed := "COVID-19"

  /** `_preprocess`: the three replacements in order. */
  function Preprocess(input: string): (r: string)
    ensures '併' !in r
    ensures forall c :: c in r ==> c in input || c in CovidSpelled
  {
    var s := DeleteChar(DeleteChar(input, '併'), ' ');
    ReplaceAll(s, CovidPattern, CovidSpelled, "")
  }

  /** A plain replacement changes nothing in a text without the pattern. */
  lemma {:induction false} ReplaceAbsent(s: string, pat: string, rep: string)
    requires pat != [] && !Contains(s, pat)
    ensures ReplaceAll(s, pat, rep, "") == s
    decreases |s|
  {
    if |s| >= |pat| {
      assert !IsPrefix(pat, s);
      ReplaceAbsent(s[1..], pat, rep);
      assert s == [s[0]] + s[1..];
    }
  }

  /** Without `COVID19` in it, pre-processing only deletes: no 併 and no space remain. */
  lemma PreprocessDeletes(input: string)
    requires !Contains(DeleteChar(DeleteChar(input, '併'), ' '), CovidPattern)
    ensures Preprocess(input) == DeleteChar(DeleteChar(input, '併'), ' ')
    ensures ' ' !in Preprocess(input) && '併' !in Preprocess(input)
  {
    ReplaceAbsent(DeleteChar(DeleteChar(input, '併'), ' '), CovidPattern, CovidSpelled);
  }

  /** `COVID19` is spelled `COVID 19`. */
  lemma PreprocessCovid(input: string)
    requires input == CovidPattern
    ensures Preprocess(input) == CovidSpelled
  {
    var s := DeleteChar(DeleteChar(input, '併'), ' ');
    assert s == input;
    assert MatchesAt(s, CovidPattern, "");
    assert s[|CovidPattern|..] == [];
  }

  /** Every space of `r` is the space of a `COVID 19` standing around it. */
  predicate SpacesSpelled(r: string) {
    forall i :: 0 <= i < |r| && r[i] == ' ' ==> 5 <= i && i + 3 <= |r| && r[i - 5..i + 3] == CovidSpelled
  }

  /** After spelling out `COVID19`, no `COVID19` is left anywhere in the text. */
  lemma {:induction false} CovidRewritten(s: string)
    ensures !Contains(ReplaceAll(s, CovidPattern, CovidSpelled, ""), CovidPattern)
    decreases |s|
  {
    if |s| < |CovidPattern| {
      ShortNotContained(s, CovidPattern);
    } else if MatchesAt(s, CovidPattern, "") {
      var rest := ReplaceAll(s[|CovidPattern|..], CovidPattern, CovidSpelled, "");
      CovidRewritten(s[|CovidPattern|..]);
      forall k | 0 <= k < |CovidSpelled| ensures !IsPrefix(CovidPattern, CovidSpelled[k..] + rest) {
        var x := CovidSpelled[k..] + rest;
        if k == 0 {
          assert x[5] == ' ';
        } else {
          assert x[0] == CovidSpelled[k] != 'C';
        }
      }
      NotContainedAcross(CovidSpelled, rest, CovidPattern);
    } else {
      var rest := ReplaceAll(s[1..], CovidPattern, CovidSpelled, "");
      CovidRewritten(s[1..]);
      ReplacePrefixBack(s[1..], CovidPattern, CovidSpelled, CovidPattern[1..]);
      PrefixCons(CovidPattern, s[0], rest);
      PrefixCons(CovidPattern, s[0], s[1..]);
      assert s == [s[0]] + s[1..];
      assert [s[0]][0..] == [s[0]];
      NotContainedAcross([s[0]], rest, CovidPattern);
    }
  }

  /** A first character other than a space keeps every space inside a `COVID 19`. */
  lemma SpacesSpelledCons(c: char, rest: string)
    requires c != ' ' && SpacesSpelled(rest)
    ensures SpacesSpelled([c] + rest)
  {
    var r := [c] + rest;
    forall i | 0 <= i < |r|
      ensures r[i] == ' ' ==> 5 <= i && i + 3 <= |r| && r[i - 5..i + 3] == CovidSpelled
    {
      if i > 0 {
        assert r[i] == rest[i - 1];
        if rest[i - 1] == ' ' {
          assert r[i - 5..i + 3] == rest[i - 6..i + 2];
        }
      }
    }
  }

  /** A `COVID 19` in front keeps every space inside a `COVID 19`. */
  lemma SpacesSpelledSpelled(rest: string)
    requires SpacesSpelled(rest)
    ensures SpacesSpelled(CovidSpelled + rest)
  {
    var r := CovidSpelled + rest;
    forall i | 0 <= i < |r|
      ensures r[i] == ' ' ==> 5 <= i && i + 3 <= |r| && r[i - 5..i + 3] == CovidSpelled
    {
      if i < |CovidSpelled| {
        assert r[i] == CovidSpelled[i];
        if i == 5 {
          assert r[0..8] == CovidSpelled;
        }
      } else {
        assert r[i] == rest[i - 8];
        if rest[i - 8] == ' ' {
          assert r[i - 5..i + 3] == rest[i - 13..i - 5];
        }
      }
    }
  }

  /** In a text without spaces, every space the rewrite leaves is that of an inserted `COVID 19`. */
  lemma {:induction false} CovidSpacesSpelled(s: string)
    requires ' ' !in s
    ensures SpacesSpelled(ReplaceAll(s, CovidPattern, CovidSpelled, ""))
    decreases |s|
  {
    var r := ReplaceAll(s, CovidPattern, CovidSpelled, "");
    if |s| < |CovidPattern| {
      forall i | 0 <= i < |r| ensures r[i] != ' ' {
        assert r[i] in s;
      }
    } else {
      var k := if MatchesAt(s, CovidPattern, "") then |CovidPattern| else 1;
      var t := s[k..];
      assert ' ' !in t by {
        assert forall c :: c in t ==> c in s;
      }
      CovidSpacesSpelled(t);
      if k == 1 {
        assert s[0] in s;
        SpacesSpelledCons(s[0], ReplaceAll(t, CovidPattern, CovidSpelled, ""));
      } else {
        SpacesSpelledSpelled(ReplaceAll(t, CovidPattern, CovidSpelled, ""));
      }
    }
  }

  /** A text whose spaces all lie inside a `COVID 19` does not start with `OVID 19`. */
  lemma SpacedNotTail(rest: string)
    requires SpacesSpelled(rest)
    ensures !IsPrefix(CovidSpelled[1..], rest)
  {
    if |rest| >= 7 {
      assert rest[4] != ' ';
      assert rest[..7][4] == rest[4];
    }
  }

  /** Spelling `COVID 19` back as `COVID19` undoes the rewrite of a text without spaces. */
  lemma {:induction false} CovidRoundTrip(s: string)
    requires ' ' !in s
    ensures ReplaceAll(ReplaceAll(s, CovidPattern, CovidSpelled, ""), CovidSpelled, CovidPattern, "") == s
    decreases |s|
  {
    var r := ReplaceAll(s, CovidPattern, CovidSpelled, "");
    if |s| < |CovidPattern| {
      MissingCharNotContained(s, CovidSpelled, ' ');
      ReplaceAbsent(s, CovidSpelled, CovidPattern);
    } else if MatchesAt(s, CovidPattern, "") {
      var t := s[|CovidPattern|..];
      assert ' ' !in t by {
        assert forall c :: c in t ==> c in s;
      }
      var rest := ReplaceAll(t, CovidPattern, CovidSpelled, "");
      CovidRoundTrip(t);
      assert r == CovidSpelled + rest;
      assert MatchesAt(r, CovidSpelled, "");
      assert r[|CovidSpelled|..] == rest;
      assert s == CovidPattern + t;
    } else {
      var t := s[1..];
      assert ' ' !in t by {
        assert forall c :: c in t ==> c in s;
      }
      var rest := ReplaceAll(t, CovidPattern, CovidSpelled, "");
      CovidRoundTrip(t);
      CovidSpacesSpelled(t);
      assert r == [s[0]] + rest;
      SpacedNotTail(rest);
      PrefixCons(CovidSpelled, s[0], rest);
      ReplaceStep(r, CovidSpelled, CovidPattern, "");
      assert r[1..] == rest;
      assert s == [s[0]] + t;
    }
  }

  /**
    Pre-processing leaves no `COVID19` anywhere, every space it leaves
    belongs to a `COVID 19` it wrote, and it changes nothing else: spelling
    each `COVID 19` back as `COVID19` gives the text with every 併 and every
    space deleted.
  */
  lemma PreprocessSpellsCovid(input: string)
    ensures !Contains(Preprocess(input), CovidPattern)
    ensures SpacesSpelled(Preprocess(input))
    ensures ReplaceAll(Preprocess(input), CovidSpelled, CovidPattern, "") == DeleteChar(DeleteChar(input, '併'), ' ')
  {
    var s := DeleteChar(DeleteChar(input, '併'), ' ');
    CovidRewritten(s);
    CovidSpacesSpelled(s);
    CovidRoundTrip(s);
  }

  /** What the scanning loop appends, from the remaining text `s` on. */
  function Segment(d: Dictionary, s: string): (r: seq<string>)
    requires Trie.Valid(d)
    ensures |r| <= |s|
    decreases |s|
  {
    if s == [] then []
    else
      match LongestPrefix(d, s)
      case None => Segment(d, s[1..])
      case Some(p) =>
        var rest := s[|p|..];
        [if rest == CovidDashed then CovidSpelled else p] + Segment(d, rest)
  }

  /** Where a key `p` starts the text, the scan records it (or `COVID 19`) and goes on after it. */
  lemma SegmentMatch(d: Dictionary, s: string, p: string)
    requires Trie.Valid(d) && s != [] && LongestPrefix(d, s) == Some(p)
    ensures 0 < |p| <= |s|
    ensures Segment(d, s) == [if s[|p|..] == CovidDashed then CovidSpelled else p] + Segment(d, s[|p|..])
    ensures Greedy(d, s) == [p] + Greedy(d, s[|p|..])
  {
  }

  /** Where no key starts the text, both scans drop one character. */
  lemma SegmentSkip(d: Dictionary, s: string)
    requires Trie.Valid(d) && s != [] && LongestPrefix(d, s).None?
    ensures Segment(d, s) == Segment(d, s[1..])
    ensures Greedy(d, s) == Greedy(d, s[1..])
  {
  }

  /**
    The scan is the plain longest-prefix segmentation, except that a key
    leaving exactly `COVID-19` behind is recorded as `COVID 19`.
  */
  lemma {:induction false} SegmentIsGreedy(d: Dictionary, s: string)
    requires Trie.Valid(d)
    ensures |Segment(d, s)| == |Greedy(d, s)|
    ensures forall i :: 0 <= i < |Segment(d, s)| ==>
      Segment(d, s)[i] == Greedy(d, s)[i] || Segment(d, s)[i] == CovidSpelled
    decreases |s|
  {
    if s != [] {
      var lp := LongestPrefix(d, s);
      if lp.None? {
        SegmentSkip(d, s);
        SegmentIsGreedy(d, s[1..]);
      } else {
        var p := lp.value;
        var rest := s[|p|..];
        SegmentMatch(d, s, p);
        SegmentIsGreedy(d, rest);
        SameOrCovidCons(if rest == CovidDashed then CovidSpelled else p, p, Segment(d, rest), Greedy(d, rest));
      }
    }
  }

  /** `a` is `b` with some entries replaced by `COVID 19`. */
  predicate SameOrCovid(a: seq<string>, b: seq<string>) {
    |a| == |b| && forall i :: 0 <= i < |a| ==> a[i] == b[i] || a[i] == CovidSpelled
  }

  /** Putting `p`, or `COVID 19` in its place, in front of both keeps the relation. */
  lemma SameOrCovidCons(x: string, p: string, a: seq<string>, b: seq<string>)
    requires SameOrCovid(a, b) && (x == p || x == CovidSpelled)
    ensures SameOrCovid([x] + a, [p] + b)
  {
    forall i | 0 <= i < |a| + 1 ensures ([x] + a)[i] == ([p] + b)[i] || ([x] + a)[i] == CovidSpelled {
      if i > 0 {
        assert ([x] + a)[i] == a[i - 1] && ([p] + b)[i] == b[i - 1];
      }
    }
  }

  /** Without `COVID-19` in the text the scan is exactly the longest-prefix segmentation. */
  lemma {:induction false} SegmentWithoutCovid(d: Dictionary, s: string)
    requires Trie.Valid(d) && !Contains(s, CovidDashed)
    ensures Segment(d, s) == Greedy(d, s)
    decreases |s|
  {
    if s != [] {
      var lp := LongestPrefix(d, s);
      if lp.None? {
        SegmentSkip(d, s);
        SuffixContains(s, 1, CovidDashed);
        SegmentWithoutCovid(d, s[1..]);
      } else {
        var rest := s[|lp.value|..];
        SegmentMatch(d, s, lp.value);
        SuffixContains(s, |lp.value|, CovidDashed);
        assert rest != CovidDashed by {
          assert rest == CovidDashed ==> IsPrefix(CovidDashed, rest);
        }
        SegmentWithoutCovid(d, rest);
      }
    }
  }

  /** An occurrence in a suffix is an occurrence in the whole text. */
  lemma {:induction false} SuffixContains(s: string, k: nat, w: string)
    requires k <= |s|
    ensures Contains(s[k..], w) ==> Contains(s, w)
    decreases k
  {
    if k > 0 {
      assert s[k..] == s[1..][k - 1..];
      SuffixContains(s[1..], k - 1, w);
    }
  }

  /** The tokenizer's state: the keys loaded into its trie. */
  datatype LegacyIcdTokenizer = LegacyIcdTokenizer(dict: Dictionary)
  {
    predicate Valid() {
      Trie.Valid(dict)
    }
  }

  /** `extract_icd`: pre-process, then the scanning loop. */
  method ExtractIcd(tk: LegacyIcdTokenizer, text: string) returns (result: seq<string>)
    requires tk.Valid()
    ensures result == Segment(tk.dict, Preprocess(text))
  {
    var input := Preprocess(text);
    result := Scan(tk, input);
  }

  /** The `while input != ""` loop. */
  method Scan(tk: LegacyIcdTokenizer, text: string) returns (result: seq<string>)
    requires tk.Valid()
    ensures result == Segment(tk.dict, text)
  {
    var input := text;
    result := [];
    while input != ""
      invariant result + Segment(tk.dict, input) == Segment(tk.dict, text)
      decreases |input|
    {
      var prefix := LongestPrefix(tk.dict, input);
      if prefix.None? {
        SegmentSkip(tk.dict, input);
        input := input[1..];
      } else {
        var p := prefix.value;
        SegmentMatch(tk.dict, input, p);
        input := input[|p|..];
        if input == CovidDashed {
          p := CovidSpelled;
        }
        AppendAssoc(result, [p], Segment(tk.dict, input));
        result := result + [p];
      }
    }
  }

  /** A text that pre-processes to nothing yields no terms. */
  lemma EmptyYieldsNothing(tk: LegacyIcdTokenizer, text: string)
    requires tk.Valid() && Preprocess(text) == ""
    ensures Segment(tk.dict, Preprocess(text)) == []
  {
  }
}
