/**
  The diagnosis dictionary as the tokenizers use it.  Both tokenizers load
  every diagnosis into a `pygtrie.CharTrie` and only ask it four questions;
  here the trie is the set of its keys and each question is a predicate or
  function over that set.  `Greedy` is the plain longest-prefix segmentation
  that both tokenizers' loops perform, and `GreedyCover` characterises it.
*/
module Trie {
  import opened Text

  /** The keys of the trie. */
  type Dictionary = set<string>

  /**
    No key is empty.  With an empty key `longest_prefix` would always find
    at least `""`, and the segmentation loops, which strip the match, would
    never end.
  */
  predicate Valid(d: Dictionary) {
    "" !in d
  }

  /** `trie.has_node(p) != 0`: some key starts with `p` (or equals it). */
  predicate HasNode(d: Dictionary, p: string) {
    exists k | k in d :: IsPrefix(p, k)
  }

  /** `trie.has_subtrie(p)`: some key strictly longer than `p` starts with `p`. */
  predicate HasSubtrie(d: Dictionary, p: string) {
    exists k | k in d :: |p| < |k| && IsPrefix(p, k)
  }

  /** A prefix of a node is a node. */
  lemma NodePrefix(d: Dictionary, p: string, q: string)
    requires HasNode(d, p) && IsPrefix(q, p)
    ensures HasNode(d, q)
  {
    var k :| k in d && IsPrefix(p, k);
    assert k[..|q|] == p[..|q|];
  }

  /** The longest key among `s[..0]`, ..., `s[..n]`, trying the longest first. */
  function LongestPrefixUpTo(d: Dictionary, s: string, n: nat): (r: Option<string>)
    requires n <= |s|
    ensures r.Some? ==> r.value in d && IsPrefix(r.value, s) && |r.value| <= n
    ensures r.Some? ==> forall m :: |r.value| < m <= n ==> s[..m] !in d
    ensures r.None? ==> forall m :: 0 <= m <= n ==> s[..m] !in d
    decreases n
  {
    if s[..n] in d then Some(s[..n])
    else if n == 0 then None
    else LongestPrefixUpTo(d, s, n - 1)
  }

  /** `trie.longest_prefix(s).key`: the longest key that is a prefix of `s`, if any. */
  function LongestPrefix(d: Dictionary, s: string): (r: Option<string>)
    ensures r.Some? ==> r.value in d && IsPrefix(r.value, s)
    ensures r.Some? ==> forall k :: k in d && IsPrefix(k, s) ==> |k| <= |r.value|
    ensures r.None? ==> forall k :: k in d ==> !IsPrefix(k, s)
  {
    LongestPrefixUpTo(d, s, |s|)
  }

  /**
    Longest-prefix segmentation: take the longest key that starts the text
    and continue after it; where no key starts the text, drop one character.
  */
  function Greedy(d: Dictionary, s: string): (r: seq<string>)
    requires Valid(d)
    ensures |r| <= |s|
    ensures forall x :: x in r ==> x in d
    decreases |s|
  {
    if s == [] then []
    else
      match LongestPrefix(d, s)
      case None => Greedy(d, s[1..])
      case Some(p) => [p] + Greedy(d, s[|p|..])
  }

  function Offset(xs: seq<nat>, n: nat): (r: seq<nat>)
    ensures |r| == |xs| && forall i :: 0 <= i < |xs| ==> r[i] == xs[i] + n
  {
    seq(|xs|, i requires 0 <= i < |xs| => xs[i] + n)
  }

  /** Where in `s` each element of `Greedy(d, s)` was found. */
  ghost function Starts(d: Dictionary, s: string): seq<nat>
    requires Valid(d)
    decreases |s|
  {
    if s == [] then []
    else
      match LongestPrefix(d, s)
      case None => Offset(Starts(d, s[1..]), 1)
      case Some(p) => [0] + Offset(Starts(d, s[|p|..]), |p|)
  }

  /** Position `j` lies inside one of the matches. */
  ghost predicate Covered(st: seq<nat>, g: seq<string>, j: int)
    requires |st| == |g|
  {
    exists k :: 0 <= k < |g| && st[k] <= j < st[k] + |g[k]|
  }

  /**
    `g` found at positions `st` is what a greedy scan of `s` finds: the
    matches lie in the text in order without overlapping, each is the longest
    key that starts at its position, and no key starts at any position
    outside the matches.  Together these pin `g` down uniquely.
  */
  ghost predicate IsGreedyCover(d: Dictionary, s: string, g: seq<string>, st: seq<nat>) {
    |st| == |g| &&
    (forall k :: 0 <= k < |g| ==> st[k] + |g[k]| <= |s| && LongestPrefix(d, s[st[k]..]) == Some(g[k])) &&
    (forall k :: 0 <= k < |g| - 1 ==> st[k] + |g[k]| <= st[k + 1]) &&
    (forall j :: 0 <= j < |s| && !Covered(st, g, j) ==> LongestPrefix(d, s[j..]).None?)
  }

  /** What the greedy loop computes, stated without the loop. */
  lemma {:induction false} GreedyCover(d: Dictionary, s: string)
    requires Valid(d)
    ensures IsGreedyCover(d, s, Greedy(d, s), Starts(d, s))
    decreases |s|
  {
    if s != [] {
      match LongestPrefix(d, s)
      case None =>
        GreedyCover(d, s[1..]);
        CoverAfterSkip(d, s, Greedy(d, s[1..]), Starts(d, s[1..]));
      case Some(p) =>
        GreedyCover(d, s[|p|..]);
        CoverAfterMatch(d, s, p, Greedy(d, s[|p|..]), Starts(d, s[|p|..]));
    }
  }

  /** A match shifted right by `n` covers the shifted position. */
  lemma CoveredOffset(st: seq<nat>, g: seq<string>, i: int, n: nat)
    requires |st| == |g|
    ensures Covered(st, g, i) ==> Covered(Offset(st, n), g, i + n)
  {
    if Covered(st, g, i) {
      var k :| 0 <= k < |g| && st[k] <= i < st[k] + |g[k]|;
      assert Offset(st, n)[k] <= i + n < Offset(st, n)[k] + |g[k]|;
    }
  }

  /** A match put in front at position 0 covers its own positions and keeps the others covered. */
  lemma CoveredCons(st: seq<nat>, g: seq<string>, p: string, i: int)
    requires |st| == |g|
    ensures (0 <= i < |p| || Covered(st, g, i)) ==> Covered([0] + st, [p] + g, i)
  {
    var st1, g1 := [0] + st, [p] + g;
    if 0 <= i < |p| {
      assert st1[0] <= i < st1[0] + |g1[0]|;
    } else if Covered(st, g, i) {
      var k :| 0 <= k < |g| && st[k] <= i < st[k] + |g[k]|;
      assert st1[k + 1] <= i < st1[k + 1] + |g1[k + 1]|;
    }
  }

  /** Dropping a first character that starts no key shifts a cover of the rest by one. */
  lemma CoverAfterSkip(d: Dictionary, s: string, g: seq<string>, st: seq<nat>)
    requires s != [] && LongestPrefix(d, s).None?
    requires IsGreedyCover(d, s[1..], g, st)
    ensures IsGreedyCover(d, s, g, Offset(st, 1))
  {
    var s', st1 := s[1..], Offset(st, 1);
    forall k | 0 <= k < |g| ensures st1[k] + |g[k]| <= |s| && LongestPrefix(d, s[st1[k]..]) == Some(g[k]) {
      assert s[st1[k]..] == s'[st[k]..];
    }
    forall j | 0 < j < |s| && !Covered(st1, g, j) ensures LongestPrefix(d, s[j..]).None? {
      CoveredOffset(st, g, j - 1, 1);
      assert s[j..] == s'[j - 1..];
    }
    assert s[0..] == s;
  }

  /** Taking the longest key `p` at the start puts it in front of a cover of the rest. */
  lemma CoverAfterMatch(d: Dictionary, s: string, p: string, g: seq<string>, st: seq<nat>)
    requires Valid(d) && s != [] && LongestPrefix(d, s) == Some(p)
    requires IsGreedyCover(d, s[|p|..], g, st)
    ensures IsGreedyCover(d, s, [p] + g, [0] + Offset(st, |p|))
  {
    var s', g1, st1 := s[|p|..], [p] + g, [0] + Offset(st, |p|);
    MatchesAfterMatch(d, s, p, g, st);
    forall j | 0 <= j < |s| && !Covered(st1, g1, j) ensures LongestPrefix(d, s[j..]).None? {
      CoveredCons(Offset(st, |p|), g, p, j);
      CoveredOffset(st, g, j - |p|, |p|);
      assert s[j..] == s'[j - |p|..];
    }
  }

  /** The matches of a cover of the rest, shifted behind `p`, are still longest keys in order. */
  lemma MatchesAfterMatch(d: Dictionary, s: string, p: string, g: seq<string>, st: seq<nat>)
    requires Valid(d) && s != [] && LongestPrefix(d, s) == Some(p)
    requires IsGreedyCover(d, s[|p|..], g, st)
    ensures forall k :: 0 <= k < |g| + 1 ==>
      ([0] + Offset(st, |p|))[k] + |([p] + g)[k]| <= |s| &&
      LongestPrefix(d, s[([0] + Offset(st, |p|))[k]..]) == Some(([p] + g)[k])
    ensures forall k :: 0 <= k < |g| ==>
      ([0] + Offset(st, |p|))[k] + |([p] + g)[k]| <= ([0] + Offset(st, |p|))[k + 1]
  {
    ShiftedMatchesFound(d, s, p, g, st);
    ShiftedMatchesOrdered(p, g, st);
  }

  /** Each shifted match is the longest key at its position in `s`. */
  lemma ShiftedMatchesFound(d: Dictionary, s: string, p: string, g: seq<string>, st: seq<nat>)
    requires Valid(d) && s != [] && LongestPrefix(d, s) == Some(p)
    requires IsGreedyCover(d, s[|p|..], g, st)
    ensures forall k :: 0 <= k < |g| + 1 ==>
      ([0] + Offset(st, |p|))[k] + |([p] + g)[k]| <= |s| &&
      LongestPrefix(d, s[([0] + Offset(st, |p|))[k]..]) == Some(([p] + g)[k])
  {
    var s', g1, st1 := s[|p|..], [p] + g, [0] + Offset(st, |p|);
    forall k | 0 <= k < |g1| ensures st1[k] + |g1[k]| <= |s| && LongestPrefix(d, s[st1[k]..]) == Some(g1[k]) {
      if k > 0 {
        assert s[st1[k]..] == s'[st[k - 1]..];
      } else {
        assert s[0..] == s;
      }
    }
  }

  /** Matches that do not overlap still do not once `p` is put in front of them. */
  lemma ShiftedMatchesOrdered(p: string, g: seq<string>, st: seq<nat>)
    requires |st| == |g|
    requires forall k :: 0 <= k < |g| - 1 ==> st[k] + |g[k]| <= st[k + 1]
    ensures forall k :: 0 <= k < |g| ==>
      ([0] + Offset(st, |p|))[k] + |([p] + g)[k]| <= ([0] + Offset(st, |p|))[k + 1]
  {
    var g1, st1 := [p] + g, [0] + Offset(st, |p|);
    forall k | 0 <= k < |g| ensures st1[k] + |g1[k]| <= st1[k + 1] {
      assert st1[k + 1] == st[k] + |p|;
      if k > 0 {
        assert st1[k] == st[k - 1] + |p| && g1[k] == g[k - 1];
      }
    }
  }
}
