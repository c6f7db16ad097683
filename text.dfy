/**
  String and sequence helpers shared by the tokenizer, the validator and the
  record bookkeeping.  Each one models a Python built-in the repository relies
  on: `startswith`, `in` on strings, `re.sub`/`str.replace` with a literal
  pattern, `str.count`, `str.split`, `str.upper`, `str(int)` and `str.zfill`.
*/
module Text {

  datatype Option<T> = None | Some(value: T)

  /** `p` is a prefix of `s` (Python `s.startswith(p)`). */
  predicate IsPrefix<T(==)>(p: seq<T>, s: seq<T>) {
    |p| <= |s| && s[..|p|] == p
  }

  /** Python `w in s` on strings: `w` occurs contiguously somewhere in `s`. */
  predicate Contains(s: string, w: string)
    decreases |s|
  {
    IsPrefix(w, s) || (s != [] && Contains(s[1..], w))
  }

  /** Every character of an occurrence of `w` is a character of `s`. */
  lemma {:induction false} ContainsChars(s: string, w: string)
    requires Contains(s, w)
    ensures forall c :: c in w ==> c in s
    decreases |s|
  {
    if IsPrefix(w, s) {
      forall c | c in w ensures c in s {
        var i :| 0 <= i < |w| && w[i] == c;
        assert s[i] == c;
      }
    } else {
      ContainsChars(s[1..], w);
      forall c | c in w ensures c in s {
        assert c in s[1..];
      }
    }
  }

  /** A text lacking one of the characters of `w` does not contain `w`. */
  lemma {:induction false} MissingCharNotContained(s: string, w: string, c: char)
    requires c in w && c !in s
    ensures !Contains(s, w)
    decreases |s|
  {
    var i :| 0 <= i < |w| && w[i] == c;
    if |w| <= |s| {
      assert s[..|w|][i] == s[i] && s[i] in s;
    }
    if s != [] {
      MissingCharNotContained(s[1..], w, c);
    }
  }

  /** An occurrence of `w` in `s` is still an occurrence in `s` with text added in front. */
  lemma {:induction false} ContainsPrepend(x: string, s: string, w: string)
    requires Contains(s, w)
    ensures Contains(x + s, w)
    decreases |x|
  {
    if x == [] {
      assert x + s == s;
    } else {
      ContainsPrepend(x[1..], s, w);
      assert (x + s)[1..] == x[1..] + s;
    }
  }

  /** A prefix occurrence of `w` in `s` survives text appended behind `s`. */
  lemma PrefixAppend<T>(w: seq<T>, s: seq<T>, y: seq<T>)
    requires IsPrefix(w, s)
    ensures IsPrefix(w, s + y)
  {
    assert (s + y)[..|w|] == s[..|w|];
  }

  /** An occurrence of `w` in `s` is still an occurrence with text appended behind `s`. */
  lemma {:induction false} ContainsAppend(s: string, w: string, y: string)
    requires Contains(s, w)
    ensures Contains(s + y, w)
    decreases |s|
  {
    if IsPrefix(w, s) {
      PrefixAppend(w, s, y);
    } else {
      ContainsAppend(s[1..], w, y);
      assert (s + y)[1..] == s[1..] + y;
    }
  }

  /**
    A match of the literal pattern `pat` at the start of `s` that is not
    followed by `guard`: the regular expression `pat(?!guard)`, or plain
    `pat` when `guard` is empty.  The lookahead looks at the original text.
  */
  predicate MatchesAt(s: string, pat: string, guard: string) {
    IsPrefix(pat, s) && !(guard != [] && IsPrefix(guard, s[|pat|..]))
  }

  /**
    `re.sub(pat(?!guard), rep, s)` for a literal pattern: scans left to right
    and replaces every non-overlapping match.  With an empty guard this is
    also Python's `s.replace(pat, rep)`.
  */
  function ReplaceAll(s: string, pat: string, rep: string, guard: string): (r: string)
    requires pat != []
    ensures forall c :: c in r ==> c in s || c in rep
    ensures pat[0] !in s ==> r == s
    ensures |pat| == 1 && rep == [] && guard == [] ==> pat[0] !in r
    decreases |s|
  {
    if |s| < |pat| then
      s
    else if MatchesAt(s, pat, guard) then
      rep + ReplaceAll(s[|pat|..], pat, rep, guard)
    else
      [s[0]] + ReplaceAll(s[1..], pat, rep, guard)
  }

  /**
    A word none of whose characters occurs in `pat` survives the rewrite:
    no match can overlap an occurrence of it.
  */
  lemma {:induction false} ReplaceKeepsPrefix(s: string, pat: string, rep: string, guard: string, w: string)
    requires pat != []
    requires IsPrefix(w, s)
    requires forall c :: c in w ==> c !in pat
    ensures IsPrefix(w, ReplaceAll(s, pat, rep, guard))
    decreases |s|
  {
    if w == [] {
    } else if |s| < |pat| {
    } else {
      assert s[0] == w[0] && w[0] in w && pat[0] in pat;
      assert pat[0] != s[0];
      assert !MatchesAt(s, pat, guard);
      ReplaceKeepsPrefix(s[1..], pat, rep, guard, w[1..]);
      var r := ReplaceAll(s[1..], pat, rep, guard);
      assert ReplaceAll(s, pat, rep, guard) == [s[0]] + r;
      assert ([s[0]] + r)[..|w|] == [s[0]] + r[..|w| - 1];
    }
  }

  /** `Contains(s, w)` is preserved by a rewrite whose pattern shares no character with `w`. */
  lemma {:induction false} ReplaceKeepsContains(s: string, pat: string, rep: string, guard: string, w: string)
    requires pat != []
    requires Contains(s, w)
    requires forall c :: c in w ==> c !in pat
    ensures Contains(ReplaceAll(s, pat, rep, guard), w)
    decreases |s|
  {
    var r := ReplaceAll(s, pat, rep, guard);
    if IsPrefix(w, s) {
      ReplaceKeepsPrefix(s, pat, rep, guard, w);
    } else if |s| < |pat| {
    } else if MatchesAt(s, pat, guard) {
      // the occurrence of w starts at or after the end of the match
      SkipMatch(s, pat, w);
      ReplaceKeepsContains(s[|pat|..], pat, rep, guard, w);
      ContainsPrepend(rep, ReplaceAll(s[|pat|..], pat, rep, guard), w);
    } else {
      ReplaceKeepsContains(s[1..], pat, rep, guard, w);
      ContainsPrepend([s[0]], ReplaceAll(s[1..], pat, rep, guard), w);
    }
  }

  /** An occurrence of `w` that does not start at 0 and shares no character with a prefix `pat` lies after `pat`. */
  lemma {:induction false} SkipMatch(s: string, pat: string, w: string)
    requires pat != [] && IsPrefix(pat, s) && w != []
    requires Contains(s, w) && !IsPrefix(w, s)
    requires forall c :: c in w ==> c !in pat
    ensures Contains(s[|pat|..], w)
    decreases |pat|
  {
    if |pat| == 1 {
      assert s[1..] == s[|pat|..];
    } else {
      assert s != [] && Contains(s[1..], w);
      assert s[1..][..|pat| - 1] == s[1..|pat|];
      assert IsPrefix(pat[1..], s[1..]);
      assert s[1] == pat[1] && pat[1] in pat && w[0] in w;
      assert !IsPrefix(w, s[1..]);
      forall c | c in w ensures c !in pat[1..] { }
      SkipMatch(s[1..], pat[1..], w);
      assert s[1..][|pat| - 1..] == s[|pat|..];
    }
  }

  /** An occurrence of `w` is an occurrence of each prefix of `w`. */
  lemma {:induction false} ContainsShorter(s: string, w: string, v: string)
    requires Contains(s, w) && IsPrefix(v, w)
    ensures Contains(s, v)
    decreases |s|
  {
    if IsPrefix(w, s) {
      assert s[..|v|] == w[..|v|];
    } else {
      ContainsShorter(s[1..], w, v);
    }
  }

  /** A prefix of a text with a first character: empty, or that character followed by a prefix of the rest. */
  lemma PrefixCons(w: string, c: char, t: string)
    ensures IsPrefix(w, [c] + t) <==> w == [] || (w[0] == c && IsPrefix(w[1..], t))
  {
    if w != [] && |w| <= |t| + 1 {
      assert ([c] + t)[..|w|] == [c] + t[..|w| - 1];
      assert w == [w[0]] + w[1..];
    }
  }

  /** A text shorter than `w` does not contain it. */
  lemma {:induction false} ShortNotContained(s: string, w: string)
    requires |s| < |w|
    ensures !Contains(s, w)
    decreases |s|
  {
    if s != [] {
      ShortNotContained(s[1..], w);
    }
  }

  /** No occurrence of `w` starts inside `x`, and none lies in `t`: there is none in `x + t`. */
  lemma {:induction false} NotContainedAcross(x: string, t: string, w: string)
    requires !Contains(t, w)
    requires forall k :: 0 <= k < |x| ==> !IsPrefix(w, x[k..] + t)
    ensures !Contains(x + t, w)
    decreases |x|
  {
    if x == [] {
      assert x + t == t;
    } else {
      forall k | 0 <= k < |x| - 1 ensures !IsPrefix(w, x[1..][k..] + t) {
        assert x[1..][k..] == x[k + 1..];
      }
      NotContainedAcross(x[1..], t, w);
      assert (x + t)[1..] == x[1..] + t;
      assert x[0..] == x;
    }
  }

  /** Where no match starts, the rewrite keeps the first character and goes on with the rest. */
  lemma ReplaceStep(s: string, pat: string, rep: string, guard: string)
    requires pat != [] && s != [] && !MatchesAt(s, pat, guard)
    ensures ReplaceAll(s, pat, rep, guard) == [s[0]] + ReplaceAll(s[1..], pat, rep, guard)
  {
    assert s == [s[0]] + s[1..];
  }

  /**
    A prefix of the rewritten text that lacks the replacement's first
    character was already a prefix of the text: no replacement can start
    inside it.
  */
  lemma {:induction false} ReplacePrefixBack(t: string, pat: string, rep: string, w: string)
    requires pat != [] && rep != [] && rep[0] !in w
    ensures IsPrefix(w, ReplaceAll(t, pat, rep, "")) ==> IsPrefix(w, t)
    decreases |t|
  {
    var r := ReplaceAll(t, pat, rep, "");
    if w != [] && |t| >= |pat| {
      if MatchesAt(t, pat, "") {
        assert r[0] == rep[0] && w[0] in w;
      } else {
        assert rep[0] !in w[1..] by {
          assert forall c :: c in w[1..] ==> c in w;
        }
        ReplacePrefixBack(t[1..], pat, rep, w[1..]);
        assert r == [t[0]] + ReplaceAll(t[1..], pat, rep, "");
        if IsPrefix(w, r) {
          assert r[..|w|] == [t[0]] + ReplaceAll(t[1..], pat, rep, "")[..|w| - 1];
          assert t[..|w|] == [t[0]] + t[1..][..|w| - 1];
        }
      }
    }
  }

  /** An occurrence of `w` holds an occurrence of `w` without its first character. */
  lemma {:induction false} ContainsTail(s: string, w: string)
    requires w != [] && Contains(s, w)
    ensures Contains(s, w[1..])
    decreases |s|
  {
    if IsPrefix(w, s) {
      assert s[1..][..|w| - 1] == w[1..];
    } else {
      ContainsTail(s[1..], w);
    }
  }

  /** Python `s.count(w)`: the number of non-overlapping occurrences, scanning left to right. */
  function Count(s: string, w: string): (n: nat)
    requires w != []
    ensures n > 0 ==> Contains(s, w)
    decreases |s|
  {
    if |s| < |w| then 0
    else if IsPrefix(w, s) then 1 + Count(s[|w|..], w)
    else Count(s[1..], w)
  }

  /** Concatenation is associative; stated for the loops that append while a suffix shrinks. */
  lemma AppendAssoc<T>(a: seq<T>, b: seq<T>, c: seq<T>)
    ensures (a + b) + c == a + (b + c)
  {
  }

  /** `a` is a subsequence of `b`: obtained by deleting elements, keeping the order. */
  predicate IsSubseq<T(==)>(a: seq<T>, b: seq<T>)
    decreases |b|
  {
    a == [] ||
    (b != [] &&
      ((a[|a| - 1] == b[|b| - 1] && IsSubseq(a[..|a| - 1], b[..|b| - 1])) ||
       IsSubseq(a, b[..|b| - 1])))
  }

  lemma {:induction false} SubseqMembers<T>(a: seq<T>, b: seq<T>)
    requires IsSubseq(a, b)
    ensures |a| <= |b|
    ensures forall x :: x in a ==> x in b
    decreases |b|
  {
    if a == [] {
    } else if a[|a| - 1] == b[|b| - 1] && IsSubseq(a[..|a| - 1], b[..|b| - 1]) {
      SubseqMembers(a[..|a| - 1], b[..|b| - 1]);
      assert a == a[..|a| - 1] + [a[|a| - 1]];
      assert b == b[..|b| - 1] + [b[|b| - 1]];
    } else {
      SubseqMembers(a, b[..|b| - 1]);
      assert b == b[..|b| - 1] + [b[|b| - 1]];
    }
  }

  lemma SubseqRefl<T>(a: seq<T>)
    ensures IsSubseq(a, a)
    decreases |a|
  {
    if a != [] {
      SubseqRefl(a[..|a| - 1]);
    }
  }

  /** Appending the same element to both sides keeps the relation. */
  lemma SubseqSnoc<T>(a: seq<T>, b: seq<T>, x: T)
    requires IsSubseq(a, b)
    ensures IsSubseq(a + [x], b + [x])
  {
    assert (a + [x])[..|a|] == a;
    assert (b + [x])[..|b|] == b;
  }

  /** Appending to the right-hand side only keeps the relation. */
  lemma SubseqExtend<T>(a: seq<T>, b: seq<T>, x: T)
    requires IsSubseq(a, b)
    ensures IsSubseq(a, b + [x])
  {
    assert (b + [x])[..|b|] == b;
  }

  /** The relation against `b + [x]`, unfolded once. */
  lemma SubseqLast<T>(a: seq<T>, b: seq<T>, x: T)
    ensures IsSubseq(a, b + [x]) <==>
      a == [] || (a[|a| - 1] == x && IsSubseq(a[..|a| - 1], b)) || IsSubseq(a, b)
  {
    assert (b + [x])[..|b|] == b;
  }

  lemma {:induction false} SubseqTrans<T>(a: seq<T>, b: seq<T>, c: seq<T>)
    requires IsSubseq(a, b) && IsSubseq(b, c)
    ensures IsSubseq(a, c)
    decreases |c|
  {
    if a == [] {
    } else {
      SubseqMembers(b, c);
      SubseqMembers(a, b);
      var b', c' := b[..|b| - 1], c[..|c| - 1];
      if b[|b| - 1] == c[|c| - 1] && IsSubseq(b', c') {
        if a[|a| - 1] == b[|b| - 1] && IsSubseq(a[..|a| - 1], b') {
          SubseqTrans(a[..|a| - 1], b', c');
        } else {
          SubseqTrans(a, b', c');
        }
      } else {
        SubseqTrans(a, b, c');
      }
    }
  }

  /**
    Python `s.split(sep)` for a one-character separator: never empty, and
    `"".split(",") == [""]`.
  */
  function Split(s: string, sep: char): (parts: seq<string>)
    ensures |parts| >= 1
    ensures forall i :: 0 <= i < |parts| ==> sep !in parts[i]
    ensures Join(parts, sep) == s
    decreases |s|
  {
    if s == [] then [[]]
    else
      var ps := Split(s[..|s| - 1], sep);
      var last := s[|s| - 1];
      assert s == s[..|s| - 1] + [last];
      if last == sep then ps + [[]]
      else
        var ps' := ps[..|ps| - 1] + [ps[|ps| - 1] + [last]];
        assert ps'[..|ps'| - 1] == ps[..|ps| - 1];
        ps'
  }

  /** Python `sep.join(parts)`. */
  function Join(parts: seq<string>, sep: char): string
    decreases |parts|
  {
    if parts == [] then []
    else if |parts| == 1 then parts[0]
    else Join(parts[..|parts| - 1], sep) + [sep] + parts[|parts| - 1]
  }

  /** A string without the separator splits into itself alone. */
  lemma {:induction false} SplitNoSeparator(s: string, sep: char)
    requires sep !in s
    ensures Split(s, sep) == [s]
    decreases |s|
  {
    if s != [] {
      SplitNoSeparator(s[..|s| - 1], sep);
      assert s == s[..|s| - 1] + [s[|s| - 1]];
    }
  }

  /** The last element of `a + b`, and what comes before it, for a non-empty `b`. */
  lemma DropLast<T>(a: seq<T>, b: seq<T>)
    requires b != []
    ensures (a + b)[..|a + b| - 1] == a + b[..|b| - 1]
    ensures (a + b)[|a + b| - 1] == b[|b| - 1]
  {
  }

  /** Splitting `x + sep + y`, where `y` has no separator, splits `x` and adds `y` as the last part. */
  lemma {:induction false} SplitAfterSeparator(x: string, sep: char, y: string)
    requires sep !in y
    ensures Split(x + [sep] + y, sep) == Split(x, sep) + [y]
    decreases |y|
  {
    if y == [] {
      assert x + [sep] + y == x + [sep];
      SplitAtSeparator(x, sep);
    } else {
      var y' := y[..|y| - 1];
      SplitAfterSeparator(x, sep, y');
      DropLast(x + [sep], y);
      DropLast(Split(x, sep), [y']);
      assert y == y' + [y[|y| - 1]];
    }
  }

  /** A separator at the end opens an empty last part. */
  lemma SplitAtSeparator(x: string, sep: char)
    ensures Split(x + [sep], sep) == Split(x, sep) + [[]]
  {
    assert (x + [sep])[..|x|] == x;
  }

  /** The inverse direction of the round trip: splitting what was joined gives the parts back. */
  lemma {:induction false} SplitJoin(parts: seq<string>, sep: char)
    requires |parts| >= 1
    requires forall i :: 0 <= i < |parts| ==> sep !in parts[i]
    ensures Split(Join(parts, sep), sep) == parts
    decreases |parts|
  {
    if |parts| == 1 {
      SplitNoSeparator(parts[0], sep);
    } else {
      var front, last := parts[..|parts| - 1], parts[|parts| - 1];
      assert forall i :: 0 <= i < |front| ==> front[i] == parts[i];
      calc {
        Split(Join(parts, sep), sep);
        Split(Join(front, sep) + [sep] + last, sep);
        { SplitAfterSeparator(Join(front, sep), sep, last); }
        Split(Join(front, sep), sep) + [last];
        { SplitJoin(front, sep); }
        front + [last];
        parts;
      }
    }
  }

  /** Python `s.replace(c, "")` for one character. */
  function DeleteChar(s: string, c: char): (r: string)
    ensures c !in r
    ensures forall x :: x in r ==> x in s
    ensures c !in s ==> r == s
    decreases |s|
  {
    if s == [] then []
    else if s[0] == c then DeleteChar(s[1..], c)
    else [s[0]] + DeleteChar(s[1..], c)
  }

  predicate IsLowerAscii(c: char) { 'a' <= c <= 'z' }

  function UpperChar(c: char): char {
    if IsLowerAscii(c) then (c as int - 32) as char else c
  }

  /** Python `s.upper()`, restricted to the ASCII letters. */
  function Upper(s: string): (r: string)
    ensures |r| == |s|
    ensures forall c :: c in r ==> !IsLowerAscii(c)
  {
    seq(|s|, i requires 0 <= i < |s| => UpperChar(s[i]))
  }

  /** Upper-casing is idempotent, so upper-cased text contains no lower-case letter to map. */
  lemma UpperIdempotent(s: string)
    ensures Upper(Upper(s)) == Upper(s)
  {
  }

  function DigitChar(d: nat): char
    requires d < 10
  {
    ('0' as int + d) as char
  }

  predicate AllDigits(s: string) {
    forall i :: 0 <= i < |s| ==> '0' <= s[i] <= '9'
  }

  /** Decimal digits of a natural number, most significant first, without leading zeros. */
  function Digits(n: nat): (r: string)
    ensures |r| >= 1 && AllDigits(r)
    ensures n > 0 ==> r[0] != '0'
    decreases n
  {
    if n < 10 then [DigitChar(n)] else Digits(n / 10) + [DigitChar(n % 10)]
  }

  /** Python `str(n)` for an integer. */
  function Str(n: int): (r: string)
    ensures n >= 0 ==> AllDigits(r) && Value(r) == n
    ensures n < 0 ==> |r| >= 2 && r[0] == '-' && AllDigits(r[1..]) && Value(r[1..]) == -n
  {
    if n < 0 then
      ValueDigits(-n);
      assert ("-" + Digits(-n))[1..] == Digits(-n);
      "-" + Digits(-n)
    else
      ValueDigits(n);
      Digits(n)
  }

  /** The number a string of decimal digits denotes. */
  function Value(s: string): nat
    requires AllDigits(s)
    decreases |s|
  {
    if s == [] then 0
    else
      Value(s[..|s| - 1]) * 10 + (s[|s| - 1] as int - '0' as int)
  }

  lemma {:induction false} ValueDigits(n: nat)
    ensures Value(Digits(n)) == n
    decreases n
  {
    if n >= 10 {
      ValueDigits(n / 10);
      var r := Digits(n);
      assert r[..|r| - 1] == Digits(n / 10);
    }
  }

  function Zeros(k: nat): (r: string)
    ensures |r| == k && forall c :: c in r ==> c == '0'
  {
    seq(k, i => '0')
  }

  /** Leading zeros do not change the value. */
  lemma {:induction false} ValueLeadingZeros(k: nat, s: string)
    requires AllDigits(s)
    ensures AllDigits(Zeros(k) + s) && Value(Zeros(k) + s) == Value(s)
    decreases |s| + k
  {
    var z := Zeros(k) + s;
    if s == [] {
      if k > 0 {
        assert z[..|z| - 1] == Zeros(k - 1);
        ValueLeadingZeros(k - 1, []);
        assert Zeros(k - 1) + [] == Zeros(k - 1);
      }
    } else {
      ValueLeadingZeros(k, s[..|s| - 1]);
      assert z[..|z| - 1] == Zeros(k) + s[..|s| - 1];
    }
  }

  /** Python `s.zfill(width)`: pads with zeros after an optional leading sign. */
  function ZFill(s: string, width: nat): (r: string)
    ensures |r| == if |s| >= width then |s| else width
    ensures |s| >= width ==> r == s
    ensures AllDigits(s) ==> AllDigits(r) && Value(r) == Value(s)
  {
    if |s| >= width then s
    else if s != [] && (s[0] == '+' || s[0] == '-') then [s[0]] + Zeros(width - |s|) + s[1..]
    else
      if AllDigits(s) then
        ValueLeadingZeros(width - |s|, s);
        Zeros(width - |s|) + s
      else
        Zeros(width - |s|) + s
  }

  /**
    For a natural number, the zero-filled decimal text is exactly `width`
    characters wide unless the number needs more, is all digits, and still
    denotes the number: the round trip of `str(n).zfill(width)`.
  */
  lemma ZFillNatural(n: nat, width: nat)
    ensures var r := ZFill(Str(n), width);
      |r| == (if |Digits(n)| >= width then |Digits(n)| else width) &&
      AllDigits(r) && Value(r) == n
  {
    var d := Digits(n);
    ValueDigits(n);
    assert Str(n) == d;
    if |d| < width {
      ValueLeadingZeros(width - |d|, d);
      assert d[0] != '+' && d[0] != '-';
      assert ZFill(d, width) == Zeros(width - |d|) + d;
    }
  }

}
