/**
  The first half of `extract_icd` (icd_tokenize/tokenizer.py:146-177): the
  causal chain 甲..丁 is rebuilt row by row.  A category whose inputs are all
  empty is skipped, so the categories after it move up; an input that names a
  chain "A導致B" or "A引發B" (A leads to / triggers B) keeps B in its row and
  pushes A into a new row right after it.  The first four rows become the new
  甲..丁; 其他 is left alone.
*/
module Shift {
  import opened Text
  import opened Slots

  const LeadsTo := "導致"
  const Triggers := "引發"

  /**
    `s.split(sep, 1)` when `sep` occurs in `s`: the text before its first
    occurrence and the text after it.
  */
  function SplitFirst(s: string, sep: string): (r: (string, string))
    requires sep != [] && Contains(s, sep)
    ensures s == r.0 + sep + r.1
    ensures forall i :: 0 <= i < |r.0| ==> !IsPrefix(sep, s[i..])
    decreases |s|
  {
    if IsPrefix(sep, s) then
      assert s == [] + sep + s[|sep|..];
      ([], s[|sep|..])
    else
      var r := SplitFirst(s[1..], sep);
      assert s == [s[0]] + s[1..];
      TailSlices(s);
      ([s[0]] + r.0, r.1)
  }

  /** Dropping `i` characters is dropping one, then `i - 1` more. */
  lemma TailSlices(s: string)
    requires s != []
    ensures forall i :: 1 <= i <= |s| ==> s[i..] == s[1..][i - 1..]
  {
    forall i | 1 <= i <= |s| ensures s[i..] == s[1..][i - 1..] {
      assert |s[i..]| == |s[1..][i - 1..]|;
    }
  }

  /** What one input contributes: its entry for the current row and, for a chain, its entry for the next. */
  datatype Unchained = Unchained(current: string, next: Option<string>)

  /**
    A chain is split at the first 導致 when there is one, otherwise at the
    first 引發; the effect stays, the cause moves on.  An input without
    either word stays whole.
  */
  function Unchain(x: string): (u: Unchained)
    ensures Contains(x, LeadsTo) ==> u.next.Some? && x == u.next.value + LeadsTo + u.current
    ensures !Contains(x, LeadsTo) && Contains(x, Triggers) ==>
      u.next.Some? && x == u.next.value + Triggers + u.current
    ensures !Contains(x, LeadsTo) && !Contains(x, Triggers) ==> u == Unchained(x, None)
  {
    if Contains(x, LeadsTo) then
      var (before, after) := SplitFirst(x, LeadsTo);
      Unchained(after, Some(before))
    else if Contains(x, Triggers) then
      var (before, after) := SplitFirst(x, Triggers);
      Unchained(after, Some(before))
    else
      Unchained(x, None)
  }

  /** `current` after the inner loop over the inputs `xs`. */
  function Currents(xs: seq<string>): (r: seq<string>)
    ensures |r| == |xs|
    ensures forall i :: 0 <= i < |xs| ==> r[i] == Unchain(xs[i]).current
    decreases |xs|
  {
    if xs == [] then [] else Currents(xs[..|xs| - 1]) + [Unchain(xs[|xs| - 1]).current]
  }

  /** `next` after the inner loop: the causes split off, in input order. */
  function Nexts(xs: seq<string>): (r: seq<string>)
    ensures |r| <= |xs|
    decreases |xs|
  {
    if xs == [] then []
    else
      match Unchain(xs[|xs| - 1]).next
      case Some(cause) => Nexts(xs[..|xs| - 1]) + [cause]
      case None => Nexts(xs[..|xs| - 1])
  }

  /** With no chain in the inputs, nothing is split off. */
  lemma {:induction false} NoChains(xs: seq<string>)
    requires forall i :: 0 <= i < |xs| ==> !Contains(xs[i], LeadsTo) && !Contains(xs[i], Triggers)
    ensures Currents(xs) == xs && Nexts(xs) == []
    decreases |xs|
  {
    if xs != [] {
      NoChains(xs[..|xs| - 1]);
      assert xs == xs[..|xs| - 1] + [xs[|xs| - 1]];
    }
  }

  predicate AllEmpty(xs: seq<string>) {
    forall i :: 0 <= i < |xs| ==> xs[i] == ""
  }

  /** The rows one category contributes: none when it is all empty, else its row and perhaps a row of causes. */
  function RowsOf(xs: seq<string>): (rows: seq<seq<string>>)
    ensures |rows| <= 2
    ensures AllEmpty(xs) <==> rows == []
    ensures forall k :: 0 <= k < |rows| ==> |rows[k]| >= 4
  {
    if AllEmpty(xs) then []
    else
      var next := Nexts(xs);
      [Pad4(Currents(xs))] + (if next == [] then [] else [Pad4(next)])
  }

  /** `inputs_list` after the outer loop has visited the categories `cs`. */
  function Rows(slots: map<Category, seq<string>>, cs: seq<Category>): (rows: seq<seq<string>>)
    requires forall c :: c in slots
    ensures forall k :: 0 <= k < |rows| ==> |rows[k]| >= 4
    decreases |cs|
  {
    if cs == [] then [] else Rows(slots, cs[..|cs| - 1]) + RowsOf(slots[cs[|cs| - 1]])
  }

  const EmptyRow: seq<string> := ["", "", "", ""]

  /** Rows padded with all-empty rows up to four. */
  function Padded(rows: seq<seq<string>>): (r: seq<seq<string>>)
    ensures |r| >= 4 && |r| >= |rows| && r[..|rows|] == rows
    ensures forall k :: |rows| <= k < |r| ==> r[k] == EmptyRow
    ensures (forall k :: 0 <= k < |rows| ==> |rows[k]| >= 4) ==> forall k :: 0 <= k < |r| ==> |r[k]| >= 4
    decreases 4 - |rows|
  {
    if |rows| < 4 then
      var r := Padded(rows + [EmptyRow]);
      assert r[..|rows|] == r[..|rows| + 1][..|rows|];
      r
    else rows
  }

  /** The first `n` causal categories set to the first `n` rows. */
  function Assigned(slots: map<Category, seq<string>>, rows: seq<seq<string>>, n: nat): (r: map<Category, seq<string>>)
    requires forall c :: c in slots
    requires n <= 4 <= |rows|
    ensures forall c :: c in r
    ensures forall k :: 0 <= k < n ==> r[Causes[k]] == rows[k]
    ensures forall k :: n <= k < 4 ==> r[Causes[k]] == slots[Causes[k]]
    ensures r[Other] == slots[Other]
  {
    if n == 0 then slots else Assigned(slots, rows, n - 1)[Causes[n - 1] := rows[n - 1]]
  }

  /** `inputs` after the shift. */
  function Shifted(slots: map<Category, seq<string>>): (r: map<Category, seq<string>>)
    requires forall c :: c in slots
    ensures forall c :: c in r
    ensures r[Other] == slots[Other]
    ensures forall c :: c != Other ==> |r[c]| >= 4
  {
    var rows := Padded(Rows(slots, Causes));
    AssignedCauses(slots, rows);
    Assigned(slots, rows, 4)
  }

  /** Assigning rows of at least four cells leaves every causal category at least four cells long. */
  lemma AssignedCauses(slots: map<Category, seq<string>>, rows: seq<seq<string>>)
    requires forall c :: c in slots
    requires 4 <= |rows| && forall k :: 0 <= k < |rows| ==> |rows[k]| >= 4
    ensures forall c :: c != Other ==> |Assigned(slots, rows, 4)[c]| >= 4
  {
    var r := Assigned(slots, rows, 4);
    forall c | c != Other ensures |r[c]| >= 4 {
      var k := CauseIndex(c);
      assert r[Causes[k]] == rows[k];
    }
  }

  /** The shift as the source performs it, on the `Data` object in place. */
  method ShiftInputs(inputs: Data)
    requires inputs.Valid()
    modifies inputs
    ensures inputs.Valid()
    ensures inputs.slots == Shifted(old(inputs.slots))
  {
    var rows := CollectRows(inputs.slots, Causes);
    rows := PadRows(rows);
    AssignRows(inputs, rows);
  }

  /** `inputs[cause] = inputs_list[i]` for the four causal categories. */
  method AssignRows(inputs: Data, rows: seq<seq<string>>)
    requires inputs.Valid() && |rows| >= 4
    modifies inputs
    ensures inputs.slots == Assigned(old(inputs.slots), rows, 4)
  {
    var slots := inputs.slots;
    for k := 0 to 4
      invariant inputs.slots == Assigned(slots, rows, k)
    {
      inputs.slots := inputs.slots[Causes[k] := rows[k]];
    }
  }

  /** The outer loop over the categories `cs`. */
  method CollectRows(slots: map<Category, seq<string>>, cs: seq<Category>) returns (rows: seq<seq<string>>)
    requires forall c :: c in slots
    ensures rows == Rows(slots, cs)
  {
    rows := [];
    for k := 0 to |cs|
      invariant rows == Rows(slots, cs[..k])
    {
      assert cs[..k + 1][..k] == cs[..k];
      var more := CategoryRows(slots[cs[k]]);
      rows := rows + more;
    }
    assert cs[..|cs|] == cs;
  }

  /** `while len(inputs_list) < 4: inputs_list.append(["", "", "", ""])`. */
  method PadRows(rows: seq<seq<string>>) returns (r: seq<seq<string>>)
    ensures r == Padded(rows)
  {
    r := rows;
    while |r| < 4
      invariant Padded(r) == Padded(rows)
      decreases 4 - |r|
    {
      r := r + [EmptyRow];
    }
  }

  /** One pass of the outer loop: the rows the inputs `xs` of one category add. */
  method CategoryRows(xs: seq<string>) returns (rows: seq<seq<string>>)
    ensures rows == RowsOf(xs)
  {
    rows := [];
    if exists i :: 0 <= i < |xs| && xs[i] != "" {
      var current, next := SplitChains(xs);
      current := PadRow(current);
      rows := rows + [current];
      if |next| > 0 {
        next := PadRow(next);
        rows := rows + [next];
      }
    }
  }

  /** The inner loop: each input's effect goes to `current`, each cause split off to `next`. */
  method SplitChains(xs: seq<string>) returns (current: seq<string>, next: seq<string>)
    ensures current == Currents(xs) && next == Nexts(xs)
  {
    current, next := [], [];
    for j := 0 to |xs|
      invariant current == Currents(xs[..j]) && next == Nexts(xs[..j])
    {
      var x := xs[j];
      assert xs[..j + 1][..j] == xs[..j];
      if Contains(x, LeadsTo) {
        var split := SplitFirst(x, LeadsTo);
        current := current + [split.1];
        next := next + [split.0];
      } else if Contains(x, Triggers) {
        var split := SplitFirst(x, Triggers);
        current := current + [split.1];
        next := next + [split.0];
      } else {
        current := current + [x];
      }
    }
    assert xs[..|xs|] == xs;
  }

  /** `while len(row) < 4: row.append("")`. */
  method PadRow(row: seq<string>) returns (r: seq<string>)
    ensures r == Pad4(row)
  {
    r := row;
    while |r| < 4
      invariant Pad4(r) == Pad4(row)
      decreases 4 - |r|
    {
      Pad4Step(r);
      r := r + [""];
    }
  }

  /** The rows of the four causal categories, one after the other. */
  lemma RowsOfCauses(slots: map<Category, seq<string>>)
    requires forall c :: c in slots
    ensures Rows(slots, Causes) ==
      RowsOf(slots[Jia]) + RowsOf(slots[Yi]) + RowsOf(slots[Bing]) + RowsOf(slots[Ding])
  {
    assert Causes == [Jia, Yi, Bing, Ding];
    RowsOfFour(slots, Jia, Yi, Bing, Ding);
  }

  /** The rows of four categories, one after the other. */
  lemma RowsOfFour(slots: map<Category, seq<string>>, a: Category, b: Category, c: Category, d: Category)
    requires forall c :: c in slots
    ensures Rows(slots, [a, b, c, d]) ==
      RowsOf(slots[a]) + RowsOf(slots[b]) + RowsOf(slots[c]) + RowsOf(slots[d])
  {
    BuildFour(a, b, c, d);
    RowsSnoc(slots, [], a);
    RowsSnoc(slots, [a], b);
    RowsSnoc(slots, [a, b], c);
    RowsSnoc(slots, [a, b, c], d);
    assert Rows(slots, []) == [];
    assert [] + RowsOf(slots[a]) == RowsOf(slots[a]);
  }

  /** Four categories, appended one at a time. */
  lemma BuildFour(a: Category, b: Category, c: Category, d: Category)
    ensures [] + [a] == [a] && [a] + [b] == [a, b]
    ensures [a, b] + [c] == [a, b, c] && [a, b, c] + [d] == [a, b, c, d]
  {
  }

  /** The outer loop's step: one more category appends its rows. */
  lemma RowsSnoc(slots: map<Category, seq<string>>, cs: seq<Category>, c: Category)
    requires forall c :: c in slots
    ensures Rows(slots, cs + [c]) == Rows(slots, cs) + RowsOf(slots[c])
  {
    assert (cs + [c])[..|cs|] == cs;
  }

  /** A filled causal category without chains contributes exactly its padded row. */
  lemma PlainRow(xs: seq<string>)
    requires !AllEmpty(xs)
    requires forall i :: 0 <= i < |xs| ==> !Contains(xs[i], LeadsTo) && !Contains(xs[i], Triggers)
    ensures RowsOf(xs) == [Pad4(xs)]
  {
    NoChains(xs);
  }

  /** Where the four padded rows end up. */
  lemma ShiftedCauses(slots: map<Category, seq<string>>)
    requires forall c :: c in slots
    ensures Shifted(slots)[Jia] == Padded(Rows(slots, Causes))[0]
    ensures Shifted(slots)[Yi] == Padded(Rows(slots, Causes))[1]
    ensures Shifted(slots)[Bing] == Padded(Rows(slots, Causes))[2]
    ensures Shifted(slots)[Ding] == Padded(Rows(slots, Causes))[3]
  {
  }

  /** Without chains and with every causal category filled, the shift only pads. */
  lemma ShiftOnlyPads(slots: map<Category, seq<string>>)
    requires forall c :: c in slots
    requires forall c, i :: c != Other && 0 <= i < |slots[c]| ==>
      !Contains(slots[c][i], LeadsTo) && !Contains(slots[c][i], Triggers)
    requires forall c :: c != Other ==> !AllEmpty(slots[c])
    ensures Shifted(slots)[Jia] == Pad4(slots[Jia]) && Shifted(slots)[Yi] == Pad4(slots[Yi])
    ensures Shifted(slots)[Bing] == Pad4(slots[Bing]) && Shifted(slots)[Ding] == Pad4(slots[Ding])
  {
    PlainRow(slots[Jia]);
    PlainRow(slots[Yi]);
    PlainRow(slots[Bing]);
    PlainRow(slots[Ding]);
    RowsOfCauses(slots);
    ShiftedCauses(slots);
    SingletonsFour(Pad4(slots[Jia]), Pad4(slots[Yi]), Pad4(slots[Bing]), Pad4(slots[Ding]));
    var rows := Rows(slots, Causes);
    assert rows == [Pad4(slots[Jia]), Pad4(slots[Yi]), Pad4(slots[Bing]), Pad4(slots[Ding])];
    assert Padded(rows) == rows;
  }

  /** An empty 甲 is skipped: 乙, 丙, 丁 move up one place and 丁 is left empty. */
  lemma ShiftSkipsEmpty(slots: map<Category, seq<string>>)
    requires forall c :: c in slots
    requires AllEmpty(slots[Jia])
    requires forall c, i :: c != Other && 0 <= i < |slots[c]| ==>
      !Contains(slots[c][i], LeadsTo) && !Contains(slots[c][i], Triggers)
    requires !AllEmpty(slots[Yi]) && !AllEmpty(slots[Bing]) && !AllEmpty(slots[Ding])
    ensures Shifted(slots)[Jia] == Pad4(slots[Yi])
    ensures Shifted(slots)[Yi] == Pad4(slots[Bing])
    ensures Shifted(slots)[Bing] == Pad4(slots[Ding])
    ensures Shifted(slots)[Ding] == EmptyRow
  {
    PlainRow(slots[Yi]);
    PlainRow(slots[Bing]);
    PlainRow(slots[Ding]);
    RowsOfCauses(slots);
    ShiftedCauses(slots);
    SingletonsThree(RowsOf(slots[Jia]), Pad4(slots[Yi]), Pad4(slots[Bing]), Pad4(slots[Ding]));
    var rows := Rows(slots, Causes);
    assert rows == [Pad4(slots[Yi]), Pad4(slots[Bing]), Pad4(slots[Ding])];
    assert Padded(rows)[..3] == rows;
  }

  /** "A導致B", with the first 導致 right after A, is effect B and cause A. */
  lemma UnchainLeadsTo(a: string, b: string)
    requires !Contains(a + LeadsTo[..1], LeadsTo)
    ensures Unchain(a + LeadsTo + b) == Unchained(b, Some(a))
  {
    var x := a + LeadsTo + b;
    ContainsPrepend(a, LeadsTo + b, LeadsTo);
    assert IsPrefix(LeadsTo, LeadsTo + b);
    assert x == a + (LeadsTo + b);
    var (before, after) := SplitFirst(x, LeadsTo);
    FirstSplitUnique(x, LeadsTo, before, after, a, b);
  }

  /** A category holding one chain contributes the effect's row, then the cause's row. */
  lemma ChainRows(a: string, b: string)
    requires !Contains(a + LeadsTo[..1], LeadsTo)
    ensures RowsOf([a + LeadsTo + b]) == [[b, "", "", ""], [a, "", "", ""]]
  {
    var x := a + LeadsTo + b;
    UnchainLeadsTo(a, b);
    assert [x][..0] == [];
    assert Currents([x]) == [b] && Nexts([x]) == [a];
    assert !AllEmpty([x]) by { assert [x][0] != ""; }
    assert Pad4([b]) == [b, "", "", ""] && Pad4([a]) == [a, "", "", ""];
  }

  /** A chained 甲 "A導致B" becomes 甲 = B, and A opens a new row that pushes 乙 down to 丙. */
  lemma ShiftSplitsChain(slots: map<Category, seq<string>>, a: string, b: string)
    requires forall c :: c in slots
    requires slots[Jia] == [a + LeadsTo + b]
    requires !Contains(a + LeadsTo[..1], LeadsTo)
    requires forall i :: 0 <= i < |slots[Yi]| ==> !Contains(slots[Yi][i], LeadsTo) && !Contains(slots[Yi][i], Triggers)
    requires !AllEmpty(slots[Yi])
    ensures Shifted(slots)[Jia] == [b, "", "", ""]
    ensures Shifted(slots)[Yi] == [a, "", "", ""]
    ensures Shifted(slots)[Bing] == Pad4(slots[Yi])
  {
    ChainRows(a, b);
    PlainRow(slots[Yi]);
    RowsOfCauses(slots);
    ShiftedCauses(slots);
    FirstThree([b, "", "", ""], [a, "", "", ""], Pad4(slots[Yi]), RowsOf(slots[Bing]), RowsOf(slots[Ding]));
    PaddedFirstThree(Rows(slots, Causes));
  }

  /** Padding keeps the rows that are already there. */
  lemma PaddedFirstThree(rows: seq<seq<string>>)
    requires |rows| >= 3
    ensures Padded(rows)[0] == rows[0] && Padded(rows)[1] == rows[1] && Padded(rows)[2] == rows[2]
  {
    var r := Padded(rows);
    assert r[..|rows|][0] == r[0] && r[..|rows|][1] == r[1] && r[..|rows|][2] == r[2];
  }

  /** Four one-element sequences, appended. */
  lemma SingletonsFour<T>(p1: T, p2: T, p3: T, p4: T)
    ensures [p1] + [p2] + [p3] + [p4] == [p1, p2, p3, p4]
  {
  }

  /** An empty sequence and three one-element sequences, appended. */
  lemma SingletonsThree<T>(e: seq<T>, p2: T, p3: T, p4: T)
    requires e == []
    ensures e + [p2] + [p3] + [p4] == [p2, p3, p4]
  {
  }

  /** The first three elements of a sequence that starts with them. */
  lemma FirstThree<T>(p1: T, p2: T, p3: T, u: seq<T>, v: seq<T>)
    ensures |[p1, p2] + [p3] + u + v| >= 3
    ensures ([p1, p2] + [p3] + u + v)[0] == p1 && ([p1, p2] + [p3] + u + v)[1] == p2
    ensures ([p1, p2] + [p3] + u + v)[2] == p3
  {
  }

  /** Two splits at a first occurrence of the same separator are the same split. */
  lemma FirstSplitUnique(s: string, sep: string, b1: string, a1: string, b2: string, a2: string)
    requires sep != []
    requires s == b1 + sep + a1 && s == b2 + sep + a2
    requires forall i :: 0 <= i < |b1| ==> !IsPrefix(sep, s[i..])
    requires !Contains(b2 + sep[..|sep| - 1], sep)
    ensures b1 == b2 && a1 == a2
  {
    assert IsPrefix(sep, s[|b1|..]) by { assert s[|b1|..] == sep + a1; }
    assert IsPrefix(sep, s[|b2|..]) by { assert s[|b2|..] == sep + a2; }
    if |b2| < |b1| {
      assert false;
    } else if |b1| < |b2| {
      var t := b2 + sep[..|sep| - 1];
      assert t == s[..|t|];
      ContainsAt(t, sep, |b1|, s);
      assert false;
    }
    assert b1 == s[..|b1|] && b2 == s[..|b2|];
    assert a1 == s[|b1| + |sep|..] && a2 == s[|b2| + |sep|..];
  }

  /** An occurrence that ends within `t` is one `t` contains. */
  lemma {:induction false} ContainsAt(t: string, w: string, i: nat, s: string)
    requires i + |w| <= |t| && |t| <= |s| && t == s[..|t|]
    requires IsPrefix(w, s[i..])
    ensures Contains(t, w)
    decreases i
  {
    if i == 0 {
      assert t[..|w|] == s[..|w|];
    } else {
      ContainsAt(t[1..], w, i - 1, s[1..]);
    }
  }
}
