/**
  The normalisation `ICDTokenizer._pre_process` applies to one free-text
  diagnosis before it is segmented (icd_tokenize/tokenizer.py:26-119): a
  lookbehind deletion of a lone 併, an ordered list of deletions, removal of
  all whitespace, an ordered list of spelling rewrites, two whole-string
  overrides, and the relabelling of traffic-accident descriptions.
*/
module Preprocess {
  import opened Text

  /**
    `re.sub(r"(?<!合)併(?!發)", "", s)`: deletes every 併 that is neither
    preceded by 合 nor followed by 發 in the original text.  `afterHe` says
    whether the character before `s` was 合.
  */
  function DropLoneBing(s: string, afterHe: bool): (r: string)
    ensures forall c :: c in r ==> c in s
    ensures '併' !in s ==> r == s
    ensures s != [] && s[0] != '併' ==> r != [] && r[0] == s[0]
    decreases |s|
  {
    if s == [] then []
    else if s[0] == '併' && !afterHe && !(|s| > 1 && s[1] == '發') then DropLoneBing(s[1..], false)
    else [s[0]] + DropLoneBing(s[1..], s[0] == '合')
  }

  /**
    Every 併 that survives sits next to what protected it: 合 just before it
    (or before the text, when `afterHe`) or 發 just after it.
  */
  lemma {:induction false} LoneBingDropped(s: string, afterHe: bool, i: int)
    requires 0 <= i < |DropLoneBing(s, afterHe)| && DropLoneBing(s, afterHe)[i] == '併'
    ensures var r := DropLoneBing(s, afterHe);
      (i == 0 && afterHe) || (0 < i && r[i - 1] == '合') || (i + 1 < |r| && r[i + 1] == '發')
    decreases |s|
  {
    if s[0] == '併' && !afterHe && !(|s| > 1 && s[1] == '發') {
      LoneBingDropped(s[1..], false, i);
    } else if i > 0 {
      LoneBingDropped(s[1..], s[0] == '合', i - 1);
    }
  }

  /** A literal regular expression; `re.sub` with an empty pattern would match everywhere. */
  type Pattern = p: string | p != [] witness "_"

  /** The characters the deletions and the whitespace removal take out. */
  predicate Separator(c: char) {
    IsSpace(c) || c == '_' || c == '及' || c == '並'
  }

  predicate NoSeparator(s: string) {
    forall c :: c in s ==> !Separator(c)
  }

  /** Text without separators: every replacement and every label the pipeline writes is one. */
  type Clean = s: string | NoSeparator(s) witness ""

  /** One `re.sub(pattern(?!guard), replacement, s)` with a literal pattern; an empty guard is no lookahead. */
  datatype Rule = Rule(pattern: Pattern, replacement: Clean, guard: string)

  /** The rules applied one after the other, each to the whole text the previous one produced. */
  function Apply(s: string, rules: seq<Rule>): string
    decreases |rules|, s
  {
    if rules == [] then s
    else Apply(ReplaceAll(s, rules[0].pattern, rules[0].replacement, rules[0].guard), rules[1..])
  }

  // The deletions of lines 28-38.
  const MergedWith := Rule("合併", "", "症")
  const ComplicatedBy := Rule("併發", "", "症")
  const NoObviousTraumaDeath := Rule("無明顯外傷性死因", "", "")
  const NoTraumaDeath := Rule("無外傷性死因", "", "")
  const NoObviousTrauma := Rule("無明顯外傷", "", "")
  const NotCovid := Rule("非新冠肺炎", "", "")
  const Unclear := Rule("未明", "", "")
  const OnArrival := Rule("到院", "", "")
  const And := Rule("及", "", "")
  const Also := Rule("並", "", "")
  const Underscore := Rule("_", "", "")

  /** The deletions, in order. */
  const Cleanup: seq<Rule> := [
    MergedWith, ComplicatedBy, NoObviousTraumaDeath, NoTraumaDeath, NoObviousTrauma,
    NotCovid, Unclear, OnArrival, And, Also, Underscore
  ]

  // The spelling rewrites of lines 41-61 and the `str.replace` of line 63.
  const Rheumatism := Rule("風溼", "風濕", "")
  const Eczema := Rule("濕疹", "溼疹", "")
  const Fall := Rule("墬落", "墜落", "")
  const Cardiovascular := Rule("心血管疾患", "心血管疾病", "")
  const Pulmonary := Rule("肺部疾患", "肺部疾病", "")
  const Cerebrovascular := Rule("腦血管疾患", "腦血管疾病", "")
  const EndStageRenal := Rule("末期腎疾患", "末期腎疾病", "")
  const Dementia := Rule("慢性老化性失智症", "慢性失智症", "")
  const SepticShock := Rule("敗血休克", "敗血性休克", "")
  const CongestiveHeartFailure := Rule("鬱血心衰竭", "鬱血性心衰竭", "")
  const HypoxicRespiratoryFailure := Rule("急性缺氧呼吸衰竭", "急性缺氧性呼吸衰竭", "")
  const SleepApnea := Rule("呼吸中止症", "呼吸中止症候群", "")
  const Immunodeficiency := Rule("免疫低下", "免疫力低下", "")
  const DiffuseLymphoma := Rule("瀰漫大B細胞淋巴瘤", "瀰漫性大B細胞淋巴瘤", "")
  const WuhanPneumonia := Rule("武漢肺炎", "新冠肺炎", "")
  const SevereInfection := Rule("嚴重特殊傳染性疾病確診", "新冠肺炎", "")
  const BreastCancer := Rule("乳腺惡性腫瘤", "乳腺癌", "")
  const MassiveBleeding := Rule("大出血", "出血", "")
  const Covid19 := Rule("COVID19", "COVID-19", "")

  /** The rewrites, in order. */
  const Rewrites: seq<Rule> := [
    Rheumatism, Eczema, Fall, Cardiovascular, Pulmonary, Cerebrovascular, EndStageRenal,
    Dementia, SepticShock, CongestiveHeartFailure, HypoxicRespiratoryFailure, SleepApnea,
    Immunodeficiency, DiffuseLymphoma, WuhanPneumonia, SevereInfection, BreastCancer,
    MassiveBleeding, Covid19
  ]

  /** What `\s` matches in a Python `str` pattern: the characters `str.isspace` accepts. */
  predicate IsSpace(c: char) {
    var n := c as int;
    (0x09 <= n <= 0x0D) || (0x1C <= n <= 0x20) || n == 0x85 || n == 0xA0 || n == 0x1680 ||
    (0x2000 <= n <= 0x200A) || n == 0x2028 || n == 0x2029 || n == 0x202F || n == 0x205F || n == 0x3000
  }

  /** `re.sub(r"\s", "", s)`. */
  function StripSpaces(s: string): (r: string)
    ensures forall c :: c in r ==> c in s && !IsSpace(c)
    ensures (forall c :: c in s ==> !IsSpace(c)) ==> r == s
    decreases |s|
  {
    if s == [] then []
    else if IsSpace(s[0]) then StripSpaces(s[1..])
    else [s[0]] + StripSpaces(s[1..])
  }

  /** The two whole-string overrides of lines 65-68. */
  function Override(s: string): (r: string)
    ensures r == s || s == "燒碳" || s == "洗腎"
    ensures r != "燒碳" && r != "洗腎"
    ensures NoSeparator(s) ==> NoSeparator(r)
  {
    if s == "燒碳" then
      assert NoSeparator("燒炭");
      "燒炭"
    else if s == "洗腎" then
      assert NoSeparator("腎衰竭");
      "腎衰竭"
    else s
  }

  /** The whole-string labels the traffic rules assign, named by the accident code each starts with. */
  datatype Label =
    | B1 | B2 | B3 | B4 | B6
    | D0 | D1 | D2 | D3Truck | D3Tractor
    | A20 | A21 | A22
    | C1 | C2 | C3

  function LabelText(l: Label): string {
    match l
    case B1 => "車禍B1行人*機車"
    case B2 => "車禍B2行人*汽車"
    case B3 => "車禍B3行人*貨車"
    case B4 => "車禍B4行人*大貨車"
    case B6 => "車禍B6行人*火車"
    case D0 => "車禍D0機車騎士*腳踏車"
    case D1 => "車禍D1機車騎士*汽車"
    case D2 => "車禍D2機車騎士*貨車"
    case D3Truck => "車禍D3機車騎士*大貨車"
    case D3Tractor => "車禍D3機車騎士*曳引車"
    case A20 => "車禍A20機車"
    case A21 => "車禍A21機車*汽車"
    case A22 => "車禍A22機車*貨車"
    case C1 => "車禍C1腳踏車騎士*機車"
    case C2 => "車禍C2腳踏車騎士*汽車"
    case C3 => "車禍C3腳踏車騎士*小貨車"
  }

  /** Every label reads 車禍 (traffic accident) first and holds no separator. */
  lemma LabelsClean(l: Label)
    ensures IsPrefix("車禍", LabelText(l)) && NoSeparator(LabelText(l))
  {
    match l
    case B1 | B2 => PedestrianLabelsClean(l);
    case B3 | B4 => TruckPedestrianLabelsClean(l);
    case B6 => TrainPedestrianLabelsClean(l);
    case D0 | D1 => RiderLabelsClean(l);
    case D2 => TruckRiderLabelsClean(l);
    case D3Truck => HeavyTruckRiderLabelsClean(l);
    case D3Tractor => TractorRiderLabelsClean(l);
    case A20 | A21 | A22 => MotorcycleLabelsClean(l);
    case C1 => CyclistLabelsClean(l);
    case C2 => CarCyclistLabelsClean(l);
    case C3 => TruckCyclistLabelsClean(l);
  }

  lemma PedestrianLabelsClean(l: Label)
    requires l.B1? || l.B2?
    ensures IsPrefix("車禍", LabelText(l)) && NoSeparator(LabelText(l))
  {
  }

  lemma TruckPedestrianLabelsClean(l: Label)
    requires l.B3? || l.B4?
    ensures IsPrefix("車禍", LabelText(l)) && NoSeparator(LabelText(l))
  {
  }

  lemma TrainPedestrianLabelsClean(l: Label)
    requires l.B6?
    ensures IsPrefix("車禍", LabelText(l)) && NoSeparator(LabelText(l))
  {
  }

  lemma RiderLabelsClean(l: Label)
    requires l.D0? || l.D1?
    ensures IsPrefix("車禍", LabelText(l)) && NoSeparator(LabelText(l))
  {
  }

  lemma TruckRiderLabelsClean(l: Label)
    requires l.D2?
    ensures IsPrefix("車禍", LabelText(l)) && NoSeparator(LabelText(l))
  {
  }

  lemma HeavyTruckRiderLabelsClean(l: Label)
    requires l.D3Truck?
    ensures IsPrefix("車禍", LabelText(l)) && NoSeparator(LabelText(l))
  {
  }

  lemma TractorRiderLabelsClean(l: Label)
    requires l.D3Tractor?
    ensures IsPrefix("車禍", LabelText(l)) && NoSeparator(LabelText(l))
  {
  }

  lemma MotorcycleLabelsClean(l: Label)
    requires l.A20? || l.A21? || l.A22?
    ensures IsPrefix("車禍", LabelText(l)) && NoSeparator(LabelText(l))
  {
  }

  lemma CyclistLabelsClean(l: Label)
    requires l.C1?
    ensures IsPrefix("車禍", LabelText(l)) && NoSeparator(LabelText(l))
  {
  }

  lemma CarCyclistLabelsClean(l: Label)
    requires l.C2?
    ensures IsPrefix("車禍", LabelText(l)) && NoSeparator(LabelText(l))
  {
  }

  lemma TruckCyclistLabelsClean(l: Label)
    requires l.C3?
    ensures IsPrefix("車禍", LabelText(l)) && NoSeparator(LabelText(l))
  {
  }

  /**
    The traffic-accident relabelling of lines 70-117: the first matching
    clause chooses a label; when no clause matches, there is none.
  */
  function TrafficLabel(s: string): (r: Option<Label>)
    ensures r.Some? ==> Contains(s, "行人") || Contains(s, "機車") || Contains(s, "自行車") || Contains(s, "腳踏車")
  {
    if Contains(s, "行人") then Pedestrian(s)
    else if Contains(s, "機車騎士") then
      ContainsShorter(s, "機車騎士", "機車");
      Rider(s)
    else if Contains(s, "機車") then Motorcycle(s)
    else if Contains(s, "自行車") || Contains(s, "腳踏車") then Cyclist(s)
    else None
  }

  /**
    A chosen label replaces the whole text; otherwise the text is left as it
    is.  So the result is the text itself or a clean label starting with 車禍,
    and a text naming no pedestrian, motorcycle or bicycle is left alone.
  */
  function Traffic(s: string): (r: string)
    ensures r == s || (IsPrefix("車禍", r) && NoSeparator(r))
    ensures !Contains(s, "行人") && !Contains(s, "機車") && !Contains(s, "自行車") && !Contains(s, "腳踏車") ==> r == s
  {
    match TrafficLabel(s)
    case Some(l) =>
      LabelsClean(l);
      LabelText(l)
    case None => s
  }

  /**
    Lines 71-84: a pedestrian hit by a vehicle.  The label is one of the B
    family, and there is one exactly when some vehicle word occurs (大貨車
    holds 貨車, so it needs no mention).
  */
  function Pedestrian(s: string): (r: Option<Label>)
    ensures r.None? || r.value in {B1, B2, B3, B4, B6}
    ensures r.None? <==> (!Contains(s, "機車") && !Contains(s, "摩托車") && !Contains(s, "小客車") &&
      !Contains(s, "大客車") && !Contains(s, "貨車") && !Contains(s, "火車"))
  {
    if Contains(s, "機車") then Some(B1)
    else if Contains(s, "摩托車") then Some(B1)
    else if Contains(s, "小客車") then Some(B2)
    else if Contains(s, "大貨車") then
      TruckHoldsLorry(s);
      Some(B4)
    else if Contains(s, "大客車") then Some(B4)
    else if Contains(s, "貨車") then Some(B3)
    else if Contains(s, "火車") then Some(B6)
    else None
  }

  /** Lines 86-99: a motorcycle rider and another vehicle; a D label exactly when one is named. */
  function Rider(s: string): (r: Option<Label>)
    ensures r.None? || r.value in {D0, D1, D2, D3Truck, D3Tractor}
    ensures r.None? <==> (!Contains(s, "小客") && !Contains(s, "汽車") && !Contains(s, "貨車") &&
      !Contains(s, "腳踏車") && !Contains(s, "曳引車") && !Contains(s, "自行車"))
  {
    if Contains(s, "小客") then Some(D1)
    else if Contains(s, "汽車") then Some(D1)
    else if Contains(s, "大貨車") then
      TruckHoldsLorry(s);
      Some(D3Truck)
    else if Contains(s, "貨車") then Some(D2)
    else if Contains(s, "腳踏車") then Some(D0)
    else if Contains(s, "曳引車") then Some(D3Tractor)
    else if Contains(s, "自行車") then Some(D0)
    else None
  }

  /**
    Lines 101-108: a motorcycle, with another vehicle or a second
    motorcycle; no label when neither is there.
  */
  function Motorcycle(s: string): (r: Option<Label>)
    ensures r.None? || r.value in {A20, A21, A22, D3Truck}
    ensures r.None? <==> !Contains(s, "小客") && !Contains(s, "汽車") && !Contains(s, "貨車") && Count(s, "機車") != 2
  {
    if Contains(s, "小客") || Contains(s, "汽車") then Some(A21)
    else if Contains(s, "大貨車") then
      TruckHoldsLorry(s);
      Some(D3Truck)
    else if Contains(s, "貨車") then Some(A22)
    else if Count(s, "機車") == 2 then Some(A20)
    else None
  }

  /** Lines 110-117: a bicycle and another vehicle; a C label exactly when one is named. */
  function Cyclist(s: string): (r: Option<Label>)
    ensures r.None? || r.value in {C1, C2, C3}
    ensures r.None? <==> (!Contains(s, "小客") && !Contains(s, "汽車") && !Contains(s, "機車") &&
      !Contains(s, "摩托車") && !Contains(s, "貨車"))
  {
    if Contains(s, "小客") || Contains(s, "汽車") then Some(C2)
    else if Contains(s, "機車") then Some(C1)
    else if Contains(s, "摩托車") then Some(C1)
    else if Contains(s, "貨車") then Some(C3)
    else None
  }

  /** A text naming a heavy truck (大貨車) names a truck (貨車). */
  lemma TruckHoldsLorry(s: string)
    requires Contains(s, "大貨車")
    ensures Contains(s, "貨車")
  {
    ContainsTail(s, "大貨車");
    assert "大貨車"[1..] == "貨車";
  }

  /** The whole of `_pre_process`. */
  function PreProcess(s: string): (r: string)
    ensures NoSeparator(r)
  {
    CleanupStagesClean(s);
    LateStagesClean(StripSpaces(Apply(DropLoneBing(s, false), Cleanup)));
    Traffic(Override(Apply(StripSpaces(Apply(DropLoneBing(s, false), Cleanup)), Rewrites)))
  }

  // ---------------------------------------------------------------------
  // Applying rule lists
  // ---------------------------------------------------------------------

  /** Applying `a + b` is applying `a`, then `b`. */
  lemma {:induction false} ApplyAppend(s: string, a: seq<Rule>, b: seq<Rule>)
    ensures Apply(s, a + b) == Apply(Apply(s, a), b)
    decreases |a|
  {
    if a != [] {
      var s' := ReplaceAll(s, a[0].pattern, a[0].replacement, a[0].guard);
      assert a + b != [] && (a + b)[0] == a[0] && (a + b)[1..] == a[1..] + b;
      assert Apply(s, a + b) == Apply(s', a[1..] + b);
      assert Apply(s, a) == Apply(s', a[1..]);
      ApplyAppend(s', a[1..], b);
    } else {
      assert a + b == b;
    }
  }

  /**
    Rules whose patterns start with no character of the alphabet `a` leave
    a text over `a` unchanged.
  */
  lemma {:induction false} ApplyInert(s: string, rules: seq<Rule>, a: string)
    requires forall c :: c in s ==> c in a
    requires forall i :: 0 <= i < |rules| ==> rules[i].pattern[0] !in a
    ensures Apply(s, rules) == s
    decreases |rules|
  {
    if rules != [] {
      ApplyInert(s, rules[1..], a);
    }
  }

  /** Rules that only delete never introduce a character. */
  lemma {:induction false} DeletionsShrink(s: string, rules: seq<Rule>)
    requires forall i :: 0 <= i < |rules| ==> rules[i].replacement == []
    ensures forall c :: c in Apply(s, rules) ==> c in s
    decreases |rules|
  {
    if rules != [] {
      DeletionsShrink(ReplaceAll(s, rules[0].pattern, rules[0].replacement, rules[0].guard), rules[1..]);
    }
  }

  /** Among deletions only, a rule deleting the single character `ch` removes it for good. */
  lemma {:induction false} DeletionRemoves(s: string, rules: seq<Rule>, k: nat, ch: char)
    requires forall i :: 0 <= i < |rules| ==> rules[i].replacement == []
    requires k < |rules| && rules[k] == Rule([ch], [], [])
    ensures ch !in Apply(s, rules)
    decreases |rules|
  {
    var s' := ReplaceAll(s, rules[0].pattern, rules[0].replacement, rules[0].guard);
    if k == 0 {
      DeletionsShrink(s', rules[1..]);
    } else {
      DeletionRemoves(s', rules[1..], k - 1, ch);
    }
  }

  /** The rules write no separator, so a text free of them stays free of them. */
  lemma {:induction false} ApplyKeepsClean(s: string, rules: seq<Rule>)
    requires NoSeparator(s)
    ensures NoSeparator(Apply(s, rules))
    decreases |rules|
  {
    if rules != [] {
      ApplyKeepsClean(ReplaceAll(s, rules[0].pattern, rules[0].replacement, rules[0].guard), rules[1..]);
    }
  }

  // ---------------------------------------------------------------------
  // Properties of the pipeline
  // ---------------------------------------------------------------------

  /** The deletions and the `\s` removal leave no whitespace, `_`, 及 or 並. */
  lemma CleanupStagesClean(s: string)
    ensures NoSeparator(StripSpaces(Apply(DropLoneBing(s, false), Cleanup)))
  {
    var x0 := DropLoneBing(s, false);
    DeletionRemoves(x0, Cleanup, 8, And.pattern[0]);
    DeletionRemoves(x0, Cleanup, 9, Also.pattern[0]);
    DeletionRemoves(x0, Cleanup, 10, Underscore.pattern[0]);
  }

  /** The rewrites, the overrides and the traffic rules put no separator into a text free of them. */
  lemma LateStagesClean(x: string)
    requires NoSeparator(x)
    ensures NoSeparator(Traffic(Override(Apply(x, Rewrites))))
  {
    ApplyKeepsClean(x, Rewrites);
  }

  /**
    A description naming both a pedestrian (行人) and a motorcycle (機車)
    becomes exactly the label 車禍B1行人*機車, whatever else it says.
  */
  lemma PedestrianMotorcycle(s: string)
    requires Contains(s, "行人") && Contains(s, "機車")
    ensures Traffic(s) == "車禍B1行人*機車"
  {
  }

  /** The characters of 呼吸中止症候群. */
  const Apnea := "呼吸中止症候群"

  /** No deletion can start inside a text over `Apnea`. */
  lemma CleanupInertOnApnea()
    ensures forall i :: 0 <= i < |Cleanup| ==> Cleanup[i].pattern[0] !in Apnea
  {
  }

  /** No rewrite before `SleepApnea` can start inside a text over `Apnea`. */
  lemma EarlyRewritesInertOnApnea()
    ensures forall i :: 0 <= i < 11 ==> Rewrites[i].pattern[0] !in Apnea
  {
  }

  /** No rewrite after `SleepApnea` can start inside a text over `Apnea`. */
  lemma LateRewritesInertOnApnea()
    ensures forall i :: 12 <= i < |Rewrites| ==> Rewrites[i].pattern[0] !in Apnea
  {
  }

  lemma RewritesAroundApnea()
    ensures Rewrites == Rewrites[..11] + Rewrites[11..]
    ensures Rewrites[11..][0] == SleepApnea && Rewrites[11..][1..] == Rewrites[12..]
  {
  }

  /** The stages before the rewrites leave a text over `Apnea` unchanged. */
  lemma ApneaCleanupStages(s: string)
    requires forall c :: c in s ==> c in Apnea
    ensures StripSpaces(Apply(DropLoneBing(s, false), Cleanup)) == s
  {
    assert '併' !in Apnea;
    CleanupInertOnApnea();
    ApplyInert(s, Cleanup, Apnea);
    assert forall c :: c in Apnea ==> !IsSpace(c);
  }

  /** Of the rewrites, only `SleepApnea` touches a text over `Apnea`. */
  lemma ApneaRewriteStage(s: string)
    requires forall c :: c in s ==> c in Apnea
    ensures Apply(s, Rewrites) == ReplaceAll(s, SleepApnea.pattern, SleepApnea.replacement, "")
  {
    var t := ReplaceAll(s, SleepApnea.pattern, SleepApnea.replacement, "");
    EarlyRewritesInertOnApnea();
    LateRewritesInertOnApnea();
    RewritesAroundApnea();
    ApplyAppend(s, Rewrites[..11], Rewrites[11..]);
    ApplyInert(s, Rewrites[..11], Apnea);
    assert forall c :: c in t ==> c in Apnea;
    ApplyInert(t, Rewrites[12..], Apnea);
  }

  /** The overrides and the traffic rules leave a text over `Apnea` unchanged. */
  lemma ApneaFinalStages(t: string)
    requires forall c :: c in t ==> c in Apnea
    ensures Traffic(Override(t)) == t
  {
    assert '燒' !in Apnea && '洗' !in Apnea && '行' !in Apnea && '機' !in Apnea && '自' !in Apnea && '腳' !in Apnea;
    assert "燒碳"[0] == '燒' && "洗腎"[0] == '洗';
    MissingCharNotContained(t, "行人", '行');
    MissingCharNotContained(t, "機車", '機');
    MissingCharNotContained(t, "自行車", '自');
    MissingCharNotContained(t, "腳踏車", '腳');
  }

  /** On a text over `Apnea`, the whole pipeline is the one rewrite `SleepApnea`. */
  lemma OnlyApneaRewrite(s: string)
    requires forall c :: c in s ==> c in Apnea
    ensures PreProcess(s) == ReplaceAll(s, SleepApnea.pattern, SleepApnea.replacement, "")
  {
    ApneaCleanupStages(s);
    ApneaRewriteStage(s);
    ApneaFinalStages(ReplaceAll(s, SleepApnea.pattern, SleepApnea.replacement, ""));
  }

  /** The rewrite of line 54 on 呼吸中止症 itself. */
  lemma ApneaRewriteOnce(a: string)
    requires a == "呼吸中止症"
    ensures ReplaceAll(a, SleepApnea.pattern, SleepApnea.replacement, "") == "呼吸中止症候群"
  {
    assert SleepApnea.pattern == a && a[5..] == [];
    assert MatchesAt(a, a, "");
  }

  /** The rewrite of line 54 on its own output matches the first five characters again. */
  lemma ApneaRewriteAgain(b: string)
    requires b == "呼吸中止症候群"
    ensures ReplaceAll(b, SleepApnea.pattern, SleepApnea.replacement, "") == "呼吸中止症候群候群"
  {
    var a := "呼吸中止症";
    assert SleepApnea.pattern == a && SleepApnea.replacement == b;
    assert b[..5] == a && b[5..] == "候群";
    assert MatchesAt(b, a, "");
    assert ReplaceAll(b[5..], a, b, "") == "候群";
  }

  /**
    `_pre_process` is not idempotent: 呼吸中止症 is rewritten to
    呼吸中止症候群, and a second pass rewrites the same five characters
    again, giving 呼吸中止症候群候群.
  */
  lemma PreProcessNotIdempotent(a: string)
    requires a == "呼吸中止症"
    ensures PreProcess(a) == "呼吸中止症候群"
    ensures PreProcess(PreProcess(a)) == "呼吸中止症候群候群"
  {
    OnlyApneaRewrite(a);
    ApneaRewriteOnce(a);
    var b := PreProcess(a);
    OnlyApneaRewrite(b);
    ApneaRewriteAgain(b);
  }
}
