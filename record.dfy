/**
  `Record` (icd_tokenize/record.py): what the program keeps about one death
  certificate — its identifiers, the inputs, results and targets of each
  category, and per category whether the result was correct and whether it
  was identical to the target.  It answers a few summary questions and
  renders itself for the JSON and spreadsheet outputs, padding its lists to
  four slots in place as it does so.
*/
module Records {
  import opened Text
  import opened Slots

  const YearKey := "資料鍵入年"
  const MonthKey := "資料鍵入月"
  const SerialKey := "死因自動流水號"

  /** `str(i + 1)` for the four slots `i` = 0 .. 3. */
  const SlotNumbers: seq<string> := ["1", "2", "3", "4"]

  /** The slot numbers are the decimal texts of 1 .. 4. */
  lemma SlotNumbersAreStr(i: nat)
    requires i < 4
    ensures SlotNumbers[i] == Str(i + 1)
  {
  }

  /** A column of the JSON and spreadsheet outputs. */
  datatype Column = YearColumn | MonthColumn | SerialColumn | SlotColumn(c: Category, i: nat)

  /** The columns that exist: the three identifiers and four slots per category. */
  predicate IsColumn(k: Column) {
    k.SlotColumn? ==> k.i < 4
  }

  /** The JSON column of slot `i` of a category: `CA1` .. `CE4`. */
  function JsonKey(c: Category, i: nat): string
    requires i < 4
  {
    Code(c) + SlotNumbers[i]
  }

  /** The header of a column in the JSON output. */
  function JsonName(k: Column): string
    requires IsColumn(k)
  {
    match k
    case YearColumn => YearKey
    case MonthColumn => MonthKey
    case SerialColumn => SerialKey
    case SlotColumn(c, i) => JsonKey(c, i)
  }

  /** The spreadsheet column of slot `i` of a category: 甲, 甲2, 甲3, 甲4, ... */
  function ExcelKey(c: Category, i: nat): string
    requires i < 4
  {
    Name(c) + Tags[i]
  }

  /** Distinct slots have distinct JSON columns, none of them one of the three identifier columns. */
  lemma JsonKeysDistinct(c: Category, i: nat, d: Category, j: nat)
    requires i < 4 && j < 4
    ensures JsonKey(c, i) == JsonKey(d, j) ==> c == d && i == j
    ensures JsonKey(c, i) != YearKey && JsonKey(c, i) != MonthKey && JsonKey(c, i) != SerialKey
  {
    var a, b := JsonKey(c, i), JsonKey(d, j);
    assert |Code(c)| == 2 && |Code(d)| == 2;
    assert a[..2] == Code(c) && b[..2] == Code(d);
    assert a[2..] == SlotNumbers[i] && b[2..] == SlotNumbers[j];
    NamesDistinct(c, d);
    assert a[0] == 'C';
  }

  /** The JSON headers name the columns one to one: `data` is a dictionary keyed by them. */
  lemma JsonNamesDistinct(k: Column, l: Column)
    requires IsColumn(k) && IsColumn(l)
    ensures JsonName(k) == JsonName(l) ==> k == l
  {
    if k.SlotColumn? {
      JsonKeysDistinct(k.c, k.i, k.c, k.i);
      if l.SlotColumn? {
        JsonKeysDistinct(k.c, k.i, l.c, l.i);
      }
    } else if l.SlotColumn? {
      JsonKeysDistinct(l.c, l.i, l.c, l.i);
    } else {
      assert YearKey[4] != MonthKey[4] && YearKey[0] != SerialKey[0] && MonthKey[0] != SerialKey[0];
    }
  }

  /** A spreadsheet column ends in a digit exactly when its tag is not empty. */
  lemma ExcelKeyEnd(c: Category, i: nat)
    requires i < 4
    ensures |Tags[i]| <= 1
    ensures var k := ExcelKey(c, i); |k| >= 1 && (|Tags[i]| == 1 <==> '0' <= k[|k| - 1] <= '9')
  {
    var n := Name(c);
    assert |n| >= 1 && !('0' <= n[|n| - 1] <= '9');
  }

  /** Distinct slots have distinct spreadsheet columns. */
  lemma ExcelKeysDistinct(c: Category, i: nat, d: Category, j: nat)
    requires i < 4 && j < 4
    ensures ExcelKey(c, i) == ExcelKey(d, j) ==> c == d && i == j
  {
    var a, b := ExcelKey(c, i), ExcelKey(d, j);
    ExcelKeyEnd(c, i);
    ExcelKeyEnd(d, j);
    if a == b {
      assert |Tags[i]| == |Tags[j]|;
      assert Name(c) == a[..|a| - |Tags[i]|] && Name(d) == b[..|b| - |Tags[j]|];
      assert Tags[i] == a[|Name(c)|..] && Tags[j] == b[|Name(d)|..];
      NamesDistinct(c, d);
    }
  }

  /** Where a category stands in `Categories`. */
  function Position(c: Category): (k: nat)
    ensures k < |Categories|
  {
    match c
    case Jia => 0
    case Yi => 1
    case Bing => 2
    case Ding => 3
    case Other => 4
  }

  /** A category stands at its position. */
  lemma AtPosition(c: Category)
    ensures Categories[Position(c)] == c
  {
  }

  /** No category is dirty exactly when no input list, whatever its category, has a `?`. */
  lemma DirtyNone(inputs: map<Category, seq<string>>)
    ensures DirtyIn(inputs, Categories) == 0 <==> forall c :: c in inputs ==> !HasQuestion(inputs[c])
  {
    if DirtyIn(inputs, Categories) == 0 {
      forall c | c in inputs ensures !HasQuestion(inputs[c]) {
        AtPosition(c);
        assert Categories[Position(c)] in inputs;
      }
    }
  }

  /** The category at position `k` stands at position `k`: the categories are listed once each. */
  lemma PositionOf(k: nat)
    requires k < |Categories|
    ensures Position(Categories[k]) == k
  {
    if k == 0 {
    } else if k == 1 {
    } else if k == 2 {
    } else if k == 3 {
    } else {
    }
  }

  /** The categories of `a` stand in strictly increasing position. */
  predicate InCategoryOrder(a: seq<Category>) {
    forall i, j :: 0 <= i < j < |a| ==> Position(a[i]) < Position(a[j])
  }

  lemma CategoriesInOrder()
    ensures InCategoryOrder(Categories)
  {
    forall i, j | 0 <= i < j < |Categories| ensures Position(Categories[i]) < Position(Categories[j]) {
      PositionOf(i);
      PositionOf(j);
    }
  }

  /** Deleting categories from a list in category order keeps it in category order. */
  lemma {:induction false} SubseqInOrder(a: seq<Category>, b: seq<Category>)
    requires IsSubseq(a, b) && InCategoryOrder(b)
    ensures InCategoryOrder(a)
    decreases |b|
  {
    if a != [] {
      var a', b' := a[..|a| - 1], b[..|b| - 1];
      assert InCategoryOrder(b') by {
        assert forall i :: 0 <= i < |b'| ==> b'[i] == b[i];
      }
      if a[|a| - 1] == b[|b| - 1] && IsSubseq(a', b') {
        SubseqInOrder(a', b');
        SubseqMembers(a', b');
        forall i, j | 0 <= i < j < |a| ensures Position(a[i]) < Position(a[j]) {
          assert a[i] == a'[i] && a[i] in a';
          if j < |a| - 1 {
            assert a[j] == a'[j];
          } else {
            var k :| 0 <= k < |b'| && b'[k] == a[i];
            assert b[k] == b'[k];
          }
        }
      } else {
        SubseqInOrder(a, b');
      }
    }
  }

  /** Some input of the list contains `?`. */
  predicate HasQuestion(row: seq<string>) {
    exists d :: d in row && '?' in d
  }

  /** The number of the categories `cs` that have an input with `?`. */
  function DirtyIn(inputs: map<Category, seq<string>>, cs: seq<Category>): (n: nat)
    ensures n <= |cs|
    ensures n == 0 <==> forall j :: 0 <= j < |cs| && cs[j] in inputs ==> !HasQuestion(inputs[cs[j]])
    ensures n == |cs| <==> forall j :: 0 <= j < |cs| ==> cs[j] in inputs && HasQuestion(inputs[cs[j]])
    ensures n == |DirtyPositions(inputs, cs)|
    decreases |cs|
  {
    if cs == [] then
      assert DirtyPositions(inputs, cs) == {};
      0
    else
      var front := cs[..|cs| - 1];
      var c := cs[|cs| - 1];
      assert forall j :: 0 <= j < |front| ==> cs[j] == front[j];
      DirtyPositionsSnoc(inputs, cs);
      DirtyIn(inputs, front) + (if c in inputs && HasQuestion(inputs[c]) then 1 else 0)
  }

  /** Counting one more category of a list adds one exactly when it is dirty. */
  lemma DirtyInStep(inputs: map<Category, seq<string>>, cs: seq<Category>, k: nat)
    requires k < |cs|
    ensures DirtyIn(inputs, cs[..k + 1]) ==
      DirtyIn(inputs, cs[..k]) + (if cs[k] in inputs && HasQuestion(inputs[cs[k]]) then 1 else 0)
  {
    assert cs[..k + 1][..k] == cs[..k];
  }

  /** One more category adds its position exactly when it is dirty. */
  lemma DirtyPositionsSnoc(inputs: map<Category, seq<string>>, cs: seq<Category>)
    requires cs != []
    ensures |DirtyPositions(inputs, cs)| == |DirtyPositions(inputs, cs[..|cs| - 1])| +
      (if cs[|cs| - 1] in inputs && HasQuestion(inputs[cs[|cs| - 1]]) then 1 else 0)
  {
    var front, c := cs[..|cs| - 1], cs[|cs| - 1];
    var before := DirtyPositions(inputs, front);
    assert forall j :: 0 <= j < |front| ==> cs[j] == front[j];
    assert |cs| - 1 !in before;
    if c in inputs && HasQuestion(inputs[c]) {
      assert DirtyPositions(inputs, cs) == before + {|cs| - 1};
    } else {
      assert DirtyPositions(inputs, cs) == before;
    }
  }

  /** The positions in `cs` of the categories that have an input with `?`. */
  function DirtyPositions(inputs: map<Category, seq<string>>, cs: seq<Category>): set<nat> {
    set j: nat | j < |cs| && cs[j] in inputs && HasQuestion(inputs[cs[j]])
  }

  /** The categories that have an input with `?`. */
  function DirtyCategories(inputs: map<Category, seq<string>>): set<Category> {
    set c | c in inputs && HasQuestion(inputs[c])
  }

  /**
    Over a list naming each category at most once, the count is the number
    of dirty categories the list names.
  */
  lemma {:induction false} DirtyInCategories(inputs: map<Category, seq<string>>, cs: seq<Category>)
    requires forall i, j :: 0 <= i < j < |cs| ==> cs[i] != cs[j]
    ensures DirtyIn(inputs, cs) == |set c | c in DirtyCategories(inputs) && c in cs|
    decreases |cs|
  {
    if cs == [] {
      assert (set c | c in DirtyCategories(inputs) && c in cs) == {};
    } else {
      var front, c := cs[..|cs| - 1], cs[|cs| - 1];
      assert cs == front + [c];
      DirtyInCategories(inputs, front);
      assert c !in front;
      NamedSnoc(DirtyCategories(inputs), front, c);
    }
  }

  /** Naming one more category, not named before, adds it exactly when it belongs to `d`. */
  lemma NamedSnoc(d: set<Category>, front: seq<Category>, c: Category)
    requires c !in front
    ensures |set x | x in d && x in front + [c]| == |set x | x in d && x in front| + (if c in d then 1 else 0)
  {
    var before := set x | x in d && x in front;
    if c in d {
      assert (set x | x in d && x in front + [c]) == before + {c};
    } else {
      assert (set x | x in d && x in front + [c]) == before;
    }
  }

  /** `list(filter(None, xs))`: the non-empty strings, in order. */
  function NonEmpty(xs: seq<string>): (r: seq<string>)
    ensures IsSubseq(r, xs)
    ensures forall x :: x in r <==> x in xs && x != ""
    ensures forall x :: x != "" ==> multiset(r)[x] == multiset(xs)[x]
    decreases |xs|
  {
    if xs == [] then []
    else
      var front := xs[..|xs| - 1];
      var x := xs[|xs| - 1];
      assert xs == front + [x];
      var r := NonEmpty(front);
      if x == "" then
        SubseqExtend(r, front, x);
        r
      else
        SubseqSnoc(r, front, x);
        r + [x]
  }

  /** One row of the error report. */
  datatype ErrorRow = ErrorRow(serial: int, catalog: string, inputs: seq<string>, results: seq<string>, targets: seq<string>)

  /** The `(index, before, after)` triple's index part. */
  datatype ExcelIndex = ExcelIndex(sNum: int, no: int)

  class Record {
    var year: int
    var month: int
    var serial: int
    var number: int
    var identical: map<Category, bool>
    var corrects: map<Category, bool>
    var inputs: map<Category, seq<string>>
    var results: map<Category, seq<string>>
    var targets: map<Category, seq<string>>

    /** A record with its identifiers and, as the dataclass defaults give, empty dictionaries. */
    constructor(year: int, month: int, serial: int, number: int)
      ensures this.year == year && this.month == month && this.serial == serial && this.number == number
      ensures identical == map[] && corrects == map[]
      ensures inputs == map[] && results == map[] && targets == map[]
    {
      this.year, this.month, this.serial, this.number := year, month, serial, number;
      identical, corrects := map[], map[];
      inputs, results, targets := map[], map[], map[];
    }

    /** `is_correct`: no verdict is `False`; so a record without verdicts is correct. */
    predicate IsCorrect()
      reads this
      ensures IsCorrect() <==> false !in corrects.Values
    {
      forall c :: c in corrects ==> corrects[c]
    }

    /** `is_identical`: no comparison with the target is `False`. */
    predicate IsIdentical()
      reads this
      ensures IsIdentical() <==> false !in identical.Values
    {
      forall c :: c in identical ==> identical[c]
    }

    /**
      `dirty`: the number of categories with an input containing `?` — at
      most one per category, and zero exactly when no input list has one.
    */
    function DirtyCount(): (n: nat)
      reads this
      ensures n <= |Categories|
      ensures n == 0 <==> forall c :: c in inputs ==> !HasQuestion(inputs[c])
      ensures n == |DirtyCategories(inputs)|
    {
      DirtyNone(inputs);
      DirtyInCategories(inputs, Categories);
      forall c | c in DirtyCategories(inputs) ensures c in Categories {
        CategoriesComplete(c);
      }
      assert (set c | c in DirtyCategories(inputs) && c in Categories) == DirtyCategories(inputs);
      DirtyIn(inputs, Categories)
    }

    /** `dirty` as the counting loop over the categories. */
    method Dirty() returns (count: nat)
      ensures count == DirtyCount()
      ensures count <= |Categories|
    {
      count := 0;
      for k := 0 to |Categories|
        invariant count == DirtyIn(inputs, Categories[..k])
      {
        var catalog := Categories[k];
        DirtyInStep(inputs, Categories, k);
        if catalog in inputs && HasQuestion(inputs[catalog]) {
          count := count + 1;
        }
      }
      assert Categories[..|Categories|] == Categories;
    }

    /** What `get_errors` looks up: a verdict for every category, and the lists of each failed one. */
    predicate ErrorsReady()
      reads this
    {
      forall c :: c in corrects && (!corrects[c] ==> c in inputs && c in results && c in targets)
    }

    /** The categories of `cs` whose verdict is a failure, in the order of `cs`. */
    function Failed(cs: seq<Category>): (f: seq<Category>)
      requires ErrorsReady()
      reads this
      ensures IsSubseq(f, cs)
      ensures forall c :: c in f <==> c in cs && !corrects[c]
      decreases |cs|
    {
      if cs == [] then []
      else
        var front := cs[..|cs| - 1];
        var c := cs[|cs| - 1];
        assert cs == front + [c];
        var f := Failed(front);
        if corrects[c] then
          SubseqExtend(f, front, c);
          f
        else
          SubseqSnoc(f, front, c);
          f + [c]
    }

    /** The error rows of the categories `cs`: one per failed category, in the order of `cs`. */
    function ErrorsFrom(cs: seq<Category>): (r: seq<ErrorRow>)
      requires ErrorsReady()
      reads this
      ensures |r| == |Failed(cs)|
      ensures forall i :: 0 <= i < |r| ==> Failed(cs)[i] in Failed(cs) && r[i] == ErrorOf(Failed(cs)[i])
      ensures forall e :: e in r <==> exists c :: c in cs && !corrects[c] && e == ErrorOf(c)
      decreases |cs|
    {
      if cs == [] then []
      else
        var front := cs[..|cs| - 1];
        var c := cs[|cs| - 1];
        assert forall x :: x in cs <==> x in front || x == c by {
          assert cs == front + [c];
        }
        ErrorsFrom(front) + (if corrects[c] then [] else [ErrorOf(c)])
    }

    /** The error row of a failed category, its empty slots filtered out. */
    function ErrorOf(c: Category): ErrorRow
      requires ErrorsReady() && !corrects[c]
      reads this
    {
      ErrorRow(serial, Name(c), NonEmpty(inputs[c]), NonEmpty(results[c]), NonEmpty(targets[c]))
    }

    /**
      `get_errors`: exactly one row per failed category, the failed
      categories taken in the order 甲, 乙, 丙, 丁, 其他.
    */
    function GetErrors(): (r: seq<ErrorRow>)
      requires ErrorsReady()
      reads this
      ensures forall c :: c in Failed(Categories) <==> !corrects[c]
      ensures InCategoryOrder(Failed(Categories))
      ensures |r| == |Failed(Categories)|
      ensures forall i :: 0 <= i < |r| ==> Failed(Categories)[i] in Failed(Categories) && r[i] == ErrorOf(Failed(Categories)[i])
    {
      forall c ensures c in Categories {
        CategoriesComplete(c);
      }
      CategoriesInOrder();
      SubseqInOrder(Failed(Categories), Categories);
      ErrorsFrom(Categories)
    }

    /**
      `for_json`: pads every category's results to four slots in place, and
      returns the identifiers (month zero-filled to two digits, serial to
      six) and the first four results of each category, one per column.
    */
    method ForJson() returns (data: map<Column, string>)
      requires forall c :: c in results
      modifies this
      ensures year == old(year) && month == old(month) && serial == old(serial) && number == old(number)
      ensures identical == old(identical) && corrects == old(corrects)
      ensures inputs == old(inputs) && targets == old(targets)
      ensures forall c :: c in results && results[c] == Pad4(old(results)[c])
      ensures forall k :: k in data <==> (k.SlotColumn? ==> k.i < 4)
      ensures data[YearColumn] == Str(year)
      ensures data[MonthColumn] == ZFill(Str(month), 2)
      ensures data[SerialColumn] == ZFill(Str(serial), 6)
      ensures forall c, i :: 0 <= i < 4 ==> data[SlotColumn(c, i)] == if i < |old(results)[c]| then old(results)[c][i] else ""
    {
      var rows;
      rows, data := JsonFields(year, month, serial, results);
      results := rows;
    }

    /**
      `for_excel`: pads every category's inputs and results to four slots in
      place, and returns the serial and number, and the first four inputs
      (`before`) and results (`after`) of each category, one per slot column.
    */
    method ForExcel() returns (index: ExcelIndex, before: map<Column, string>, after: map<Column, string>)
      requires forall c :: c in inputs && c in results
      modifies this
      ensures year == old(year) && month == old(month) && serial == old(serial) && number == old(number)
      ensures identical == old(identical) && corrects == old(corrects) && targets == old(targets)
      ensures forall c :: c in inputs && inputs[c] == Pad4(old(inputs)[c])
      ensures forall c :: c in results && results[c] == Pad4(old(results)[c])
      ensures index == ExcelIndex(serial, number)
      ensures forall k :: k in before <==> k.SlotColumn? && k.i < 4
      ensures forall k :: k in after <==> k.SlotColumn? && k.i < 4
      ensures forall c, i :: 0 <= i < 4 ==> before[SlotColumn(c, i)] == if i < |old(inputs)[c]| then old(inputs)[c][i] else ""
      ensures forall c, i :: 0 <= i < 4 ==> after[SlotColumn(c, i)] == if i < |old(results)[c]| then old(results)[c][i] else ""
    {
      index := ExcelIndex(serial, number);
      var ins, outs;
      ins, before := PadAndFill(inputs);
      FilledColumns(before, inputs, ins);
      outs, after := PadAndFill(results);
      FilledColumns(after, results, outs);
      inputs, results := ins, outs;
    }
  }

  /**
    The category loop of `for_json` and `for_excel`: pads each category's
    list to four slots and copies its first four entries into the slot
    columns.
  */
  method PadAndFill(rows: map<Category, seq<string>>) returns (padded: map<Category, seq<string>>, data: map<Column, string>)
    requires forall c :: c in rows
    ensures forall c :: c in padded && padded[c] == Pad4(rows[c])
    ensures Filled(data, padded, |Categories|)
  {
    data := map[];
    padded := rows;
    for k := 0 to |Categories|
      invariant PaddedBefore(padded, rows, k)
      invariant Filled(data, padded, k)
    {
      var catalog := Categories[k];
      PositionOf(k);
      PaddedBeforeStep(padded, rows, k);
      var row := PadList(padded[catalog]);
      FilledUpdate(data, padded, k, catalog, row);
      padded := padded[catalog := row];
      data := FillRow(data, padded, k);
    }
  }

  /** The categories before position `k` are padded, the others are as they were. */
  ghost predicate PaddedBefore(padded: map<Category, seq<string>>, rows: map<Category, seq<string>>, k: nat)
    requires forall c :: c in rows
  {
    forall c :: c in padded && padded[c] == if Position(c) < k then Pad4(rows[c]) else rows[c]
  }

  /** Padding the category at position `k` moves the boundary one place on. */
  lemma PaddedBeforeStep(padded: map<Category, seq<string>>, rows: map<Category, seq<string>>, k: nat)
    requires forall c :: c in rows
    requires k < |Categories| && PaddedBefore(padded, rows, k)
    ensures padded[Categories[k]] == rows[Categories[k]]
    ensures PaddedBefore(padded[Categories[k] := Pad4(rows[Categories[k]])], rows, k + 1)
  {
    PositionOf(k);
  }

  /** `xs += ["" for _ in range(4 - len(xs))]` when `len(xs) < 4`. */
  method PadList(xs: seq<string>) returns (r: seq<string>)
    ensures r == Pad4(xs)
  {
    r := xs;
    if |r| < 4 {
      r := r + seq(4 - |r|, _ => "");
    }
  }

  /**
    `data` holds slot `i` of every category before position `k`, taken from
    `rows`, and nothing else.
  */
  ghost predicate Filled(data: map<Column, string>, rows: map<Category, seq<string>>, k: nat) {
    (forall key :: key in data ==> key.SlotColumn? && key.i < 4 && Position(key.c) < k) &&
    (forall c :: Position(c) < k ==> c in rows && |rows[c]| >= 4) &&
    (forall c, i: nat :: Position(c) < k && i < 4 ==> SlotColumn(c, i) in data && data[SlotColumn(c, i)] == rows[c][i])
  }

  /** Changing the list of a category not yet copied keeps what is filled. */
  lemma FilledUpdate(data: map<Column, string>, rows: map<Category, seq<string>>, k: nat, c: Category, row: seq<string>)
    requires Filled(data, rows, k) && k <= Position(c)
    ensures Filled(data, rows[c := row], k)
  {
    var r := rows[c := row];
    forall d | Position(d) < k ensures d in r && |r[d]| >= 4 {
      assert d != c;
    }
    forall d, i: nat | Position(d) < k && i < 4 ensures data[SlotColumn(d, i)] == r[d][i] {
      assert d != c;
    }
  }

  /** The inner `for i in range(4)` loop: the four slot columns of the category at position `k`. */
  method FillRow(data: map<Column, string>, rows: map<Category, seq<string>>, k: nat) returns (r: map<Column, string>)
    requires k < |Categories| && Categories[k] in rows && |rows[Categories[k]]| >= 4
    requires Filled(data, rows, k)
    ensures Filled(r, rows, k + 1)
  {
    var catalog := Categories[k];
    PositionOf(k);
    var row := rows[catalog];
    r := data;
    for i := 0 to 4
      invariant forall key :: key in r ==> key in data || (key.SlotColumn? && key.c == catalog && key.i < i)
      invariant forall key :: key in data ==> key in r && r[key] == data[key]
      invariant forall j: nat :: j < i ==> SlotColumn(catalog, j) in r && r[SlotColumn(catalog, j)] == row[j]
    {
      r := r[SlotColumn(catalog, i) := row[i]];
    }
    assert forall c :: Position(c) < k + 1 <==> Position(c) < k || c == catalog;
  }

  /** After the last category the columns hold the first four entries of each list, empty where it is shorter. */
  lemma FilledColumns(data: map<Column, string>, rows: map<Category, seq<string>>, padded: map<Category, seq<string>>)
    requires forall c :: c in rows && c in padded && padded[c] == Pad4(rows[c])
    requires Filled(data, padded, |Categories|)
    ensures forall key :: key in data <==> key.SlotColumn? && key.i < 4
    ensures forall c, i :: 0 <= i < 4 ==> data[SlotColumn(c, i)] == if i < |rows[c]| then rows[c][i] else ""
  {
    forall c, i | 0 <= i < 4 ensures data[SlotColumn(c, i)] == if i < |rows[c]| then rows[c][i] else "" {
      assert FitFour(rows[c])[i] == Pad4(rows[c])[i];
    }
  }

  /** What `for_json` computes: the padded results and the output columns. */
  method JsonFields(year: int, month: int, serial: int, results: map<Category, seq<string>>)
    returns (padded: map<Category, seq<string>>, data: map<Column, string>)
    requires forall c :: c in results
    ensures forall c :: c in padded && padded[c] == Pad4(results[c])
    ensures forall k :: k in data <==> (k.SlotColumn? ==> k.i < 4)
    ensures data[YearColumn] == Str(year)
    ensures data[MonthColumn] == ZFill(Str(month), 2)
    ensures data[SerialColumn] == ZFill(Str(serial), 6)
    ensures forall c, i :: 0 <= i < 4 ==> data[SlotColumn(c, i)] == if i < |results[c]| then results[c][i] else ""
  {
    var columns;
    padded, columns := PadAndFill(results);
    FilledColumns(columns, results, padded);
    var y, m, s := Str(year), ZFill(Str(month), 2), ZFill(Str(serial), 6);
    data := columns[YearColumn := y][MonthColumn := m][SerialColumn := s];
    IdentifiersBesideSlots(columns, y, m, s);
  }

  /** Adding the three identifier columns to the slot columns leaves every slot as it was. */
  lemma IdentifiersBesideSlots(columns: map<Column, string>, y: string, m: string, s: string)
    requires forall key :: key in columns <==> key.SlotColumn? && key.i < 4
    ensures var data := columns[YearColumn := y][MonthColumn := m][SerialColumn := s];
      (forall k :: k in data <==> (k.SlotColumn? ==> k.i < 4)) &&
      data[YearColumn] == y && data[MonthColumn] == m && data[SerialColumn] == s &&
      forall c, i :: 0 <= i < 4 ==> data[SlotColumn(c, i)] == columns[SlotColumn(c, i)]
  {
  }

  /** A record with no verdicts is correct: `all` of nothing holds. */
  lemma NoVerdictsCorrect(r: Record)
    requires r.corrects == map[]
    ensures r.IsCorrect()
  {
  }

  /** With a verdict for every category, a record is correct iff it reports no error. */
  lemma CorrectIffNoErrors(r: Record)
    requires r.ErrorsReady()
    ensures r.IsCorrect() <==> r.GetErrors() == []
  {
    if !r.IsCorrect() {
      var c :| c in r.corrects && !r.corrects[c];
      CategoriesComplete(c);
      assert r.ErrorOf(c) in r.GetErrors();
    }
    if r.GetErrors() != [] {
      var e := r.GetErrors()[0];
      assert e in r.GetErrors();
      var c :| c in Categories && !r.corrects[c] && e == r.ErrorOf(c);
    }
  }

  /** Each failed category has exactly its row, its lists without the empty slots. */
  lemma ErrorRows(r: Record, c: Category)
    requires r.ErrorsReady()
    ensures !r.corrects[c] <==> exists e :: e in r.GetErrors() && e.catalog == Name(c)
    ensures !r.corrects[c] ==> r.ErrorOf(c) in r.GetErrors()
  {
    CategoriesComplete(c);
    if !r.corrects[c] {
      var e := r.ErrorOf(c);
      assert e in r.GetErrors() && e.catalog == Name(c);
    } else if e :| e in r.GetErrors() && e.catalog == Name(c) {
      var d :| d in Categories && !r.corrects[d] && e == r.ErrorOf(d);
      NamesDistinct(c, d);
    }
  }
}
