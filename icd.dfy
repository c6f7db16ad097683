/**
  `ICD.generate` (icd_tokenize/icd.py): builds the diagnosis dictionary the
  tokenizer loads.  It starts from the curated diagnoses, adds every usable
  diagnosis written on the certificates of the data files (recording those
  as not verified), switches off the excluded ones, and writes the kept
  keys, sorted.  The workbooks, the data directory and the output files are
  given and returned as values.
*/
module Icd {
  import opened Text
  import opened Sorting

  /** A data file: its name, and per row the twenty diagnosis cells 甲, 甲2, 甲3, 甲4, 乙, ..., 其他4 in that order. */
  datatype DataFile = DataFile(name: string, rows: seq<seq<string>>)

  /** What `generate` writes: `icd.csv`, `non-verified-icd.csv`, and the warnings it prints. */
  datatype Generated = Generated(icd: seq<string>, nonVerified: seq<string>, warnings: seq<string>)

  /** The `ValueError`s for a missing workbook or data directory, or what was written. */
  datatype Outcome = MissingWorkbook | MissingDataDirectory | Written(value: Generated)

  /** Files whose name carries this mark are not read. */
  const SkipMark := "(00000)"

  /** The diagnosis cells of one row: five categories, four slots each. */
  const CellsPerRow := 20

  /** No string occurs twice. */
  predicate Distinct(s: seq<string>) {
    forall i, j :: 0 <= i < j < |s| ==> s[i] != s[j]
  }

  /** A cell worth adding: not empty and without `?`. */
  predicate Usable(key: string) {
    key != "" && '?' !in key
  }

  /** The file is skipped for the mark in its name. */
  predicate Skipped(f: DataFile) {
    Contains(f.name, SkipMark)
  }

  /** The cells of the rows, row after row. */
  function RowCells(rows: seq<seq<string>>): seq<string>
    decreases |rows|
  {
    if rows == [] then [] else RowCells(rows[..|rows| - 1]) + rows[|rows| - 1]
  }

  /** The cells of all the files that are read, file after file. */
  function Cells(files: seq<DataFile>): seq<string>
    decreases |files|
  {
    if files == [] then []
    else
      var f := files[|files| - 1];
      Cells(files[..|files| - 1]) + (if Skipped(f) then [] else RowCells(f.rows))
  }

  /** A file with the mark in its name adds no cell, wherever it stands. */
  lemma {:induction false} SkippedFileIgnored(before: seq<DataFile>, f: DataFile, after: seq<DataFile>)
    requires Skipped(f)
    ensures Cells(before + [f] + after) == Cells(before + after)
    decreases |after|
  {
    if after == [] {
      assert before + [f] + after == before + [f];
      DropLast(before, [f]);
      assert before + after == before;
    } else {
      SkippedFileIgnored(before, f, after[..|after| - 1]);
      DropLast(before + [f], after);
      DropLast(before, after);
    }
  }

  /**
    `icd_set` as its keys in insertion order with their flags, and
    `non_icd_set` as its keys in insertion order (its flags are all `True`).
  */
  datatype Table = Table(flags: map<string, bool>, order: seq<string>, added: seq<string>)

  /** The key list holds each dictionary key once, and every added key is a dictionary key. */
  ghost predicate Valid(t: Table) {
    Distinct(t.order) && Distinct(t.added) &&
    (forall x :: x in t.flags <==> x in t.order) &&
    (forall x :: x in t.added ==> x in t.flags)
  }

  /** One cell: a usable key not yet present is switched on and recorded as not verified. */
  function Put(t: Table, key: string): (r: Table)
    ensures forall x :: x in r.flags <==> x in t.flags || (x == key && Usable(key))
    ensures forall x :: x in t.flags ==> r.flags[x] == t.flags[x]
    ensures key in r.flags && key !in t.flags ==> r.flags[key] && r.added == t.added + [key]
    ensures key in t.flags || !Usable(key) ==> r == t
  {
    if Usable(key) && key !in t.flags then
      Table(t.flags[key := true], t.order + [key], t.added + [key])
    else t
  }

  /** The cells `keys`, one after the other. */
  function PutAll(t: Table, keys: seq<string>): (r: Table)
    ensures forall x :: x in r.flags <==> x in t.flags || (x in keys && Usable(x))
    ensures forall x :: x in t.flags ==> r.flags[x] == t.flags[x]
    decreases |keys|
  {
    if keys == [] then t else Put(PutAll(t, keys[..|keys| - 1]), keys[|keys| - 1])
  }

  /** A key appended to a list without it leaves the list without repeats. */
  lemma AppendDistinct(s: seq<string>, x: string)
    requires Distinct(s) && x !in s
    ensures Distinct(s + [x])
  {
  }

  /**
    The cells switch on exactly the usable keys among them, leave the flags
    already there alone, and record as not verified exactly the usable keys
    that were not there before.
  */
  lemma {:induction false} PutAllFacts(t: Table, keys: seq<string>)
    requires Valid(t)
    ensures Valid(PutAll(t, keys))
    ensures forall x :: x in PutAll(t, keys).flags <==> x in t.flags || (x in keys && Usable(x))
    ensures forall x :: x in t.flags ==> PutAll(t, keys).flags[x] == t.flags[x]
    ensures forall x :: x in PutAll(t, keys).flags && x !in t.flags ==> PutAll(t, keys).flags[x]
    ensures forall x :: x in PutAll(t, keys).added <==> x in t.added || (x in keys && Usable(x) && x !in t.flags)
    decreases |keys|
  {
    if keys != [] {
      var front, key := keys[..|keys| - 1], keys[|keys| - 1];
      assert keys == front + [key];
      PutAllFacts(t, front);
      var u := PutAll(t, front);
      if Usable(key) && key !in u.flags {
        AppendDistinct(u.order, key);
        AppendDistinct(u.added, key);
      }
    }
  }

  /** Putting two runs of cells is putting the first, then the second. */
  lemma {:induction false} PutAllAppend(t: Table, a: seq<string>, b: seq<string>)
    ensures PutAll(t, a + b) == PutAll(PutAll(t, a), b)
    decreases |b|
  {
    if b == [] {
      assert a + b == a;
    } else {
      var front := b[..|b| - 1];
      assert (a + b)[..|a + b| - 1] == a + front;
      PutAllAppend(t, a, front);
    }
  }

  /** `for _, row in icd_df.iterrows(): icd_set[row["diagnosis"]] = True`. */
  method Seed(diagnoses: seq<string>) returns (t: Table)
    ensures Valid(t) && t.added == []
    ensures forall x :: x in t.flags <==> x in diagnoses
    ensures forall x :: x in t.flags ==> t.flags[x]
  {
    t := Table(map[], [], []);
    for k := 0 to |diagnoses|
      invariant Valid(t) && t.added == []
      invariant forall x :: x in t.flags <==> x in diagnoses[..k]
      invariant forall x :: x in t.flags ==> t.flags[x]
    {
      var key := diagnoses[k];
      assert diagnoses[..k + 1] == diagnoses[..k] + [key];
      if key !in t.flags {
        AppendDistinct(t.order, key);
        t := t.(order := t.order + [key]);
      }
      t := t.(flags := t.flags[key := true]);
    }
    assert diagnoses[..|diagnoses|] == diagnoses;
  }

  /** The two loops over the categories and their four slots, for one row. */
  method ScanRow(t: Table, row: seq<string>) returns (r: Table)
    requires |row| == CellsPerRow
    ensures r == PutAll(t, row)
  {
    r := t;
    for k := 0 to 5
      invariant r == PutAll(t, row[..4 * k])
    {
      r := ScanSlots(t, row, k, r);
    }
    assert row[..20] == row;
  }

  /** The loop over the four slots of the `k`-th category of one row. */
  method ScanSlots(t: Table, row: seq<string>, k: nat, u: Table) returns (r: Table)
    requires |row| == CellsPerRow && k < 5
    requires u == PutAll(t, row[..4 * k])
    ensures r == PutAll(t, row[..4 * k + 4])
  {
    r := u;
    for i := 0 to 4
      invariant r == PutAll(t, row[..4 * k + i])
    {
      var key := row[4 * k + i];
      PutAllStep(t, row, 4 * k + i);
      if key != "" && '?' !in key {
        if key !in r.flags {
          r := Table(r.flags[key := true], r.order + [key], r.added + [key]);
        }
      }
    }
  }

  /** One more cell of a row is one more `Put`. */
  lemma PutAllStep(t: Table, cells: seq<string>, n: nat)
    requires n < |cells|
    ensures PutAll(t, cells[..n + 1]) == Put(PutAll(t, cells[..n]), cells[n])
  {
    assert cells[..n + 1][..n] == cells[..n];
  }

  /** The loop over the rows of one file. */
  method ScanRows(t: Table, rows: seq<seq<string>>) returns (r: Table)
    requires forall j :: 0 <= j < |rows| ==> |rows[j]| == CellsPerRow
    ensures r == PutAll(t, RowCells(rows))
  {
    r := t;
    for j := 0 to |rows|
      invariant r == PutAll(t, RowCells(rows[..j]))
    {
      assert rows[..j + 1][..j] == rows[..j];
      PutAllAppend(t, RowCells(rows[..j]), rows[j]);
      r := ScanRow(r, rows[j]);
    }
    assert rows[..|rows|] == rows;
  }

  /** The loop over the data files, skipping the marked ones. */
  method ScanFiles(t: Table, files: seq<DataFile>) returns (r: Table)
    requires forall n, j :: 0 <= n < |files| && 0 <= j < |files[n].rows| ==> |files[n].rows[j]| == CellsPerRow
    ensures r == PutAll(t, Cells(files))
  {
    r := t;
    for n := 0 to |files|
      invariant r == PutAll(t, Cells(files[..n]))
    {
      var file := files[n];
      assert files[..n + 1][..n] == files[..n];
      if Contains(file.name, SkipMark) {
        assert Cells(files[..n + 1]) == Cells(files[..n]) + [] == Cells(files[..n]);
        continue;
      }
      PutAllAppend(t, Cells(files[..n]), RowCells(file.rows));
      r := ScanRows(r, file.rows);
    }
    assert files[..|files|] == files;
  }

  /** The excluded keys missing from the dictionary, in order: the warnings printed. */
  function Missing(excluded: seq<string>, flags: map<string, bool>): (r: seq<string>)
    ensures forall x :: x in r <==> x in excluded && x !in flags
    decreases |excluded|
  {
    if excluded == [] then []
    else
      var front, key := excluded[..|excluded| - 1], excluded[|excluded| - 1];
      assert excluded == front + [key];
      Missing(front, flags) + (if key in flags then [] else [key])
  }

  /** The exclusion loop: present keys are switched off, absent ones only warned about. */
  method Exclude(flags: map<string, bool>, excluded: seq<string>) returns (r: map<string, bool>, warnings: seq<string>)
    ensures r.Keys == flags.Keys
    ensures forall x :: x in r ==> r[x] == (flags[x] && x !in excluded)
    ensures warnings == Missing(excluded, flags)
  {
    r, warnings := flags, [];
    for k := 0 to |excluded|
      invariant r.Keys == flags.Keys
      invariant forall x :: x in r ==> r[x] == (flags[x] && x !in excluded[..k])
      invariant warnings == Missing(excluded[..k], flags)
    {
      var key := excluded[k];
      assert excluded[..k + 1] == excluded[..k] + [key];
      if key in r {
        r := r[key := false];
      } else {
        warnings := warnings + [key];
      }
    }
    assert excluded[..|excluded|] == excluded;
  }

  /** `[i for i in list(icd_set.keys()) if icd_set[i]]`. */
  function Kept(order: seq<string>, flags: map<string, bool>): (r: seq<string>)
    requires forall x :: x in order ==> x in flags
    ensures forall x :: x in r <==> x in order && flags[x]
    ensures Distinct(order) ==> Distinct(r)
    decreases |order|
  {
    if order == [] then []
    else
      var front, key := order[..|order| - 1], order[|order| - 1];
      assert order == front + [key];
      Kept(front, flags) + (if flags[key] then [key] else [])
  }

  /** A sorted list holds what the list holds. */
  lemma SortMembers(s: seq<string>, x: string)
    ensures x in Sort(s) <==> x in s
  {
    assert x in Sort(s) <==> x in multiset(Sort(s));
  }

  /**
    `generate`: fails on a missing workbook or data directory; otherwise the
    final list holds, sorted and once each, exactly the curated diagnoses and
    the usable cells of the files read, less the excluded keys; the
    not-verified list holds, sorted and once each, the usable cells that are
    not curated diagnoses; and a warning names each excluded key that is in
    neither.
  */
  method Generate(workbookExists: bool, dataDirExists: bool, diagnoses: seq<string>,
                  files: seq<DataFile>, excluded: seq<string>) returns (out: Outcome)
    requires forall n, j :: 0 <= n < |files| && 0 <= j < |files[n].rows| ==> |files[n].rows[j]| == CellsPerRow
    ensures !workbookExists ==> out == MissingWorkbook
    ensures workbookExists && !dataDirExists ==> out == MissingDataDirectory
    ensures workbookExists && dataDirExists ==> out.Written?
    ensures out.Written? ==>
      var g := out.value;
      Sorted(g.icd) && Distinct(g.icd) &&
      (forall x :: x in g.icd <==> (x in diagnoses || (x in Cells(files) && Usable(x))) && x !in excluded) &&
      Sorted(g.nonVerified) && Distinct(g.nonVerified) &&
      (forall x :: x in g.nonVerified <==> x in Cells(files) && Usable(x) && x !in diagnoses) &&
      (forall x :: x in g.warnings <==> x in excluded && x !in diagnoses && !(x in Cells(files) && Usable(x)))
  {
    if !workbookExists {
      return MissingWorkbook;
    }
    if !dataDirExists {
      return MissingDataDirectory;
    }
    var seeded := Seed(diagnoses);
    var t := ScanFiles(seeded, files);
    PutAllFacts(seeded, Cells(files));
    var flags, warnings := Exclude(t.flags, excluded);
    var kept := Kept(t.order, flags);
    var icd := Sort(kept);
    var nonVerified := Sort(t.added);
    SortNoRepeats(kept);
    SortNoRepeats(t.added);
    forall x ensures x in icd <==> (x in diagnoses || (x in Cells(files) && Usable(x))) && x !in excluded {
      SortMembers(kept, x);
    }
    forall x ensures x in nonVerified <==> x in Cells(files) && Usable(x) && x !in diagnoses {
      SortMembers(t.added, x);
    }
    out := Written(Generated(icd, nonVerified, warnings));
  }
}
