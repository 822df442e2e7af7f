/** `load_data` in info_leakage/data_utils.py: feature files in, the pair
    (instances X, dense labels Y) out, with a cache in front.

    The directory walk, the CSV reader and Python's `float()`/`int()` are not
    modelled: the walk's output is a sequence of files (name and rows, each
    row the list of fields the CSV reader yields, `[]` for a blank line), and
    the two numeric parsers are parameters. */
module Loader {
  import opened Wrappers
  import opened Seqs
  import opened Text
  import opened Labels

  /** One line of a feature file as the CSV reader splits it. */
  type Row = seq<string>

  /** One coerced line: the numeric values of its non-empty fields. */
  type Instance = seq<real>

  datatype FeatureFile = FeatureFile(name: string, rows: seq<Row>)

  /** Python's `float(s)` and `int(s)`: `None` where they raise ValueError. */
  datatype Parsers = Parsers(toFloat: string -> Option<real>, toInt: string -> Option<int>)

  /** The pair (X, Y) that `load_data` returns and caches. */
  datatype Dataset = Dataset(X: seq<Instance>, Y: seq<int>)

  /** The ValueErrors raised while reading the files: `cls, ls = file.split("_")`
      on a name without exactly one underscore, and `int(cls)`. */
  datatype LoadError = MalformedFileName(name: string) | MalformedClass(cls: string)

  /** A file contributes only if it has this many rows, and then exactly this many. */
  const InstancesPerFile: nat := 500

  const ClassSeparator: char := '_'

  /** `float(f) if isfloat(f) else 0`. */
  function Coerce(field: string, p: Parsers): (v: real)
    ensures p.toFloat(field).Some? ==> v == p.toFloat(field).value
    ensures p.toFloat(field).None? ==> v == 0.0
  {
    match p.toFloat(field)
    case Some(v) => v
    case None => 0.0
  }

  /** `[float(f) if isfloat(f) else 0 for f in instance if f]`. */
  function CoerceRow(row: Row, p: Parsers): (instance: Instance)
    ensures |instance| + Count(row, "") == |row|
    decreases |row|
  {
    if row == [] then []
    else
      var field := row[|row| - 1];
      CoerceRow(row[..|row| - 1], p) + (if field == "" then [] else [Coerce(field, p)])
  }

  /** The outer comprehension: one instance per row, blank rows included. */
  function CoerceRows(rows: seq<Row>, p: Parsers): (features: seq<Instance>)
    ensures |features| == |rows|
  {
    seq(|rows|, i requires 0 <= i < |rows| => CoerceRow(rows[i], p))
  }

  /** Field order is kept: coercion distributes over concatenation. */
  lemma {:induction false} CoerceRowAppend(a: Row, b: Row, p: Parsers)
    ensures CoerceRow(a + b, p) == CoerceRow(a, p) + CoerceRow(b, p)
    decreases |b|
  {
    if b == [] {
      assert a + b == a;
    } else {
      var b' := b[..|b| - 1];
      assert (a + b)[..|a + b| - 1] == a + b';
      CoerceRowAppend(a, b', p);
    }
  }

  /** A row without empty fields keeps every field, in place: a parseable
      field becomes its value and any other becomes 0. */
  lemma {:induction false} CoerceRowNoBlanks(row: Row, p: Parsers)
    requires forall f <- row :: f != ""
    ensures |CoerceRow(row, p)| == |row|
    ensures forall k :: 0 <= k < |row| ==>
              CoerceRow(row, p)[k] == (if p.toFloat(row[k]).Some? then p.toFloat(row[k]).value else 0.0)
    decreases |row|
  {
    if row != [] {
      var row' := row[..|row| - 1];
      assert forall f <- row' :: f in row;
      CoerceRowNoBlanks(row', p);
      assert row[|row| - 1] in row;
    }
  }

  /** `[fi for fi in files if fi.endswith(extension)]`. */
  function Matching(files: seq<FeatureFile>, extension: string): (kept: seq<FeatureFile>)
    ensures forall f <- kept :: f in files && EndsWith(f.name, extension)
    ensures forall f <- files :: EndsWith(f.name, extension) ==> f in kept
    decreases |files|
  {
    if files == [] then []
    else
      var rest := Matching(files[..|files| - 1], extension);
      var f := files[|files| - 1];
      assert files == files[..|files| - 1] + [f];
      if EndsWith(f.name, extension) then rest + [f] else rest
  }

  /** The filter keeps order and duplicates: it distributes over concatenation. */
  lemma {:induction false} MatchingAppend(a: seq<FeatureFile>, b: seq<FeatureFile>, extension: string)
    ensures Matching(a + b, extension) == Matching(a, extension) + Matching(b, extension)
    decreases |b|
  {
    if b == [] {
      assert a + b == a;
    } else {
      var b' := b[..|b| - 1];
      assert (a + b)[..|a + b| - 1] == a + b';
      MatchingAppend(a, b', extension);
    }
  }

  /** A single file is kept exactly when its name ends with the extension. */
  lemma MatchingSingle(f: FeatureFile, extension: string)
    ensures Matching([f], extension) == if EndsWith(f.name, extension) then [f] else []
  {
    assert [f][..0] == [];
  }

  /** What one file adds to (X, Y) in the body of the loop over files. */
  function FileContribution(f: FeatureFile, extension: string, p: Parsers): (r: Result<Dataset, LoadError>)
    ensures r.Err? <==>
              EndsWith(f.name, extension) &&
              (|Split(f.name, ClassSeparator)| != 2 ||
               (|f.rows| >= InstancesPerFile && p.toInt(Split(f.name, ClassSeparator)[0]).None?))
    ensures r == Err(MalformedFileName(f.name)) <==>
              EndsWith(f.name, extension) && |Split(f.name, ClassSeparator)| != 2
    ensures r.Ok? ==>
              |r.value.X| == |r.value.Y| &&
              |r.value.X| == (if EndsWith(f.name, extension) && |f.rows| >= InstancesPerFile
                              then InstancesPerFile else 0)
    ensures r.Ok? ==> forall k :: 0 <= k < |r.value.X| ==> r.value.X[k] == CoerceRow(f.rows[k], p)
    ensures r.Ok? ==> forall y <- r.value.Y :: p.toInt(Split(f.name, ClassSeparator)[0]) == Some(y + 1)
  {
    if !EndsWith(f.name, extension) then Ok(Dataset([], []))
    else
      var parts := Split(f.name, ClassSeparator);
      if |parts| != 2 then Err(MalformedFileName(f.name))
      else
        var features := CoerceRows(f.rows, p);
        if |features| < InstancesPerFile then Ok(Dataset([], []))
        else
          match p.toInt(parts[0])
          case None => Err(MalformedClass(parts[0]))
          case Some(cls) =>
            Ok(Dataset(features[..InstancesPerFile], seq(InstancesPerFile, _ => cls - 1)))
  }

  /** The loop over all files: (X, Y) before the remap, or the first error raised. */
  function Scan(files: seq<FeatureFile>, extension: string, p: Parsers): (r: Result<Dataset, LoadError>)
    ensures r.Ok? ==> |r.value.X| == |r.value.Y|
    ensures r.Ok? ==> |r.value.X| % InstancesPerFile == 0 && |r.value.X| <= InstancesPerFile * |files|
    decreases |files|
  {
    if files == [] then Ok(Dataset([], []))
    else
      match Scan(files[..|files| - 1], extension, p)
      case Err(e) => Err(e)
      case Ok(acc) =>
        match FileContribution(files[|files| - 1], extension, p)
        case Err(e) => Err(e)
        case Ok(c) => Ok(Dataset(acc.X + c.X, acc.Y + c.Y))
  }

  /** A file whose lines reach X and Y: it matches the extension, its name
      splits in two on `_`, it has at least 500 lines and its class is an int. */
  predicate Kept(f: FeatureFile, extension: string, p: Parsers)
  {
    && EndsWith(f.name, extension)
    && |Split(f.name, ClassSeparator)| == 2
    && |f.rows| >= InstancesPerFile
    && p.toInt(Split(f.name, ClassSeparator)[0]).Some?
  }

  /** `int(cls) - 1` for a file whose class is an int. */
  function ClassLabel(f: FeatureFile, p: Parsers): int
    requires p.toInt(Split(f.name, ClassSeparator)[0]).Some?
  {
    p.toInt(Split(f.name, ClassSeparator)[0]).value - 1
  }

  /** The labels of all kept files. */
  function KeptClassLabels(files: seq<FeatureFile>, extension: string, p: Parsers): set<int>
  {
    set f <- files | Kept(f, extension, p) :: ClassLabel(f, p)
  }

  /** `load_data` without its cache: scan, then remap the labels densely. */
  function Load(files: seq<FeatureFile>, extension: string, p: Parsers): (r: Result<Dataset, LoadError>)
    ensures r.Ok? ==> |r.value.X| == |r.value.Y|
    ensures r.Err? <==> Scan(files, extension, p).Err?
  {
    match Scan(files, extension, p)
    case Err(e) => Err(e)
    case Ok(raw) => Ok(Dataset(raw.X, Remap(raw.Y)))
  }

  /** A matching file with at least 500 lines and a numeric class adds its
      first 500 coerced lines, each labelled with the class minus one. */
  lemma KeptFileStep(f: FeatureFile, extension: string, p: Parsers, cls: int)
    requires EndsWith(f.name, extension) && |Split(f.name, ClassSeparator)| == 2
    requires |f.rows| >= InstancesPerFile && p.toInt(Split(f.name, ClassSeparator)[0]) == Some(cls)
    ensures FileContribution(f, extension, p) ==
              Ok(Dataset(CoerceRows(f.rows, p)[..InstancesPerFile], seq(InstancesPerFile, _ => cls - 1)))
  {
  }

  /** A matching file whose name splits in two but with fewer than 500 lines adds nothing. */
  lemma ShortFileStep(f: FeatureFile, extension: string, p: Parsers)
    requires EndsWith(f.name, extension) && |Split(f.name, ClassSeparator)| == 2
    requires |f.rows| < InstancesPerFile
    ensures FileContribution(f, extension, p) == Ok(Dataset([], []))
  {
  }

  /** One turn of the loop over files: a file whose step succeeds appends its rows and labels. */
  lemma ScanStep(files: seq<FeatureFile>, i: nat, extension: string, p: Parsers)
    requires i < |files|
    requires Scan(files[..i], extension, p).Ok? && FileContribution(files[i], extension, p).Ok?
    ensures var acc, c := Scan(files[..i], extension, p).value, FileContribution(files[i], extension, p).value;
            Scan(files[..i + 1], extension, p) == Ok(Dataset(acc.X + c.X, acc.Y + c.Y))
  {
    assert files[..i + 1][..i] == files[..i];
  }

  /** One turn of the loop over files: a file whose step fails ends the whole scan with its error. */
  lemma ScanStepFails(files: seq<FeatureFile>, i: nat, extension: string, p: Parsers)
    requires i < |files|
    requires Scan(files[..i], extension, p).Ok? && FileContribution(files[i], extension, p).Err?
    ensures Scan(files, extension, p) == FileContribution(files[i], extension, p)
  {
    assert files[..i + 1][..i] == files[..i];
    ScanErrorSticks(files, i + 1, extension, p);
  }

  /** Files whose name does not end with the extension change neither X nor Y:
      scanning only the matching files gives the same outcome. */
  lemma {:induction false} ScanIgnoresNonMatching(files: seq<FeatureFile>, extension: string, p: Parsers)
    ensures Scan(Matching(files, extension), extension, p) == Scan(files, extension, p)
    decreases |files|
  {
    if files != [] {
      var init, f := files[..|files| - 1], files[|files| - 1];
      ScanIgnoresNonMatching(init, extension, p);
      if EndsWith(f.name, extension) {
        var m := Matching(init, extension) + [f];
        assert Matching(files, extension) == m;
        assert m[..|m| - 1] == Matching(init, extension);
        assert m[|m| - 1] == f;
      } else {
        assert Matching(files, extension) == Matching(init, extension);
        assert FileContribution(f, extension, p) == Ok(Dataset([], []));
        match Scan(init, extension, p)
        case Err(e) =>
        case Ok(acc) =>
          assert acc.X + [] == acc.X && acc.Y + [] == acc.Y;
      }
    }
  }

  /** Once an error is raised the remaining files are not looked at. */
  lemma {:induction false} ScanErrorSticks(files: seq<FeatureFile>, i: nat, extension: string, p: Parsers)
    requires i <= |files|
    requires Scan(files[..i], extension, p).Err?
    ensures Scan(files, extension, p) == Scan(files[..i], extension, p)
    decreases |files| - i
  {
    if i < |files| {
      assert files[..i + 1][..i] == files[..i];
      ScanErrorSticks(files, i + 1, extension, p);
    } else {
      assert files[..i] == files;
    }
  }

  /** The scan fails exactly when some file's step fails, and then with the
      error of the first such file. */
  lemma {:induction false} ScanFirstError(files: seq<FeatureFile>, extension: string, p: Parsers)
    ensures Scan(files, extension, p).Err? <==>
              exists i :: 0 <= i < |files| && FileContribution(files[i], extension, p).Err?
    ensures Scan(files, extension, p).Err? ==>
              exists i :: 0 <= i < |files| &&
                FileContribution(files[i], extension, p) == Err(Scan(files, extension, p).error) &&
                forall j :: 0 <= j < i ==> FileContribution(files[j], extension, p).Ok?
    decreases |files|
  {
    if files != [] {
      var init, last := files[..|files| - 1], files[|files| - 1];
      ScanFirstError(init, extension, p);
      assert forall i :: 0 <= i < |init| ==> init[i] == files[i];
      if Scan(init, extension, p).Err? {
        var i :| 0 <= i < |init| &&
          FileContribution(init[i], extension, p) == Err(Scan(init, extension, p).error) &&
          forall j :: 0 <= j < i ==> FileContribution(init[j], extension, p).Ok?;
        assert FileContribution(files[i], extension, p) == Err(Scan(files, extension, p).error);
      } else if FileContribution(last, extension, p).Err? {
        var n := |files| - 1;
        assert FileContribution(files[n], extension, p) == Err(Scan(files, extension, p).error);
      }
    }
  }

  /** Every raw label comes from a kept file and is that file's class minus one. */
  lemma {:induction false} ScanLabelsFromKeptFiles(files: seq<FeatureFile>, extension: string, p: Parsers)
    requires Scan(files, extension, p).Ok?
    ensures forall y <- Scan(files, extension, p).value.Y :: exists f <- files ::
              Kept(f, extension, p) && p.toInt(Split(f.name, ClassSeparator)[0]) == Some(y + 1)
    decreases |files|
  {
    if files != [] {
      var init, last := files[..|files| - 1], files[|files| - 1];
      ScanLabelsFromKeptFiles(init, extension, p);
      assert forall f <- init :: f in files;
      assert last in files;
    }
  }

  /** Conversely, when the scan succeeds every matching file with at least
      500 lines is kept, and its class minus one is among the raw labels. */
  lemma {:induction false} ScanKeptFilesLabelled(files: seq<FeatureFile>, extension: string, p: Parsers)
    requires Scan(files, extension, p).Ok?
    ensures forall f <- files :: EndsWith(f.name, extension) && |f.rows| >= InstancesPerFile ==>
              Kept(f, extension, p) && ClassLabel(f, p) in Scan(files, extension, p).value.Y
    decreases |files|
  {
    if files != [] {
      var init, last := files[..|files| - 1], files[|files| - 1];
      assert files == init + [last];
      ScanKeptFilesLabelled(init, extension, p);
      var acc, c := Scan(init, extension, p).value, FileContribution(last, extension, p).value;
      assert Scan(files, extension, p).value.Y == acc.Y + c.Y;
      if EndsWith(last.name, extension) && |last.rows| >= InstancesPerFile {
        assert c.Y[0] in c.Y;
      }
    }
  }

  /** The distinct raw labels are exactly the labels of the kept files. */
  lemma ScanLabelSet(files: seq<FeatureFile>, extension: string, p: Parsers)
    requires Scan(files, extension, p).Ok?
    ensures (set y | y in Scan(files, extension, p).value.Y) == KeptClassLabels(files, extension, p)
  {
    var raw := Scan(files, extension, p).value;
    ScanLabelsFromKeptFiles(files, extension, p);
    ScanKeptFilesLabelled(files, extension, p);
    var kept := KeptClassLabels(files, extension, p);
    forall y | y in raw.Y ensures y in kept {
      var f :| f in files && Kept(f, extension, p) && p.toInt(Split(f.name, ClassSeparator)[0]) == Some(y + 1);
    }
    forall y | y in kept ensures y in raw.Y {
      var f :| f in files && Kept(f, extension, p) && y == ClassLabel(f, p);
    }
  }

  /** After a successful load the labels are exactly 0 .. k-1, where k is the
      number of distinct classes among the kept files, and the remap keeps
      the order of the classes. */
  lemma LoadedLabelsDense(files: seq<FeatureFile>, extension: string, p: Parsers)
    requires Load(files, extension, p).Ok?
    ensures var raw, ds := Scan(files, extension, p).value, Load(files, extension, p).value;
            && DistinctCount(ds.Y) == |KeptClassLabels(files, extension, p)|
            && (forall y <- ds.Y :: 0 <= y < DistinctCount(ds.Y))
            && (forall v :: 0 <= v < DistinctCount(ds.Y) ==> v in ds.Y)
            && (forall i, j :: 0 <= i < |ds.Y| && 0 <= j < |ds.Y| ==>
                  (raw.Y[i] < raw.Y[j] <==> ds.Y[i] < ds.Y[j]))
  {
    var raw := Scan(files, extension, p).value;
    ScanLabelSet(files, extension, p);
    RemapDense(raw.Y);
    RemapMonotone(raw.Y);
    RemapDistinctCount(raw.Y);
  }

  /** `load_data(directory, extension)`. `cache` is the contents of
      `features.pkl` when that file exists; `written` is what is stored in it. */
  method LoadData(cache: Option<Dataset>, files: seq<FeatureFile>, extension: string, p: Parsers)
    returns (result: Result<Dataset, LoadError>, written: Option<Dataset>)
    ensures cache.Some? ==> result == Ok(cache.value) && written == None
    ensures cache.None? ==> result == Load(files, extension, p)
    ensures cache.None? ==> written == (if result.Ok? then Some(result.value) else None)
  {
    if cache.Some? {
      return Ok(cache.value), None;
    }
    var X: seq<Instance> := [];
    var Y: seq<int> := [];
    var matching := Matching(files, extension);
    ScanIgnoresNonMatching(files, extension, p);
    var i := 0;
    while i < |matching|
      invariant 0 <= i <= |matching|
      invariant Scan(matching[..i], extension, p) == Ok(Dataset(X, Y))
    {
      var file := matching[i];
      assert file in matching;
      var parts := Split(file.name, ClassSeparator);
      if |parts| != 2 {
        ScanStepFails(matching, i, extension, p);
        return Err(MalformedFileName(file.name)), None;
      }
      var cls := parts[0];
      var features := CoerceRows(file.rows, p);
      if |features| >= InstancesPerFile {
        features := features[..InstancesPerFile];
        X := X + features;
        match p.toInt(cls) {
          case None =>
            ScanStepFails(matching, i, extension, p);
            return Err(MalformedClass(cls)), None;
          case Some(c) =>
            var added := seq(|features|, _ => c - 1);
            KeptFileStep(file, extension, p, c);
            ScanStep(matching, i, extension, p);
            Y := Y + added;
        }
      } else {
        ShortFileStep(file, extension, p);
        ScanStep(matching, i, extension, p);
        assert X + [] == X && Y + [] == Y;
      }
      i := i + 1;
    }
    assert matching[..i] == matching;

    var mapped := DenseLabels(Y);
    result := Ok(Dataset(X, mapped));
    written := Some(result.value);
  }

  /** The end of `load_data`: the sorted distinct labels, the dictionary `d`
      from each of them to its position, and every label looked up in `d`. */
  method DenseLabels(Y: seq<int>) returns (mapped: seq<int>)
    ensures mapped == Remap(Y)
  {
    var labels := SortedDistinct(Y);
    var d: map<int, nat> := map[];
    var j := 0;
    while j < |labels|
      invariant 0 <= j <= |labels|
      invariant forall k :: 0 <= k < j ==> labels[k] in d && d[labels[k]] == k
    {
      d := d[labels[j] := j];
      j := j + 1;
    }
    forall n | 0 <= n < |Y| ensures Y[n] in d && d[Y[n]] == Remap(Y)[n] {
      assert labels[Remap(Y)[n]] == Y[n];
    }
    mapped := seq(|Y|, n requires 0 <= n < |Y| => d[Y[n]]);
  }

  /** Loading a second time, with the cache the first load wrote, gives the
      same pair (and an error again if the first load raised one). */
  method ReloadFromCache(files: seq<FeatureFile>, extension: string, p: Parsers)
    returns (first: Result<Dataset, LoadError>, second: Result<Dataset, LoadError>)
    ensures first == Load(files, extension, p)
    ensures second == first
  {
    var written, ignored;
    first, written := LoadData(None, files, extension, p);
    second, ignored := LoadData(written, files, extension, p);
  }
}
