/**
 * `main` of bestStructs.py once the reports are ranked: choosing the reports,
 * naming each output file, finding the row's trajectory in the report's
 * directory, cutting out its frame and writing the single-frame document.
 */
module BestStructs {

  import opened Wrappers
  import opened Text
  import opened Paths
  import opened Ranking
  import opened Frames

  /** A file of a report's directory, as `glob` lists it: its name and its text. */
  datatype File = File(name: string, text: string)

  datatype Error =
    | NoReportFound                        // no `*report*` file at either depth
    | TrajectoryNotFound(pattern: string)  // `sys.exit` when the trajectory glob is empty
    | ZeroFrequency                        // `step / out_freq` with `out_freq == 0`
    | FrameNotFound(ordinal: int)          // `.group(1)` on the `None` the search returned

  /** A file the script writes into the output folder. */
  datatype Output = Output(name: string, text: string)

  // The reports `glob` finds one directory down (`path/*/*report*`), or, only when
  // there are none, directly under the root (`path/*report*`).
  function ReportsToScan(deep: seq<Report>, shallow: seq<Report>): (r: Result<seq<Report>, Error>)
    ensures r.Err? <==> deep == [] && shallow == []
    ensures r.Err? ==> r.error == NoReportFound
    ensures r.Ok? ==> r.value != [] && (r.value == deep || (deep == [] && r.value == shallow))
  {
    if deep != [] then Ok(deep) else if shallow != [] then Ok(shallow) else Err(NoReportFound)
  }

  // ---------------------------------------------------------------------------
  // Output names
  // ---------------------------------------------------------------------------

  /**
   * `"epoch{}_trajectory_{}.{}_{}{}.pdb".format(epoch, report, int(step),
   * criteria.replace(" ", ""), value)`, with `valueText` standing for `str(value)`.
   */
  function OutputName(row: Row, criteria: string, valueText: string): string {
    "epoch" + Epoch(row.file) + "_trajectory_" + row.report + "." + IntToString(row.step) + "_" +
      Remove(criteria, ' ') + valueText + ".pdb"
  }

  /**
   * Every output name ends in `.pdb`, and holds no blank when the epoch, the
   * report number and the value text hold none: the step is digits and the
   * criterion has its blanks removed.
   */
  lemma OutputNameShape(row: Row, criteria: string, valueText: string)
    ensures var name := OutputName(row, criteria, valueText); |name| >= 4 && name[|name| - 4..] == ".pdb"
    ensures ' ' !in Epoch(row.file) + row.report + valueText ==> ' ' !in OutputName(row, criteria, valueText)
  {
    NoBlankInNumber(row.step);
    NameShape(Epoch(row.file), row.report, IntToString(row.step), Remove(criteria, ' '), valueText);
  }

  /** The name's fixed parts, for any field texts. */
  lemma NameShape(epoch: string, report: string, step: string, crit: string, value: string)
    requires ' ' !in step && ' ' !in crit
    ensures var name := "epoch" + epoch + "_trajectory_" + report + "." + step + "_" + crit + value + ".pdb";
      && name[|name| - 4..] == ".pdb"
      && (' ' !in epoch + report + value ==> ' ' !in name)
  {
    if ' ' !in epoch + report + value {
      assert ' ' !in epoch && ' ' !in report && ' ' !in value;
    }
  }

  /** The decimal text of an integer holds no blank. */
  lemma NoBlankInNumber(i: int)
    ensures ' ' !in IntToString(i)
  {
    var s := IntToString(i);
    forall k | 0 <= k < |s| ensures s[k] != ' ' {
      if k > 0 { assert IsDigit(s[k]); }
    }
  }

  /** The `files_out` list: one name per ranked row, in rank order. */
  function OutputNames(rows: seq<Row>, criteria: string, render: real -> string): (names: seq<string>)
    ensures |names| == |rows|
    ensures forall i :: 0 <= i < |rows| ==> names[i] == OutputName(rows[i], criteria, render(rows[i].value))
  {
    seq(|rows|, i requires 0 <= i < |rows| => OutputName(rows[i], criteria, render(rows[i].value)))
  }

  /**
   * Two rows of one report file with different steps get different output
   * names, whatever their values print as: the step's digits are closed by `_`.
   */
  lemma OutputNamesDistinct(r1: Row, r2: Row, criteria: string, v1: string, v2: string)
    requires r1.file == r2.file && r1.report == r2.report && r1.step != r2.step
    ensures OutputName(r1, criteria, v1) != OutputName(r2, criteria, v2)
  {
    var p := "epoch" + Epoch(r1.file) + "_trajectory_" + r1.report + ".";
    var s1, s2 := IntToString(r1.step), IntToString(r2.step);
    var t1, t2 := "_" + Remove(criteria, ' ') + v1 + ".pdb", "_" + Remove(criteria, ' ') + v2 + ".pdb";
    OutputNameParts(r1, criteria, v1);
    OutputNameParts(r2, criteria, v2);
    if s1 == s2 {
      IntToStringInjective(r1.step, r2.step);
    }
    ClosedFieldsDiffer(p, s1, t1, s2, t2);
  }

  /** An output name as prefix, step digits and the `_`-led rest. */
  lemma OutputNameParts(row: Row, criteria: string, v: string)
    ensures OutputName(row, criteria, v) ==
      ("epoch" + Epoch(row.file) + "_trajectory_" + row.report + ".") + IntToString(row.step) +
      ("_" + Remove(criteria, ' ') + v + ".pdb")
  {
  }

  /** Two different `_`-free fields, each closed by `_`, keep their strings apart. */
  lemma ClosedFieldsDiffer(p: string, s1: string, t1: string, s2: string, t2: string)
    requires forall k :: 0 <= k < |s1| ==> s1[k] != '_'
    requires forall k :: 0 <= k < |s2| ==> s2[k] != '_'
    requires t1 != [] && t1[0] == '_' && t2 != [] && t2[0] == '_'
    requires s1 != s2
    ensures p + s1 + t1 != p + s2 + t2
  {
    var n1, n2 := p + s1 + t1, p + s2 + t2;
    if |s1| == |s2| {
      var k :| 0 <= k < |s1| && s1[k] != s2[k];
      assert n1[|p| + k] == s1[k];
      assert n2[|p| + k] == s2[k];
    } else if |s1| < |s2| {
      assert n1[|p| + |s1|] == '_';
      assert n2[|p| + |s1|] == s2[|s1|];
    } else {
      assert n2[|p| + |s2|] == '_';
      assert n1[|p| + |s2|] == s1[|s2|];
    }
  }

  // ---------------------------------------------------------------------------
  // The trajectory of a report
  // ---------------------------------------------------------------------------

  /**
   * The name matches the glob `*trajectory*_<id>.pdb`: it is not hidden, ends
   * with `_<id>.pdb`, and has `trajectory` somewhere before that ending.
   */
  predicate MatchesTrajectory(name: string, id: string) {
    var suffix := "_" + id + ".pdb";
    |suffix| <= |name| && name[|name| - |suffix|..] == suffix &&
    Contains(name[..|name| - |suffix|], "trajectory") && name[0] != '.'
  }

  /** The glob's own reading: `*`, `trajectory`, `*`, `_<id>.pdb`, with no leading dot. */
  ghost predicate GlobMatch(name: string, id: string) {
    name != [] && name[0] != '.' &&
    exists a, b :: name == a + "trajectory" + b + "_" + id + ".pdb"
  }

  lemma MatchesTrajectoryIsGlob(name: string, id: string)
    ensures MatchesTrajectory(name, id) <==> GlobMatch(name, id)
  {
    if MatchesTrajectory(name, id) {
      MatchIsGlob(name, id);
    }
    if GlobMatch(name, id) {
      var a, b :| name == a + "trajectory" + b + "_" + id + ".pdb";
      GlobIsMatch(a, b, id);
    }
  }

  lemma MatchIsGlob(name: string, id: string)
    requires MatchesTrajectory(name, id)
    ensures GlobMatch(name, id)
  {
    var suffix := "_" + id + ".pdb";
    var head := name[..|name| - |suffix|];
    var i :| 0 <= i <= |head| && OccursAt(head, i, "trajectory");
    var a, b := head[..i], head[i + 10..];
    assert head == a + "trajectory" + b;
    assert name == head + suffix;
    assert name == a + "trajectory" + b + "_" + id + ".pdb";
    GlobWitness(name, a, b, id);
  }

  lemma GlobWitness(name: string, a: string, b: string, id: string)
    requires name != [] && name[0] != '.'
    requires name == a + "trajectory" + b + "_" + id + ".pdb"
    ensures GlobMatch(name, id)
  {
  }

  lemma GlobIsMatch(a: string, b: string, id: string)
    requires a == [] || a[0] != '.'
    ensures MatchesTrajectory(a + "trajectory" + b + "_" + id + ".pdb", id)
  {
    var name := a + "trajectory" + b + "_" + id + ".pdb";
    var suffix := "_" + id + ".pdb";
    var head := a + "trajectory" + b;
    assert name == head + suffix;
    assert name[..|name| - |suffix|] == head;
    assert name[|name| - |suffix|..] == suffix;
    assert OccursAt(head, |a|, "trajectory");
  }

  // `glob(dir/*trajectory*_<id>.pdb)[0]`: the first listed file that matches.
  function FindTrajectory(files: seq<File>, id: string): (r: Option<nat>)
    ensures r.Some? ==> r.value < |files| && MatchesTrajectory(files[r.value].name, id)
    ensures r.Some? ==> forall q :: 0 <= q < r.value ==> !MatchesTrajectory(files[q].name, id)
    ensures r.None? ==> forall q :: 0 <= q < |files| ==> !MatchesTrajectory(files[q].name, id)
    decreases |files|
  {
    if files == [] then None
    else if MatchesTrajectory(files[0].name, id) then Some(0)
    else match FindTrajectory(files[1..], id)
      case None => None
      case Some(k) => Some(k + 1)
  }

  /** The files `glob` sees in a directory; an absent directory lists nothing. */
  function Listing(dirs: map<string, seq<File>>, dir: string): seq<File> {
    if dir in dirs then dirs[dir] else []
  }

  /** What one ranked row yields: its single-frame document, or why the run stops there. */
  function RowDocument(row: Row, dirs: map<string, seq<File>>, outFreq: int): (r: Result<string, Error>)
    ensures r.Err? ==> r.error != NoReportFound
    ensures r.Err? && r.error.TrajectoryNotFound? <==> FindTrajectory(Listing(dirs, Dirname(row.file)), row.report).None?
    ensures r == Err(ZeroFrequency) ==> FindTrajectory(Listing(dirs, Dirname(row.file)), row.report).Some?
    ensures r.Err? && r.error.FrameNotFound? ==> outFreq != 0 && r.error.ordinal == FrameOrdinal(row.step, outFreq)
    ensures r.Ok? ==> outFreq != 0
    ensures r.Ok? && outFreq != 0 ==>
      var d := IntToString(FrameOrdinal(row.step, outFreq));
      MarkerMatch(r.value, 0, d, 10 + |d|) && OccursAt(r.value, |r.value| - 7, "ENDMDL")
  {
    var files := Listing(dirs, Dirname(row.file));
    match FindTrajectory(files, row.report)
    case None => Err(TrajectoryNotFound("*trajectory*_" + row.report))
    case Some(k) =>
      if outFreq == 0 then Err(ZeroFrequency) else
      var ordinal := FrameOrdinal(row.step, outFreq);
      match ExtractBody(files[k].text, ordinal)
      case None => Err(FrameNotFound(ordinal))
      case Some(body) => Ok(FrameDocument(ordinal, body))
  }

  /**
   * Once the trajectory is found and `out_freq` is not zero, the row fails with
   * the missing-frame error exactly when the search finds no frame, and
   * otherwise its document is the found frame written under its ordinal.
   */
  lemma RowDocumentIsFrame(row: Row, dirs: map<string, seq<File>>, outFreq: int)
    ensures var files := Listing(dirs, Dirname(row.file));
      var t := FindTrajectory(files, row.report);
      var r := RowDocument(row, dirs, outFreq);
      t.Some? && outFreq != 0 ==>
        var ordinal := FrameOrdinal(row.step, outFreq);
        var body := ExtractBody(files[t.value].text, ordinal);
        && (r.Err? && r.error.FrameNotFound? <==> body.None?)
        && (r.Ok? ==> body.Some? && r.value == FrameDocument(ordinal, body.value))
  {
  }

  /** The outcome of every ranked row, in rank order. */
  function Documents(ranked: seq<Row>, dirs: map<string, seq<File>>, outFreq: int): (docs: seq<Result<string, Error>>)
    ensures |docs| == |ranked|
    ensures forall q :: 0 <= q < |ranked| ==> docs[q] == RowDocument(ranked[q], dirs, outFreq)
  {
    seq(|ranked|, q requires 0 <= q < |ranked| => RowDocument(ranked[q], dirs, outFreq))
  }

  /**
   * What a row leaves in the output folder: its document; an empty file when the
   * frame is missing (the file is opened before `.group` fails); nothing when
   * the trajectory is missing.
   */
  function LeftOnDisk(doc: Result<string, Error>): (r: Option<string>)
    ensures r.None? <==> doc.Err? && !doc.error.FrameNotFound?
    ensures r.Some? && doc.Err? ==> r.value == []
    ensures doc.Ok? ==> r == Some(doc.value)
  {
    match doc
    case Ok(text) => Some(text)
    case Err(e) => if e.FrameNotFound? then Some("") else None
  }

  /** The ranked rows `main` works through. */
  function Ranked(deep: seq<Report>, shallow: seq<Report>, n: int, sortOrder: string): seq<Row> {
    match ReportsToScan(deep, shallow)
    case Ok(reports) => Best(AllRows(reports), n, Ascending(sortOrder))
    case Err(_) => []
  }

  /** The first `k` rows produced their documents, written under their names. */
  predicate WrittenUpTo(docs: seq<Result<string, Error>>, names: seq<string>, written: seq<Output>, k: int) {
    0 <= k <= |docs| && k <= |names| && |written| == k &&
    forall q :: 0 <= q < k ==> docs[q].Ok? && written[q] == Output(names[q], docs[q].value)
  }

  /**
   * How the extraction loop ends: every written file carries its row's name and
   * what the row leaves on disk, all rows before the last written one
   * succeeded, and either every row succeeded and the names are returned, or
   * the run stopped at the first failing row with that row's error.
   */
  predicate Extracted(docs: seq<Result<string, Error>>, names: seq<string>, written: seq<Output>,
                      result: Result<seq<string>, Error>)
    requires |names| == |docs|
  {
    && result != Err(NoReportFound)
    && |written| <= |docs|
    && (forall q :: 0 <= q < |written| ==>
          written[q].name == names[q] && LeftOnDisk(docs[q]) == Some(written[q].text))
    && (forall q :: 0 <= q < |written| - 1 ==> docs[q].Ok?)
    && (result.Ok? ==>
          && result.value == names && |written| == |docs|
          && forall q :: 0 <= q < |docs| ==> docs[q].Ok?)
    && (result.Err? ==>
          var f := if result.error.FrameNotFound? then |written| - 1 else |written|;
          && 0 <= f < |docs| && docs[f] == Err(result.error)
          && forall q :: 0 <= q < f ==> docs[q].Ok?)
  }

  lemma StopAt(docs: seq<Result<string, Error>>, names: seq<string>, written: seq<Output>, k: int,
               last: seq<Output>, e: Error)
    requires |names| == |docs|
    requires WrittenUpTo(docs, names, written, k) && k < |docs|
    requires docs[k] == Err(e) && e != NoReportFound
    requires last == if e.FrameNotFound? then [Output(names[k], "")] else []
    ensures Extracted(docs, names, written + last, Err(e))
  {
    var w := written + last;
    forall q | 0 <= q < |w|
      ensures w[q].name == names[q] && LeftOnDisk(docs[q]) == Some(w[q].text)
    {
      if q < k { assert w[q] == written[q]; }
    }
  }

  lemma WrittenOneMore(docs: seq<Result<string, Error>>, names: seq<string>, written: seq<Output>, k: int)
    requires |names| == |docs|
    requires WrittenUpTo(docs, names, written, k) && k < |docs| && docs[k].Ok?
    ensures WrittenUpTo(docs, names, written + [Output(names[k], docs[k].value)], k + 1)
  {
    var w := written + [Output(names[k], docs[k].value)];
    forall q | 0 <= q < k + 1
      ensures docs[q].Ok? && w[q] == Output(names[q], docs[q].value)
    {
      if q < k { assert w[q] == written[q]; }
    }
  }

  lemma Finished(docs: seq<Result<string, Error>>, names: seq<string>, written: seq<Output>)
    requires |names| == |docs|
    requires WrittenUpTo(docs, names, written, |docs|)
    ensures Extracted(docs, names, written, Ok(names))
  {
  }

  /**
   * `main`: rank the reports, name one output per ranked row, then for each row
   * in rank order find its trajectory, cut out its frame and write it. The run
   * stops at the first row whose trajectory or frame is missing, leaving the
   * files already written; on success it returns the names.
   */
  method RankAndExtract(deep: seq<Report>, shallow: seq<Report>, dirs: map<string, seq<File>>,
                        n: int, criteria: string, sortOrder: string, outFreq: int,
                        render: real -> string)
    returns (written: seq<Output>, result: Result<seq<string>, Error>)
    ensures deep == [] && shallow == [] ==> written == [] && result == Err(NoReportFound)
    ensures deep != [] || shallow != [] ==>
      var ranked := Ranked(deep, shallow, n, sortOrder);
      Extracted(Documents(ranked, dirs, outFreq), OutputNames(ranked, criteria, render), written, result)
  {
    written := [];
    var found := ReportsToScan(deep, shallow);
    if found.Err? {
      result := Err(found.error);
      return;
    }
    var ranked := ParseValues(found.value, n, sortOrder);
    var names := OutputNames(ranked, criteria, render);
    ghost var docs := Documents(ranked, dirs, outFreq);
    var k := 0;
    while k < |ranked|
      invariant WrittenUpTo(docs, names, written, k)
    {
      var row := ranked[k];
      var files := Listing(dirs, Dirname(row.file));
      var trajectory := FindTrajectory(files, row.report);
      if trajectory.None? {
        result := Err(TrajectoryNotFound("*trajectory*_" + row.report));
        StopAt(docs, names, written, k, [], result.error);
        return;
      }
      if outFreq == 0 {
        result := Err(ZeroFrequency);
        StopAt(docs, names, written, k, [], result.error);
        return;
      }
      var ordinal := FrameOrdinal(row.step, outFreq);
      var selected := FindModel(files[trajectory.value].text, ordinal);
      if selected.None? {
        result := Err(FrameNotFound(ordinal));
        StopAt(docs, names, written, k, [Output(names[k], "")], result.error);
        written := written + [Output(names[k], "")];
        return;
      }
      var m := selected.value;
      var body := files[trajectory.value].text[m.bodyStart..m.bodyEnd];
      WrittenOneMore(docs, names, written, k);
      written := written + [Output(names[k], FrameDocument(ordinal, body))];
      k := k + 1;
    }
    result := Ok(names);
    Finished(docs, names, written);
  }
}
