/**
 * `get_centers_info` of clusterAdaptiveRun.py: for every cluster centroid, the
 * snapshot of all extracted trajectories that lies nearest to it, found by one
 * pass over the files, their snapshots and the cluster indices, keeping a
 * running minimum per cluster that starts at the sentinel 1e6.
 */
module Centers {

  import opened Wrappers
  import opened Text

  // ---------------------------------------------------------------------------
  // Data
  // ---------------------------------------------------------------------------

  /** One `centersInfo` record: `structure`, `minDist` and `center` (`None` until a snapshot wins). */
  datatype CenterInfo = CenterInfo(structure: Option<string>, minDist: real, center: Option<seq<real>>)

  /** The starting `minDist`, `1e6`. */
  const Sentinel: real := 1000000.0

  /** The record every cluster starts with. */
  const Unvisited := CenterInfo(None, Sentinel, None)

  /**
   * What `np.loadtxt` returns for a file: a table with one row per snapshot, or
   * a single row when the file has one line (`len(trajCoords.shape) < 2`).
   * A row is the snapshot number followed by its coordinates.
   */
  datatype Table = Matrix(rows: seq<seq<real>>) | Vector(row: seq<real>)

  /** A trajectory file matched by the glob, with its parsed contents. */
  datatype TrajFile = TrajFile(path: string, table: Table)

  datatype CentersError =
    | NoUnderscore(path: string)   // unpacking `split("_", 1)` into two names fails
    | EmptySnapshot(path: string)  // `snapshot[0]` on an empty row
    | MissingCenter(index: nat)    // `dist[clusterInd]` past the last centroid

  /** A scanned snapshot: the structure name of its file and its coordinates. */
  datatype Candidate = Candidate(structure: string, coords: seq<real>)

  // ---------------------------------------------------------------------------
  // Structure names
  // ---------------------------------------------------------------------------

  /**
   * `os.path.splitext(p)[0]`: the path without the extension that starts at the
   * last `.` of the last component, unless that component has only dots before it.
   */
  function StripExtension(p: string): (r: string)
    ensures |r| <= |p| && r == p[..|r|]
    ensures r != p ==> p[|r|] == '.' && '.' !in p[|r| + 1..] && '/' !in p[|r|..]
    ensures r != p <==> exists k, d :: LastIndex(p, '/') < k < d < |p| && p[d] == '.' && p[k] != '.'
  {
    var dot := LastIndex(p, '.');
    var slash := LastIndex(p, '/');
    if dot > slash && exists k :: slash < k < dot && p[k] != '.' then p[..dot] else p
  }

  /**
   * `os.path.splitext(traj)[0].split("_", 1)[1] + ".pdb"`; nothing when the root
   * has no `_`, where unpacking the split fails.
   */
  function StructureName(path: string): (r: Option<string>)
    ensures r.None? <==> '_' !in StripExtension(path)
  {
    match AfterFirst(StripExtension(path), '_')
    case None => None
    case Some(file) => Some(file + ".pdb")
  }

  /**
   * For `<prefix>_<rest>.<ext>` with no `_` in the prefix and an extension free
   * of `.` and `/`, the structure is `<rest>.pdb`.
   */
  lemma StructureNameOf(prefix: string, rest: string, ext: string)
    requires '_' !in prefix && '.' !in ext && '/' !in ext
    requires rest != [] && rest[|rest| - 1] != '.' && rest[|rest| - 1] != '/'
    ensures StructureName(prefix + "_" + rest + "." + ext) == Some(rest + ".pdb")
  {
    var root := prefix + "_" + rest;
    var p := root + "." + ext;
    var dot := |root|;
    var k := |root| - 1;
    assert p[dot] == '.';
    assert p[..dot] == root;
    assert p[k] == rest[|rest| - 1];
    LastIndexOfSuffix(root, "." + ext, '.', 0);
    LastIndexBefore(root, "." + ext, '/');
    assert StripExtension(p) == root;
    FirstSplit(prefix, rest);
  }

  /** The last `c` of `s + t`, when `t` holds one `c` at `i` and none after it. */
  lemma LastIndexOfSuffix(s: string, t: string, c: char, i: int)
    requires 0 <= i < |t| && t[i] == c && c !in t[i + 1..]
    ensures LastIndex(s + t, c) == |s| + i
  {
    var p := s + t;
    var r := LastIndex(p, c);
    assert p[|s| + i] == c;
    forall q | |s| + i < q < |p| ensures p[q] != c {
      assert p[q] == t[i + 1..][q - |s| - i - 1];
    }
  }

  /** A `c` that `t` lacks can only occur before the end of `s` in `s + t`. */
  lemma LastIndexBefore(s: string, t: string, c: char)
    requires c !in t
    ensures LastIndex(s + t, c) < |s|
  {
  }

  lemma {:induction false} FirstSplit(prefix: string, rest: string)
    requires '_' !in prefix
    ensures AfterFirst(prefix + "_" + rest, '_') == Some(rest)
    decreases |prefix|
  {
    var s := prefix + "_" + rest;
    if prefix == [] {
      assert s == ['_'] + rest;
    } else {
      assert s[0] == prefix[0];
      assert s[1..] == prefix[1..] + "_" + rest;
      FirstSplit(prefix[1..], rest);
    }
  }

  // ---------------------------------------------------------------------------
  // The scan, as a reference definition
  // ---------------------------------------------------------------------------

  /** The snapshots of a file: its rows, or its single row as one snapshot. */
  function Snapshots(t: Table): seq<seq<real>> {
    match t
    case Matrix(rows) => rows
    case Vector(row) => [row]
  }

  /** `snapshot[1:]`: the coordinates, without the leading snapshot number. */
  function Coords(row: seq<real>): seq<real> {
    if row == [] then [] else row[1..]
  }

  /** The snapshots of one file, tagged with the file's structure name. */
  function FileCandidates(name: string, rows: seq<seq<real>>): seq<Candidate> {
    seq(|rows|, k requires 0 <= k < |rows| => Candidate(name, Coords(rows[k])))
  }

  /** Every snapshot of every file, in scan order. */
  function Candidates(files: seq<TrajFile>): seq<Candidate>
    decreases |files|
  {
    if files == [] then []
    else
      var last := files[|files| - 1];
      Candidates(files[..|files| - 1]) +
        match StructureName(last.path)
        case None => []
        case Some(name) => FileCandidates(name, Snapshots(last.table))
  }

  /** One comparison: the candidate replaces the record only when strictly nearer. */
  function Improve(info: CenterInfo, d: real, cand: Candidate): (r: CenterInfo)
    ensures r == info ||
      (d < info.minDist && r.minDist == d && r.structure == Some(cand.structure) && r.center == Some(cand.coords))
    ensures r.minDist <= d && r.minDist <= info.minDist
  {
    if d < info.minDist then CenterInfo(Some(cand.structure), d, Some(cand.coords)) else info
  }

  /** The record of the cluster with centroid `center` after scanning `cands` in order. */
  function Nearest(cands: seq<Candidate>, center: seq<real>, dist: (seq<real>, seq<real>) -> real): (r: CenterInfo)
    ensures r.minDist <= Sentinel
    ensures r.structure.None? <==> r.center.None?
    ensures r.structure.Some? ==> r.minDist < Sentinel
    decreases |cands|
  {
    if cands == [] then Unvisited
    else
      var last := cands[|cands| - 1];
      Improve(Nearest(cands[..|cands| - 1], center, dist), dist(center, last.coords), last)
  }

  /** The centroid of cluster `x`; only read when the scan succeeded, where `x < |centers|`. */
  function CenterOf(centers: seq<seq<real>>, x: int): seq<real> {
    if 0 <= x < |centers| then centers[x] else []
  }

  /** What stops the scan at a row: an empty row, or fewer centroids than clusters. */
  function RowError(path: string, row: seq<real>, numClusters: int, centers: seq<seq<real>>): Option<CentersError> {
    if row == [] then Some(EmptySnapshot(path))
    else if numClusters > |centers| then Some(MissingCenter(|centers|))
    else None
  }

  /** The first error among a file's rows. */
  function RowsError(path: string, rows: seq<seq<real>>, numClusters: int, centers: seq<seq<real>>): Option<CentersError>
    decreases |rows|
  {
    if rows == [] then None
    else match RowsError(path, rows[..|rows| - 1], numClusters, centers)
      case Some(e) => Some(e)
      case None => RowError(path, rows[|rows| - 1], numClusters, centers)
  }

  /** The first error of a file: its name, then its rows. */
  function FileError(f: TrajFile, numClusters: int, centers: seq<seq<real>>): Option<CentersError> {
    if StructureName(f.path).None? then Some(NoUnderscore(f.path))
    else RowsError(f.path, Snapshots(f.table), numClusters, centers)
  }

  /** The first error of the scan, files in order. */
  function ScanError(files: seq<TrajFile>, numClusters: int, centers: seq<seq<real>>): Option<CentersError>
    decreases |files|
  {
    if files == [] then None
    else match ScanError(files[..|files| - 1], numClusters, centers)
      case Some(e) => Some(e)
      case None => FileError(files[|files| - 1], numClusters, centers)
  }

  /** `info` holds exactly clusters `0..numClusters-1`, each the nearest of `cands`. */
  ghost predicate Holds(info: map<int, CenterInfo>, numClusters: int, cands: seq<Candidate>,
                  centers: seq<seq<real>>, dist: (seq<real>, seq<real>) -> real)
  {
    (forall x :: x in info <==> 0 <= x < numClusters) &&
    forall x :: 0 <= x < numClusters ==> info[x] == Nearest(cands, CenterOf(centers, x), dist)
  }

  // ---------------------------------------------------------------------------
  // What the running minimum promises
  // ---------------------------------------------------------------------------

  lemma NearestSnoc(cands: seq<Candidate>, cand: Candidate, center: seq<real>, dist: (seq<real>, seq<real>) -> real)
    ensures Nearest(cands + [cand], center, dist) ==
      Improve(Nearest(cands, center, dist), dist(center, cand.coords), cand)
  {
    assert (cands + [cand])[..|cands|] == cands;
  }

  /**
   * After the pass the record's distance is at most the sentinel and at most the
   * distance of every scanned snapshot.
   */
  lemma {:induction false} NearestIsMinimal(cands: seq<Candidate>, center: seq<real>, dist: (seq<real>, seq<real>) -> real)
    ensures Nearest(cands, center, dist).minDist <= Sentinel
    ensures forall k :: 0 <= k < |cands| ==> Nearest(cands, center, dist).minDist <= dist(center, cands[k].coords)
    decreases |cands|
  {
    if cands != [] {
      var init := cands[..|cands| - 1];
      NearestIsMinimal(init, center, dist);
      forall k | 0 <= k < |cands| - 1
        ensures Nearest(cands, center, dist).minDist <= dist(center, cands[k].coords)
      {
        assert cands[k] == init[k];
      }
    }
  }

  /** `minDist` never increases as more snapshots are scanned. */
  lemma {:induction false} NearestMonotone(cands: seq<Candidate>, more: seq<Candidate>, center: seq<real>,
                                           dist: (seq<real>, seq<real>) -> real)
    ensures Nearest(cands + more, center, dist).minDist <= Nearest(cands, center, dist).minDist
    decreases |more|
  {
    if more == [] {
      assert cands + more == cands;
    } else {
      var init := more[..|more| - 1];
      assert more == init + [more[|more| - 1]];
      assert cands + more == (cands + init) + [more[|more| - 1]];
      NearestSnoc(cands + init, more[|more| - 1], center, dist);
      NearestMonotone(cands, init, center, dist);
    }
  }

  /**
   * A record is still `None` exactly when no snapshot came strictly closer than
   * the sentinel; then its distance is the sentinel. The three fields are set
   * together, so `structure` and `center` are `None` together.
   */
  lemma {:induction false} NearestUnvisited(cands: seq<Candidate>, center: seq<real>, dist: (seq<real>, seq<real>) -> real)
    ensures var info := Nearest(cands, center, dist);
      && (info.structure.None? <==> info.center.None?)
      && (info.structure.None? <==> forall k :: 0 <= k < |cands| ==> dist(center, cands[k].coords) >= Sentinel)
      && (info.structure.None? ==> info.minDist == Sentinel)
      && (info.structure.Some? ==> info.minDist < Sentinel)
    decreases |cands|
  {
    if cands != [] {
      var init := cands[..|cands| - 1];
      var last := cands[|cands| - 1];
      NearestUnvisited(init, center, dist);
      NearestIsMinimal(init, center, dist);
      var info := Nearest(cands, center, dist);
      if info.structure.None? {
        forall k | 0 <= k < |cands| ensures dist(center, cands[k].coords) >= Sentinel {
          if k < |cands| - 1 { assert cands[k] == init[k]; }
        }
      } else {
        var d := dist(center, last.coords);
        if d >= Nearest(init, center, dist).minDist {
          assert info == Nearest(init, center, dist);
          var k :| 0 <= k < |init| && dist(center, init[k].coords) < Sentinel;
          assert cands[k] == init[k];
        } else {
          assert d < Sentinel;
          assert dist(center, cands[|cands| - 1].coords) < Sentinel;
        }
      }
    }
  }

  /** Snapshot `k` is the recorded winner: the first scanned one at the minimal distance. */
  predicate Winner(cands: seq<Candidate>, center: seq<real>, dist: (seq<real>, seq<real>) -> real, k: int) {
    var info := Nearest(cands, center, dist);
    0 <= k < |cands| &&
    info.structure == Some(cands[k].structure) && info.center == Some(cands[k].coords) &&
    info.minDist == dist(center, cands[k].coords) &&
    forall q :: 0 <= q < k ==> dist(center, cands[q].coords) > info.minDist
  }

  /**
   * A record that holds a structure holds the first scanned snapshot at the
   * minimal distance, its coordinates and that distance: on equal distances the
   * earlier snapshot stays.
   */
  lemma {:induction false} NearestWinner(cands: seq<Candidate>, center: seq<real>, dist: (seq<real>, seq<real>) -> real)
    requires Nearest(cands, center, dist).structure.Some?
    ensures exists k :: Winner(cands, center, dist, k)
    decreases |cands|
  {
    var init := cands[..|cands| - 1];
    var last := cands[|cands| - 1];
    var d := dist(center, last.coords);
    var before := Nearest(init, center, dist);
    if d < before.minDist {
      var k := |cands| - 1;
      NearestIsMinimal(init, center, dist);
      forall q | 0 <= q < k ensures dist(center, cands[q].coords) > d {
        assert cands[q] == init[q];
      }
      assert Winner(cands, center, dist, k);
    } else {
      assert Nearest(cands, center, dist) == before;
      NearestWinner(init, center, dist);
      var k :| Winner(init, center, dist, k);
      forall q | 0 <= q < k ensures dist(center, cands[q].coords) > before.minDist {
        assert cands[q] == init[q];
      }
      assert cands[k] == init[k];
      assert Winner(cands, center, dist, k);
    }
  }

  // ---------------------------------------------------------------------------
  // Errors
  // ---------------------------------------------------------------------------

  /** An error in a prefix of the rows is the error of all of them. */
  lemma {:induction false} RowsErrorSticks(path: string, rows: seq<seq<real>>, j: int, numClusters: int,
                                           centers: seq<seq<real>>)
    requires 0 <= j <= |rows| && RowsError(path, rows[..j], numClusters, centers).Some?
    ensures RowsError(path, rows, numClusters, centers) == RowsError(path, rows[..j], numClusters, centers)
    decreases |rows|
  {
    if j < |rows| {
      var init := rows[..|rows| - 1];
      assert init[..j] == rows[..j];
      RowsErrorSticks(path, init, j, numClusters, centers);
    } else {
      assert rows[..j] == rows;
    }
  }

  /** An error in a prefix of the files is the error of the scan. */
  lemma {:induction false} ScanErrorSticks(files: seq<TrajFile>, i: int, numClusters: int, centers: seq<seq<real>>)
    requires 0 <= i <= |files| && ScanError(files[..i], numClusters, centers).Some?
    ensures ScanError(files, numClusters, centers) == ScanError(files[..i], numClusters, centers)
    decreases |files|
  {
    if i < |files| {
      var init := files[..|files| - 1];
      assert init[..i] == files[..i];
      ScanErrorSticks(init, i, numClusters, centers);
    } else {
      assert files[..i] == files;
    }
  }

  /** A scan that succeeds saw no snapshot, or had a centroid for every cluster. */
  lemma {:induction false} ScanSuccessNeedsCenters(files: seq<TrajFile>, numClusters: int, centers: seq<seq<real>>)
    requires ScanError(files, numClusters, centers).None?
    ensures Candidates(files) == [] || numClusters <= |centers|
    decreases |files|
  {
    if files != [] {
      var init := files[..|files| - 1];
      var last := files[|files| - 1];
      assert ScanError(init, numClusters, centers).None? && FileError(last, numClusters, centers).None?;
      ScanSuccessNeedsCenters(init, numClusters, centers);
      match StructureName(last.path)
      case None =>
      case Some(name) =>
        var rows := Snapshots(last.table);
        assert Candidates(files) == Candidates(init) + FileCandidates(name, rows);
        if rows != [] {
          RowsErrorNoneAll(last.path, rows, numClusters, centers, 0);
        }
    }
  }

  /** Rows that raise no error raise none one at a time. */
  lemma {:induction false} RowsErrorNoneAll(path: string, rows: seq<seq<real>>, numClusters: int,
                                            centers: seq<seq<real>>, k: int)
    requires RowsError(path, rows, numClusters, centers).None? && 0 <= k < |rows|
    ensures RowError(path, rows[k], numClusters, centers).None?
    decreases |rows|
  {
    var init := rows[..|rows| - 1];
    if k < |rows| - 1 {
      assert rows[k] == init[k];
      RowsErrorNoneAll(path, init, numClusters, centers, k);
    }
  }

  // ---------------------------------------------------------------------------
  // The scan
  // ---------------------------------------------------------------------------

  lemma ScanFileStep(files: seq<TrajFile>, i: int, name: string, numClusters: int, centers: seq<seq<real>>)
    requires 0 <= i < |files| && ScanError(files[..i], numClusters, centers).None?
    requires StructureName(files[i].path) == Some(name)
    requires RowsError(files[i].path, Snapshots(files[i].table), numClusters, centers).None?
    ensures ScanError(files[..i + 1], numClusters, centers).None?
    ensures Candidates(files[..i + 1]) == Candidates(files[..i]) + FileCandidates(name, Snapshots(files[i].table))
  {
    var pre := files[..i + 1];
    assert pre[..|pre| - 1] == files[..i] && pre[|pre| - 1] == files[i];
    assert FileError(files[i], numClusters, centers).None?;
  }

  lemma ScanRowStep(path: string, rows: seq<seq<real>>, j: int, numClusters: int, centers: seq<seq<real>>)
    requires 0 <= j < |rows| && RowsError(path, rows[..j], numClusters, centers).None?
    ensures RowsError(path, rows[..j + 1], numClusters, centers) == RowError(path, rows[j], numClusters, centers)
  {
    assert rows[..j + 1][..j] == rows[..j];
  }

  lemma FileCandidatesStep(name: string, rows: seq<seq<real>>, j: int)
    requires 0 <= j < |rows|
    ensures FileCandidates(name, rows[..j + 1]) == FileCandidates(name, rows[..j]) + [Candidate(name, Coords(rows[j]))]
  {
  }

  /** The scan stops at file `i` when the file itself fails. */
  lemma StopsAtFile(files: seq<TrajFile>, i: int, numClusters: int, centers: seq<seq<real>>, e: CentersError)
    requires 0 <= i < |files| && ScanError(files[..i], numClusters, centers).None?
    requires FileError(files[i], numClusters, centers) == Some(e)
    ensures ScanError(files, numClusters, centers) == Some(e)
  {
    ScanErrorSnoc(files, i, numClusters, centers);
    ScanErrorSticks(files, i + 1, numClusters, centers);
  }

  /** Past an error-free prefix, the next file's error is the scan's. */
  lemma ScanErrorSnoc(files: seq<TrajFile>, i: int, numClusters: int, centers: seq<seq<real>>)
    requires 0 <= i < |files| && ScanError(files[..i], numClusters, centers).None?
    ensures ScanError(files[..i + 1], numClusters, centers) == FileError(files[i], numClusters, centers)
  {
    var pre := files[..i + 1];
    assert pre[..|pre| - 1] == files[..i] && pre[|pre| - 1] == files[i];
  }

  /** Every cluster still holds its starting record before any snapshot is scanned. */
  lemma StartHolds(info: map<int, CenterInfo>, numClusters: int, centers: seq<seq<real>>,
                   dist: (seq<real>, seq<real>) -> real)
    requires forall y :: y in info <==> 0 <= y < numClusters
    requires forall y :: y in info ==> info[y] == Unvisited
    ensures Holds(info, numClusters, [], centers, dist)
  {
  }

  /**
   * One snapshot compared against every cluster, each record improved on its
   * own, moves every record from `before` to `before + [cand]`.
   */
  lemma SnapshotHolds(start: map<int, CenterInfo>, info: map<int, CenterInfo>, numClusters: int,
                      before: seq<Candidate>, cand: Candidate, centers: seq<seq<real>>,
                      dist: (seq<real>, seq<real>) -> real)
    requires Holds(start, numClusters, before, centers, dist)
    requires forall y :: y in info <==> 0 <= y < numClusters
    requires forall y :: 0 <= y < numClusters ==>
      info[y] == Improve(start[y], dist(CenterOf(centers, y), cand.coords), cand)
    ensures Holds(info, numClusters, before + [cand], centers, dist)
  {
    forall y | 0 <= y < numClusters
      ensures info[y] == Nearest(before + [cand], CenterOf(centers, y), dist)
    {
      NearestSnoc(before, cand, CenterOf(centers, y), dist);
    }
  }

  /**
   * The innermost loop of `get_centers_info`: the snapshot is compared with each
   * cluster `0..numClusters-1` in turn, and a cluster's record takes the
   * snapshot's structure, distance and coordinates only when the snapshot is
   * strictly nearer; the other records are left alone. Indexing a distance past
   * the last centroid fails.
   */
  method CompareSnapshot(info: map<int, CenterInfo>, numClusters: int, centers: seq<seq<real>>,
                         coords: seq<real>, structure: string, dist: (seq<real>, seq<real>) -> real)
    returns (r: Result<map<int, CenterInfo>, CentersError>)
    requires forall y :: y in info <==> 0 <= y < numClusters
    ensures r.Err? <==> numClusters > |centers|
    ensures r.Err? ==> r.error == MissingCenter(|centers|)
    ensures r.Ok? ==> forall y :: y in r.value <==> 0 <= y < numClusters
    ensures r.Ok? ==> forall y :: 0 <= y < numClusters ==>
      r.value[y] == Improve(info[y], dist(CenterOf(centers, y), coords), Candidate(structure, coords))
  {
    var records := info;
    var c := 0;
    while c < numClusters
      invariant 0 <= c <= |centers|
      invariant forall y :: y in records <==> 0 <= y < numClusters
      invariant forall y :: 0 <= y < c && y < numClusters ==>
        records[y] == Improve(info[y], dist(CenterOf(centers, y), coords), Candidate(structure, coords))
      invariant forall y :: c <= y < numClusters ==> records[y] == info[y]
    {
      if c >= |centers| {
        return Err(MissingCenter(c));
      }
      var d := dist(centers[c], coords);
      var record := records[c];
      if d < record.minDist {
        record := record.(minDist := d);
        record := record.(structure := Some(structure));
        record := record.(center := Some(coords));
      }
      records := records[c := record];
      c := c + 1;
    }
    return Ok(records);
  }

  /**
   * The middle loop of `get_centers_info`: every snapshot of one file, in
   * order, compared with every cluster. An empty row fails at `snapshot[0]`.
   */
  method CompareRows(info: map<int, CenterInfo>, numClusters: int, centers: seq<seq<real>>,
                     path: string, structure: string, rows: seq<seq<real>>,
                     dist: (seq<real>, seq<real>) -> real, ghost seen: seq<Candidate>)
    returns (r: Result<map<int, CenterInfo>, CentersError>)
    requires Holds(info, numClusters, seen, centers, dist)
    ensures r.Err? <==> RowsError(path, rows, numClusters, centers).Some?
    ensures r.Err? ==> RowsError(path, rows, numClusters, centers) == Some(r.error)
    ensures r.Ok? ==> Holds(r.value, numClusters, seen + FileCandidates(structure, rows), centers, dist)
  {
    var records := info;
    assert seen + FileCandidates(structure, rows[..0]) == seen;
    var j := 0;
    while j < |rows|
      invariant 0 <= j <= |rows|
      invariant RowsError(path, rows[..j], numClusters, centers).None?
      invariant Holds(records, numClusters, seen + FileCandidates(structure, rows[..j]), centers, dist)
    {
      var snapshot := rows[j];
      ScanRowStep(path, rows, j, numClusters, centers);
      if snapshot == [] {
        RowsErrorSticks(path, rows, j + 1, numClusters, centers);
        return Err(EmptySnapshot(path));
      }
      var coords := snapshot[1..];
      var compared := CompareSnapshot(records, numClusters, centers, coords, structure, dist);
      if compared.Err? {
        RowsErrorSticks(path, rows, j + 1, numClusters, centers);
        return Err(compared.error);
      }
      ghost var before := seen + FileCandidates(structure, rows[..j]);
      SnapshotHolds(records, compared.value, numClusters, before, Candidate(structure, coords), centers, dist);
      FileCandidatesStep(structure, rows, j);
      assert before + [Candidate(structure, coords)] == seen + FileCandidates(structure, rows[..j + 1]);
      records := compared.value;
      j := j + 1;
    }
    assert rows[..j] == rows;
    return Ok(records);
  }

  /**
   * `get_centers_info`: one record per cluster `0..numClusters-1`, starting at
   * the sentinel; for each file, each of its snapshots and each cluster index,
   * the record is replaced when the snapshot is strictly nearer. `dist` stands
   * for the Euclidean distance between a centroid and a snapshot's coordinates.
   */
  method GetCentersInfo(files: seq<TrajFile>, numClusters: int, centers: seq<seq<real>>,
                        dist: (seq<real>, seq<real>) -> real)
    returns (r: Result<map<int, CenterInfo>, CentersError>)
    ensures r.Err? <==> ScanError(files, numClusters, centers).Some?
    ensures r.Err? ==> ScanError(files, numClusters, centers) == Some(r.error)
    ensures r.Ok? ==> Holds(r.value, numClusters, Candidates(files), centers, dist)
  {
    var info: map<int, CenterInfo> := map[];
    var x := 0;
    while x < numClusters
      invariant 0 <= x <= if numClusters < 0 then 0 else numClusters
      invariant forall y :: y in info <==> 0 <= y < x
      invariant forall y :: y in info ==> info[y] == Unvisited
    {
      info := info[x := Unvisited];
      x := x + 1;
    }
    StartHolds(info, numClusters, centers, dist);
    assert files[..0] == [];
    var i := 0;
    while i < |files|
      invariant 0 <= i <= |files|
      invariant ScanError(files[..i], numClusters, centers).None?
      invariant Holds(info, numClusters, Candidates(files[..i]), centers, dist)
    {
      var path := files[i].path;
      var name := StructureName(path);
      if name.None? {
        r := Err(NoUnderscore(path));
        StopsAtFile(files, i, numClusters, centers, r.error);
        return;
      }
      var rows := Snapshots(files[i].table);
      var scanned := CompareRows(info, numClusters, centers, path, name.value, rows, dist, Candidates(files[..i]));
      if scanned.Err? {
        r := Err(scanned.error);
        StopsAtFile(files, i, numClusters, centers, r.error);
        return;
      }
      info := scanned.value;
      ScanFileStep(files, i, name.value, numClusters, centers);
      i := i + 1;
    }
    assert files[..i] == files;
    r := Ok(info);
  }
}
