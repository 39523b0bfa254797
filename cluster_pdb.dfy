/**
 * `writePDB` of clusterAdaptiveRun.py: one `HETATM` line per centroid, the
 * centroid's index as serial number and atom name and its first three
 * coordinates, each rendered by `fmt` (standing for `"%.3f"`) and
 * right-justified to eight columns.
 */
module ClusterPdb {

  import opened Wrappers
  import opened Text

  datatype WriteError =
    | NoCenter(index: nat)     // `line[0]` on a cluster record still holding `None`
    | ShortCenter(index: nat)  // `line[2]` on fewer than three coordinates

  /** `templateLine`, filled in field by field. */
  function Template(number: string, number3: string, x: string, y: string, z: string, g: string): string {
    "HETATM" + number + "  H" + number3 + "CLT L 502    " + x + y + z + "  0.75" + g + "           H\n"
  }

  /**
   * The line of centroid `j`: its index right-justified to five columns and
   * left-justified to three, each coordinate right-justified to eight, and
   * `g` is the constant 0.
   */
  function PdbLine(j: nat, c: seq<real>, fmt: real -> string): (line: string)
    requires |c| >= 3
    ensures j < 1000 && (forall k :: 0 <= k < 3 ==> |fmt(c[k])| <= 8) ==> |line| == 74
  {
    var number, number3 := RJust(NatToString(j), 5), LJust(NatToString(j), 3);
    var x, y, z := RJust(fmt(c[0]), 8), RJust(fmt(c[1]), 8), RJust(fmt(c[2]), 8);
    NumeralLength(j);
    TemplateLength(number, number3, x, y, z, NatToString(0));
    Template(number, number3, x, y, z, NatToString(0))
  }

  lemma TemplateLength(number: string, number3: string, x: string, y: string, z: string, g: string)
    ensures |Template(number, number3, x, y, z, g)| == 41 + |number| + |number3| + |x| + |y| + |z| + |g|
  {
  }

  /** The first centroid that cannot be written, and why. */
  function FirstUnwritable(centers: seq<Option<seq<real>>>): Option<WriteError>
    decreases |centers|
  {
    if centers == [] then None
    else match FirstUnwritable(centers[..|centers| - 1])
      case Some(e) => Some(e)
      case None =>
        var j := |centers| - 1;
        match centers[j]
        case None => Some(NoCenter(j))
        case Some(c) => if |c| < 3 then Some(ShortCenter(j)) else None
  }

  /** The file's text: the lines of the centroids in order. */
  function PdbText(centers: seq<Option<seq<real>>>, fmt: real -> string): string
    requires FirstUnwritable(centers).None?
    decreases |centers|
  {
    if centers == [] then ""
    else
      var j := |centers| - 1;
      PdbText(centers[..j], fmt) + PdbLine(j, centers[j].value, fmt)
  }

  /** Characters of `s` equal to `c`. */
  function Count(s: string, c: char): nat
    decreases |s|
  {
    if s == [] then 0 else Count(s[..|s| - 1], c) + if s[|s| - 1] == c then 1 else 0
  }

  lemma {:induction false} CountAppend(a: string, b: string, c: char)
    ensures Count(a + b, c) == Count(a, c) + Count(b, c)
    decreases |b|
  {
    if b != [] {
      var b' := b[..|b| - 1];
      assert (a + b)[..|a + b| - 1] == a + b';
      CountAppend(a, b', c);
      assert (a + b)[|a + b| - 1] == b[|b| - 1];
    } else {
      assert a + b == a;
    }
  }

  lemma {:induction false} CountAbsent(s: string, c: char)
    requires c !in s
    ensures Count(s, c) == 0
    decreases |s|
  {
    if s != [] {
      assert s[..|s| - 1] <= s;
      CountAbsent(s[..|s| - 1], c);
    }
  }

  /**
   * `writePDB`: the lines are appended to `content` in centroid order; the file
   * is written only once the loop has finished, so a failing centroid leaves
   * nothing written.
   */
  method WritePdb(centers: seq<Option<seq<real>>>, fmt: real -> string) returns (r: Result<string, WriteError>)
    ensures r.Err? <==> FirstUnwritable(centers).Some?
    ensures r.Err? ==> FirstUnwritable(centers) == Some(r.error)
    ensures r.Ok? ==> FirstUnwritable(centers).None? && r.value == PdbText(centers, fmt)
  {
    var content := "";
    var j := 0;
    while j < |centers|
      invariant 0 <= j <= |centers|
      invariant FirstUnwritable(centers[..j]).None?
      invariant content == PdbText(centers[..j], fmt)
    {
      assert centers[..j + 1][..j] == centers[..j];
      var line := centers[j];
      if line.None? {
        UnwritableSticks(centers, j + 1);
        return Err(NoCenter(j));
      }
      if |line.value| < 3 {
        UnwritableSticks(centers, j + 1);
        return Err(ShortCenter(j));
      }
      content := content + PdbLine(j, line.value, fmt);
      j := j + 1;
    }
    assert centers[..j] == centers;
    return Ok(content);
  }

  /** An error in a prefix of the centroids is the error of all of them. */
  lemma {:induction false} UnwritableSticks(centers: seq<Option<seq<real>>>, j: int)
    requires 0 <= j <= |centers| && FirstUnwritable(centers[..j]).Some?
    ensures FirstUnwritable(centers) == FirstUnwritable(centers[..j])
    decreases |centers|
  {
    if j < |centers| {
      var init := centers[..|centers| - 1];
      assert init[..j] == centers[..j];
      UnwritableSticks(init, j);
    } else {
      assert centers[..j] == centers;
    }
  }

  /** A filled template holds one newline, its last character, when no field holds one. */
  lemma TemplateNewline(number: string, number3: string, x: string, y: string, z: string, g: string)
    requires '\n' !in number && '\n' !in number3 && '\n' !in x && '\n' !in y && '\n' !in z && '\n' !in g
    ensures var t := Template(number, number3, x, y, z, g); Count(t, '\n') == 1 && t[|t| - 1] == '\n'
  {
    var head := "HETATM" + number + "  H" + number3 + "CLT L 502    " + x + y + z + "  0.75" + g;
    assert Template(number, number3, x, y, z, g) == head + "           H\n";
    assert '\n' !in head;
    CountAbsent(head, '\n');
    CountAbsent("           H", '\n');
    assert "           H\n"[..12] == "           H";
    CountAppend(head, "           H\n", '\n');
  }

  lemma LineHasOneNewline(j: nat, c: seq<real>, fmt: real -> string)
    requires |c| >= 3
    requires forall k :: 0 <= k < 3 ==> '\n' !in fmt(c[k])
    ensures Count(PdbLine(j, c, fmt), '\n') == 1
  {
    NoNewlineInNumber(j);
    NoNewlineInNumber(0);
    NoNewlineInPadded(NatToString(j), 5, true);
    NoNewlineInPadded(NatToString(j), 3, false);
    NoNewlineInPadded(fmt(c[0]), 8, true);
    NoNewlineInPadded(fmt(c[1]), 8, true);
    NoNewlineInPadded(fmt(c[2]), 8, true);
    TemplateNewline(RJust(NatToString(j), 5), LJust(NatToString(j), 3),
      RJust(fmt(c[0]), 8), RJust(fmt(c[1]), 8), RJust(fmt(c[2]), 8), NatToString(0));
  }

  lemma NoNewlineInNumber(j: nat)
    ensures '\n' !in NatToString(j)
  {
    var d := NatToString(j);
    forall k | 0 <= k < |d| ensures d[k] != '\n' {
      assert IsDigit(d[k]);
    }
  }

  lemma NoNewlineInPadded(s: string, width: nat, right: bool)
    requires '\n' !in s
    ensures '\n' !in (if right then RJust(s, width) else LJust(s, width))
  {
    var r := if right then RJust(s, width) else LJust(s, width);
    forall k | 0 <= k < |r| ensures r[k] != '\n' {
      if right {
        if k >= |r| - |s| { assert r[k] == r[|r| - |s|..][k - (|r| - |s|)]; }
      } else {
        if k < |s| { assert r[k] == r[..|s|][k]; }
      }
    }
  }

  /**
   * One line per centroid: the text holds exactly as many newlines as there
   * are centroids, when the coordinate format never yields one.
   */
  lemma {:induction false} OneLinePerCenter(centers: seq<Option<seq<real>>>, fmt: real -> string)
    requires FirstUnwritable(centers).None?
    requires forall v :: '\n' !in fmt(v)
    ensures Count(PdbText(centers, fmt), '\n') == |centers|
    decreases |centers|
  {
    if centers != [] {
      var j := |centers| - 1;
      var init := centers[..j];
      assert FirstUnwritable(init).None?;
      OneLinePerCenter(init, fmt);
      assert centers[j] == Some(centers[j].value);
      LineHasOneNewline(j, centers[j].value, fmt);
      CountAppend(PdbText(init, fmt), PdbLine(j, centers[j].value, fmt), '\n');
    }
  }

  /** The serial number fills columns 7-11 and the atom name columns 15-17. */
  lemma TemplateFields(number: string, number3: string, x: string, y: string, z: string, g: string)
    requires |number| == 5 && |number3| == 3
    ensures Template(number, number3, x, y, z, g)[6..11] == number
    ensures Template(number, number3, x, y, z, g)[14..17] == number3
  {
    var t := Template(number, number3, x, y, z, g);
    var rest := "CLT L 502    " + x + y + z + "  0.75" + g + "           H\n";
    assert t == "HETATM" + number + "  H" + number3 + rest;
    assert forall i :: 6 <= i < 11 ==> t[i] == number[i - 6];
    assert forall i :: 14 <= i < 17 ==> t[i] == number3[i - 14];
  }

  /**
   * Both index fields of line `j` read back as `j` once their padding is
   * trimmed, while `j` has at most three digits.
   */
  lemma IndexFields(j: nat, c: seq<real>, fmt: real -> string)
    requires |c| >= 3 && j < 1000
    ensures Trim(PdbLine(j, c, fmt)[6..11]) == NatToString(j)
    ensures Trim(PdbLine(j, c, fmt)[14..17]) == NatToString(j)
    ensures ParseDecimal(Trim(PdbLine(j, c, fmt)[6..11])) == j
    ensures ParseDecimal(Trim(PdbLine(j, c, fmt)[14..17])) == j
  {
    var d := NatToString(j);
    NumeralLength(j);
    TemplateFields(RJust(d, 5), LJust(d, 3),
      RJust(fmt(c[0]), 8), RJust(fmt(c[1]), 8), RJust(fmt(c[2]), 8), NatToString(0));
    JustifiedTrims(d, 5, true);
    JustifiedTrims(d, 3, false);
    ParseNatToString(j);
  }

  /** Padding a word without blank ends, on either side, is undone by trimming. */
  lemma JustifiedTrims(d: string, width: nat, right: bool)
    requires d != [] && d[0] != ' ' && d[|d| - 1] != ' ' && |d| <= width
    ensures Trim(if right then RJust(d, width) else LJust(d, width)) == d
  {
    if right {
      assert RJust(d, width) == Spaces(width - |d|) + d + Spaces(0);
      TrimPadded(d, width - |d|, 0);
    } else {
      assert LJust(d, width) == Spaces(0) + d + Spaces(width - |d|);
      TrimPadded(d, 0, width - |d|);
    }
  }

  /** Indices below 1000 have one to three digits, the first not a blank. */
  lemma NumeralLength(j: nat)
    ensures j < 1000 ==> 1 <= |NatToString(j)| <= 3
    ensures NatToString(j)[0] != ' ' && NatToString(j)[|NatToString(j)| - 1] != ' '
  {
    var d := NatToString(j);
    assert IsDigit(d[0]) && IsDigit(d[|d| - 1]);
    if 10 <= j < 1000 {
      if j >= 100 {
        assert NatToString(j / 10 / 10) == [DigitChar(j / 10 / 10)];
      }
    }
  }
}
