/**
 * Locating and re-emitting one frame of a PELE trajectory (bestStructs.py,
 * `main`): the frame ordinal of a step, the search
 * `re.search('MODEL\s+%d(.*?)ENDMDL' % ordinal, text, re.DOTALL)`, and the
 * single-frame document written from the match.
 */
module Frames {

  import opened Wrappers
  import opened Text

  /**
   * `int(step / out_freq + 1)`: Python 2 integer division floors, whatever the
   * divisor's sign; a zero divisor raises, which the caller handles.
   */
  function FrameOrdinal(step: int, outFreq: int): (k: int)
    requires outFreq != 0
    ensures outFreq > 0 ==> (k - 1) * outFreq <= step < k * outFreq
    ensures outFreq < 0 ==> k * outFreq < step <= (k - 1) * outFreq
  {
    if outFreq > 0 then
      var q := step / outFreq;
      assert step == q * outFreq + step % outFreq;
      q + 1
    else
      var q := (-step) / (-outFreq);
      assert -step == q * (-outFreq) + (-step) % (-outFreq);
      q + 1
  }

  /** The ordinal is the only k with (k - 1) * out_freq <= step < k * out_freq. */
  lemma FrameOrdinalUnique(step: int, outFreq: int, k: int)
    requires outFreq > 0
    requires (k - 1) * outFreq <= step < k * outFreq
    ensures k == FrameOrdinal(step, outFreq)
  {
    var o := FrameOrdinal(step, outFreq);
    if k < o {
      MulMonotone(k, o - 1, outFreq);
    } else if k > o {
      MulMonotone(o, k - 1, outFreq);
    }
  }

  lemma MulMonotone(a: int, b: int, f: int)
    requires a <= b && f > 0
    ensures a * f <= b * f
  {
    var d := b - a;
    assert b * f == a * f + d * f;
  }

  // ---------------------------------------------------------------------------
  // What the regular expression matches
  // ---------------------------------------------------------------------------

  /** Python 2's `\s` on a byte string: blank, tab, newline, vertical tab, form feed, return. */
  predicate IsSpace(c: char) { c == ' ' || 9 <= c as int <= 13 }

  /** `MODEL\s+<digits>` matches `s[i..j]`. */
  predicate MarkerMatch(s: string, i: int, digits: string, j: int) {
    0 <= i && i + 6 + |digits| <= j <= |s| &&
    s[i..i + 5] == "MODEL" &&
    (forall p :: i + 5 <= p < j - |digits| ==> IsSpace(s[p])) &&
    s[j - |digits|..j] == digits
  }

  /**
   * `MODEL\s+<digits>(.*?)ENDMDL` matches at `i` with the group `s[j..e]`: the
   * lazy group ends at the first `ENDMDL` at or after `j`.
   */
  predicate RegexMatch(s: string, i: int, digits: string, j: int, e: int) {
    MarkerMatch(s, i, digits, j) && j <= e && OccursAt(s, e, "ENDMDL") &&
    forall q :: j <= q < e ==> !OccursAt(s, q, "ENDMDL")
  }

  // ---------------------------------------------------------------------------
  // The search
  // ---------------------------------------------------------------------------

  /** Length of the run of `\s` characters starting at `p`. */
  function SpaceRun(s: string, p: nat): (k: nat)
    requires p <= |s|
    ensures p + k <= |s|
    ensures forall q :: p <= q < p + k ==> IsSpace(s[q])
    ensures p + k == |s| || !IsSpace(s[p + k])
    decreases |s| - p
  {
    if p < |s| && IsSpace(s[p]) then 1 + SpaceRun(s, p + 1) else 0
  }

  /**
   * Where `MODEL\s+<digits>` starting at `i` ends. Since `digits` does not start
   * with a blank, `\s+` can only end where the run of blanks ends.
   */
  function MarkerEnd(s: string, i: nat, digits: string): (r: Option<nat>)
    requires |digits| > 0 && !IsSpace(digits[0])
    ensures r.Some? ==> MarkerMatch(s, i, digits, r.value)
  {
    if i + 5 <= |s| && s[i..i + 5] == "MODEL" then
      var p := i + 5 + SpaceRun(s, i + 5);
      if p > i + 5 && p + |digits| <= |s| && s[p..p + |digits|] == digits then Some(p + |digits|) else None
    else None
  }

  /** A marker has one end only, and `MarkerEnd` finds it. */
  lemma MarkerEndComplete(s: string, i: nat, digits: string, j: int)
    requires |digits| > 0 && !IsSpace(digits[0])
    requires MarkerMatch(s, i, digits, j)
    ensures MarkerEnd(s, i, digits) == Some(j)
  {
    assert s[j - |digits|] == digits[0];
  }

  /** A match at a given start has one group. */
  lemma RegexMatchUnique(s: string, i: nat, digits: string, j: int, e: int, j': int, e': int)
    requires |digits| > 0 && !IsSpace(digits[0])
    requires RegexMatch(s, i, digits, j, e) && RegexMatch(s, i, digits, j', e')
    ensures j == j' && e == e'
  {
    MarkerEndComplete(s, i, digits, j);
    MarkerEndComplete(s, i, digits, j');
  }

  datatype Match = Match(start: nat, bodyStart: nat, bodyEnd: nat)

  /** The leftmost match starting at or after `i`, tried position by position. */
  function SearchFrom(s: string, i: nat, digits: string): (r: Option<Match>)
    requires |digits| > 0 && !IsSpace(digits[0])
    ensures r.Some? ==> i <= r.value.start && RegexMatch(s, r.value.start, digits, r.value.bodyStart, r.value.bodyEnd)
    ensures r.Some? ==> forall i', j, e :: i <= i' < r.value.start ==> !RegexMatch(s, i', digits, j, e)
    ensures r.None? ==> forall i', j, e :: i <= i' ==> !RegexMatch(s, i', digits, j, e)
    decreases |s| - i
  {
    if i + 5 > |s| then None
    else
      var here := MarkerEnd(s, i, digits);
      var next := if here.Some? then FindFrom(s, here.value, "ENDMDL") else None;
      if here.Some? && next.Some? then Some(Match(i, here.value, next.value))
      else
        assert forall j, e :: !RegexMatch(s, i, digits, j, e) by {
          forall j, e | RegexMatch(s, i, digits, j, e) ensures false {
            MarkerEndComplete(s, i, digits, j);
          }
        }
        SearchFrom(s, i + 1, digits)
  }

  /**
   * The search the script runs for a frame ordinal: the leftmost place where
   * `MODEL`, at least one blank and the ordinal's digits are followed somewhere
   * by `ENDMDL`. Nothing ends the number, so `MODEL 12` is a marker for ordinal 1.
   */
  function FindModel(s: string, ordinal: int): (r: Option<Match>)
    ensures r.Some? ==> RegexMatch(s, r.value.start, IntToString(ordinal), r.value.bodyStart, r.value.bodyEnd)
    ensures r.Some? ==> forall i, j, e :: 0 <= i < r.value.start ==> !RegexMatch(s, i, IntToString(ordinal), j, e)
    ensures r.None? ==> forall i, j, e :: 0 <= i ==> !RegexMatch(s, i, IntToString(ordinal), j, e)
  {
    SearchFrom(s, 0, IntToString(ordinal))
  }

  /** `trajectory_selected.group(1)`, or nothing when the search found no match. */
  function ExtractBody(s: string, ordinal: int): (r: Option<string>)
    ensures r.Some? ==> exists i, j, e ::
      && RegexMatch(s, i, IntToString(ordinal), j, e) && r.value == s[j..e]
      && forall i', j', e' :: 0 <= i' < i ==> !RegexMatch(s, i', IntToString(ordinal), j', e')
    ensures r.None? <==> forall i, j, e :: 0 <= i ==> !RegexMatch(s, i, IntToString(ordinal), j, e)
  {
    match FindModel(s, ordinal)
    case Some(m) => Some(s[m.bodyStart..m.bodyEnd])
    case None => None
  }

  /** A match starting at the first character is the one the search returns. */
  lemma ExtractAtStart(s: string, ordinal: int, j: int, e: int)
    requires RegexMatch(s, 0, IntToString(ordinal), j, e)
    ensures ExtractBody(s, ordinal) == Some(s[j..e])
  {
    var d := IntToString(ordinal);
    var m := FindModel(s, ordinal);
    assert m.Some?;
    assert m.value.start == 0;
    RegexMatchUnique(s, 0, d, j, e, m.value.bodyStart, m.value.bodyEnd);
  }

  /**
   * The marker test does not look past the ordinal's digits: a header whose
   * number merely starts with those digits (`MODEL 12` for ordinal 1) is a
   * marker for the ordinal, ending right after the shared digits.
   */
  lemma LongerNumberIsMarker(s: string, i: int, digits: string, rest: string, j: int)
    requires MarkerMatch(s, i, digits + rest, j)
    ensures MarkerMatch(s, i, digits, j - |rest|)
  {
    var t := j - |digits + rest|;
    assert s[t..j - |rest|] == s[t..j][..|digits|];
  }

  // ---------------------------------------------------------------------------
  // The written frame
  // ---------------------------------------------------------------------------

  /**
   * `"\n".join(["MODEL     %d" % ordinal, body, "ENDMDL\n"])`: the header keeps
   * the frame's own ordinal.
   */
  function FrameDocument(ordinal: int, body: string): (doc: string)
    ensures MarkerMatch(doc, 0, IntToString(ordinal), 10 + |IntToString(ordinal)|)
    ensures |doc| >= 7 && OccursAt(doc, |doc| - 7, "ENDMDL") && doc[|doc| - 1] == '\n'
  {
    var d := IntToString(ordinal);
    var rest := "\n" + body + "\n" + "ENDMDL\n";
    var doc := "MODEL     " + d + "\n" + body + "\n" + "ENDMDL\n";
    HeaderIsMarker(d, rest);
    assert doc == "MODEL     " + d + rest;
    assert doc[|doc| - 7..|doc| - 1] == "ENDMDL";
    doc
  }

  /** The header of a written frame is a marker for its ordinal. */
  lemma HeaderIsMarker(d: string, rest: string)
    ensures MarkerMatch("MODEL     " + d + rest, 0, d, 10 + |d|)
  {
    var doc := "MODEL     " + d + rest;
    assert doc[..5] == "MODEL";
    assert doc[10..10 + |d|] == d;
  }

  /** `ENDMDL` does not occur in `"\n" + body + "\n"` nor straddle its last newline. */
  lemma NoEndInWrappedBody(body: string, tail: string, q: int)
    requires forall q :: !OccursAt(body, q, "ENDMDL")
    requires 0 <= q < |body| + 2 && |tail| >= 5
    ensures !OccursAt("\n" + body + "\n" + tail, q, "ENDMDL")
  {
    var w := "\n" + body + "\n" + tail;
    var nl := |body| + 1;
    if q == 0 || q == nl {
      assert w[q..q + 6][0] == w[q] == '\n';
    } else if q + 6 > nl {
      assert w[q..q + 6][nl - q] == w[nl] == '\n';
    } else {
      assert w[q..q + 6] == body[q - 1..q + 5];
      assert !OccursAt(body, q - 1, "ENDMDL");
    }
  }

  /** After any prefix, the first `ENDMDL` past the wrapped body is the closing one. */
  lemma WrappedBodyEnds(pre: string, body: string)
    requires forall q :: !OccursAt(body, q, "ENDMDL")
    ensures OccursAt(pre + ("\n" + body + "\n" + "ENDMDL\n"), |pre| + |body| + 2, "ENDMDL")
    ensures forall q :: |pre| <= q < |pre| + |body| + 2 ==>
      !OccursAt(pre + ("\n" + body + "\n" + "ENDMDL\n"), q, "ENDMDL")
  {
    var w := "\n" + body + "\n" + "ENDMDL\n";
    var doc := pre + w;
    var e := |pre| + |body| + 2;
    assert doc[e..e + 6] == w[|body| + 2..|body| + 8];
    forall q | |pre| <= q < e ensures !OccursAt(doc, q, "ENDMDL") {
      NoEndInWrappedBody(body, "ENDMDL\n", q - |pre|);
      assert doc[q..q + 6] == w[q - |pre|..q - |pre| + 6];
    }
  }

  /** A written frame matches the search for its own ordinal at its first character. */
  lemma FrameDocumentMatches(ordinal: int, body: string)
    requires forall q :: !OccursAt(body, q, "ENDMDL")
    ensures var j := 10 + |IntToString(ordinal)|;
      RegexMatch(FrameDocument(ordinal, body), 0, IntToString(ordinal), j, j + |body| + 2)
  {
    var d := IntToString(ordinal);
    var w := "\n" + body + "\n" + "ENDMDL\n";
    assert FrameDocument(ordinal, body) == "MODEL     " + d + w;
    HeaderIsMarker(d, w);
    WrappedBodyEnds("MODEL     " + d, body);
  }

  /**
   * Searching a written frame for its own ordinal gives back its body wrapped in
   * the two newlines the join added, as long as the body holds no `ENDMDL`.
   */
  lemma ExtractFrameDocument(ordinal: int, body: string)
    requires forall q :: !OccursAt(body, q, "ENDMDL")
    ensures ExtractBody(FrameDocument(ordinal, body), ordinal) == Some("\n" + body + "\n")
  {
    var j := 10 + |IntToString(ordinal)|;
    FrameDocumentMatches(ordinal, body);
    ExtractAtStart(FrameDocument(ordinal, body), ordinal, j, j + |body| + 2);
    FrameDocumentBody(ordinal, body);
  }

  /**
   * The lazy group stops at the first `ENDMDL`, so no extracted body holds
   * one: every frame the script writes meets the round trip's condition.
   */
  lemma ExtractedBodyHasNoEnd(s: string, ordinal: int, body: string)
    requires ExtractBody(s, ordinal) == Some(body)
    ensures forall q :: !OccursAt(body, q, "ENDMDL")
  {
    var m := FindModel(s, ordinal).value;
    GroupHasNoEnd(s, m.bodyStart, m.bodyEnd);
  }

  /** A stretch of `s` in which no `ENDMDL` starts holds none. */
  lemma GroupHasNoEnd(s: string, j: int, e: int)
    requires 0 <= j <= e <= |s|
    requires forall q :: j <= q < e ==> !OccursAt(s, q, "ENDMDL")
    ensures forall q :: !OccursAt(s[j..e], q, "ENDMDL")
  {
    var body := s[j..e];
    forall q | OccursAt(body, q, "ENDMDL") ensures false {
      forall t | q <= t < q + 6 ensures body[t] == s[j + t] { }
      assert s[j + q..j + q + 6] == body[q..q + 6];
      assert OccursAt(s, j + q, "ENDMDL");
    }
  }

  /** Writing a frame the script extracted and extracting it again gives it back, framed by newlines. */
  lemma ExtractedFrameRoundTrip(s: string, ordinal: int, body: string)
    requires ExtractBody(s, ordinal) == Some(body)
    ensures ExtractBody(FrameDocument(ordinal, body), ordinal) == Some("\n" + body + "\n")
  {
    ExtractedBodyHasNoEnd(s, ordinal, body);
    ExtractFrameDocument(ordinal, body);
  }

  lemma FrameDocumentBody(ordinal: int, body: string)
    ensures var j := 10 + |IntToString(ordinal)|;
      FrameDocument(ordinal, body)[j..j + |body| + 2] == "\n" + body + "\n"
  {
    var d := IntToString(ordinal);
    assert FrameDocument(ordinal, body) == "MODEL     " + d + ("\n" + body + "\n") + "ENDMDL\n";
  }
}
