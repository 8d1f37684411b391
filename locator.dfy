// The image-stream locator of main.go:27-28: the fixed regular expression
//
//   (?s)/Type\s*/XObject.*?/Subtype\s*/Image.*?stream(.*?)endstream
//
// run with Go's FindAllSubmatch (leftmost-first, non-overlapping, `.`
// matching every byte including newline). It is written as a dedicated
// scanner over bytes, not as a general regular-expression engine.
//
// The pattern's language is given declaratively by IsMatch; which of the
// matches Go reports is given by IsChosen (backtracking priority among
// matches at one start position) and by the gap conditions in the
// contract of FindAll (leftmost start, search resumed at the end of the
// previous match).
module Locator {
  import opened Bytes

  const TypeKw: seq<byte> := Lit("/Type")
  const XObjectKw: seq<byte> := Lit("/XObject")
  const SubtypeKw: seq<byte> := Lit("/Subtype")
  const ImageKw: seq<byte> := Lit("/Image")
  const StreamKw: seq<byte> := Lit("stream")
  const EndstreamKw: seq<byte> := Lit("endstream")

  /** Go's `\s` class: tab, line feed, form feed, carriage return, space. */
  predicate IsSpace(b: byte)
  {
    b == 9 || b == 10 || b == 12 || b == 13 || b == 32
  }

  /** Every byte of d[lo..hi] is in `\s`. */
  predicate AllSpace(d: seq<byte>, lo: nat, hi: nat)
  {
    hi <= |d| && forall k :: lo <= k < hi ==> IsSpace(d[k])
  }

  /** One way the pattern matches: where each of its literals starts.
      The match spans d[start..End()] and the capture group is
      d[CaptureStart()..endstream]. */
  datatype Match = Match(start: nat, xobject: nat, subtype: nat, image: nat, stream: nat, endstream: nat)
  {
    function CaptureStart(): nat { stream + |StreamKw| }
    function End(): nat { endstream + |EndstreamKw| }
  }

  // `/Type\s*/XObject` at p, with "/XObject" at x.
  predicate TypeXObject(d: seq<byte>, p: nat, x: nat)
  {
    OccursAt(d, p, TypeKw) && p + |TypeKw| <= x && AllSpace(d, p + |TypeKw|, x) && OccursAt(d, x, XObjectKw)
  }

  // `/Subtype\s*/Image` at j, with "/Image" at im.
  predicate SubtypeImage(d: seq<byte>, j: nat, im: nat)
  {
    OccursAt(d, j, SubtypeKw) && j + |SubtypeKw| <= im && AllSpace(d, j + |SubtypeKw|, im) && OccursAt(d, im, ImageKw)
  }

  /** `stream(.*?)endstream` with "stream" at k and "endstream" at e. */
  predicate StreamBody(d: seq<byte>, k: nat, e: nat)
  {
    OccursAt(d, k, StreamKw) && k + |StreamKw| <= e && OccursAt(d, e, EndstreamKw)
  }

  // `/Subtype\s*/Image.*?stream(.*?)endstream` at j.
  predicate Tail(d: seq<byte>, j: nat, im: nat, k: nat, e: nat)
  {
    SubtypeImage(d, j, im) && im + |ImageKw| <= k && StreamBody(d, k, e)
  }

  /** The whole pattern matches d[m.start..m.End()] in the way m records. */
  predicate IsMatch(d: seq<byte>, m: Match)
  {
    TypeXObject(d, m.start, m.xobject) && m.xobject + |XObjectKw| <= m.subtype
    && Tail(d, m.subtype, m.image, m.stream, m.endstream)
  }

  /** Backtracking priority between two matches at the same start: the
      three lazy repetitions prefer, in this order, an earlier "/Subtype",
      an earlier "stream" and an earlier "endstream". (Both `\s*` are
      forced; see XObjectForced and ImageForced.) */
  predicate Preferred(m: Match, n: Match)
  {
    m.subtype < n.subtype
    || (m.subtype == n.subtype && (m.stream < n.stream || (m.stream == n.stream && m.endstream <= n.endstream)))
  }

  /** m is the match a leftmost-first engine reports for its start position. */
  ghost predicate IsChosen(d: seq<byte>, m: Match)
  {
    IsMatch(d, m) && forall n :: IsMatch(d, n) && n.start == m.start ==> Preferred(m, n)
  }

  /** No match of the pattern starts in [lo, hi). */
  ghost predicate NoMatchBetween(d: seq<byte>, lo: nat, hi: nat)
  {
    forall m :: IsMatch(d, m) && lo <= m.start ==> hi <= m.start
  }

  /** No match of the pattern starts at lo or later. */
  ghost predicate NoMatchFrom(d: seq<byte>, lo: nat)
  {
    forall m :: IsMatch(d, m) ==> m.start < lo
  }

  /** End of the longest run of `\s` bytes starting at i (greedy `\s*`). */
  function SkipSpace(d: seq<byte>, i: nat): (j: nat)
    requires i <= |d|
    ensures i <= j <= |d| && AllSpace(d, i, j)
    ensures j < |d| ==> !IsSpace(d[j])
    decreases |d| - i
  {
    if i < |d| && IsSpace(d[i]) then SkipSpace(d, i + 1) else i
  }

  /** A `\s*` followed by a literal that does not start with a `\s` byte
      can only end where the longest run of spaces ends: backtracking into
      a shorter run never helps. */
  lemma SpaceRunForced(d: seq<byte>, i: nat, w: nat, kw: seq<byte>)
    requires i <= w && AllSpace(d, i, w) && OccursAt(d, w, kw)
    requires |kw| > 0 && !IsSpace(kw[0])
    ensures w == SkipSpace(d, i)
  {
    assert d[w] == d[w..w + |kw|][0] == kw[0];
  }

  lemma SlashLiterals()
    ensures XObjectKw[0] == 47 && ImageKw[0] == 47 && !IsSpace(47)
  {
  }

  /** The `\s*` between "/Type" and "/XObject" is forced. */
  lemma XObjectForced(d: seq<byte>, p: nat)
    requires OccursAt(d, p, TypeKw)
    ensures forall x :: TypeXObject(d, p, x) ==> x == SkipSpace(d, p + |TypeKw|)
  {
    SlashLiterals();
    forall x | TypeXObject(d, p, x) ensures x == SkipSpace(d, p + |TypeKw|) {
      SpaceRunForced(d, p + |TypeKw|, x, XObjectKw);
    }
  }

  /** The `\s*` between "/Subtype" and "/Image" is forced. */
  lemma ImageForced(d: seq<byte>, j: nat)
    requires OccursAt(d, j, SubtypeKw)
    ensures forall im :: SubtypeImage(d, j, im) ==> im == SkipSpace(d, j + |SubtypeKw|)
  {
    SlashLiterals();
    forall im | SubtypeImage(d, j, im) ensures im == SkipSpace(d, j + |SubtypeKw|) {
      SpaceRunForced(d, j + |SubtypeKw|, im, ImageKw);
    }
  }

  /** The lazy capture `(.*?)endstream`: the first "endstream" at or after from. */
  function FindEnd(d: seq<byte>, from: nat): (r: Option<nat>)
    ensures r.Some? ==> from <= r.value && OccursAt(d, r.value, EndstreamKw)
    ensures r.Some? ==> forall e :: from <= e < r.value ==> !OccursAt(d, e, EndstreamKw)
    ensures r.None? ==> forall e :: from <= e ==> !OccursAt(d, e, EndstreamKw)
    decreases |d| - from
  {
    if from + |EndstreamKw| > |d| then None
    else if OccursAt(d, from, EndstreamKw) then Some(from)
    else FindEnd(d, from + 1)
  }

  /** The lazy `.*?stream(.*?)endstream`: the first "stream" at or after from
      that some later "endstream" closes, with the first such "endstream". */
  function FindStream(d: seq<byte>, from: nat): (r: Option<(nat, nat)>)
    ensures r.Some? ==> from <= r.value.0 && StreamBody(d, r.value.0, r.value.1)
    ensures r.Some? ==> forall k, e :: from <= k && StreamBody(d, k, e) ==>
      r.value.0 < k || (r.value.0 == k && r.value.1 <= e)
    ensures r.None? ==> forall k, e :: from <= k ==> !StreamBody(d, k, e)
    decreases |d| - from
  {
    if from + |StreamKw| > |d| then None
    else if OccursAt(d, from, StreamKw) then
      match FindEnd(d, from + |StreamKw|)
      case Some(e) => Some((from, e))
      case None => FindStream(d, from + 1)
    else FindStream(d, from + 1)
  }

  // The lazy `.*?/Subtype\s*/Image.*?stream(.*?)endstream`: the first
  // "/Subtype" at or after from from which the rest of the pattern
  // matches, with the rest's preferred positions. The result is
  // (subtype, image, stream, endstream).
  function FindTail(d: seq<byte>, from: nat): (r: Option<(nat, nat, nat, nat)>)
    ensures r.Some? ==> from <= r.value.0 && Tail(d, r.value.0, r.value.1, r.value.2, r.value.3)
    ensures r.Some? ==> forall j, im, k, e :: from <= j && Tail(d, j, im, k, e) ==>
      r.value.0 < j || (r.value.0 == j && (r.value.2 < k || (r.value.2 == k && r.value.3 <= e)))
    ensures r.None? ==> forall j, im, k, e :: from <= j ==> !Tail(d, j, im, k, e)
    decreases |d| - from
  {
    if from + |SubtypeKw| > |d| then None
    else if OccursAt(d, from, SubtypeKw) then
      ImageForced(d, from);
      var im := SkipSpace(d, from + |SubtypeKw|);
      if OccursAt(d, im, ImageKw) then
        match FindStream(d, im + |ImageKw|)
        case Some(ke) => Some((from, im, ke.0, ke.1))
        case None => FindTail(d, from + 1)
      else FindTail(d, from + 1)
    else FindTail(d, from + 1)
  }

  /** The match a leftmost-first engine reports when the pattern is
      anchored at p, if the pattern matches there at all. */
  function MatchAt(d: seq<byte>, p: nat): (r: Option<Match>)
    ensures r.Some? ==> r.value.start == p && IsChosen(d, r.value)
    ensures r.None? ==> forall m :: IsMatch(d, m) ==> m.start != p
  {
    if OccursAt(d, p, TypeKw) then
      XObjectForced(d, p);
      var x := SkipSpace(d, p + |TypeKw|);
      if OccursAt(d, x, XObjectKw) then
        match FindTail(d, x + |XObjectKw|)
        case Some(t) => Some(Match(p, x, t.0, t.1, t.2, t.3))
        case None => None
      else None
    else None
  }

  /** ms is what FindAllSubmatch reports when the search starts at from:
      the first match starts where no earlier one could, it is the
      preferred match at its start, the search resumes where it ends, and
      an exhausted search means no match starts at or after from. */
  ghost predicate IsFindAll(d: seq<byte>, from: nat, ms: seq<Match>)
    decreases |ms|
  {
    if ms == [] then NoMatchFrom(d, from)
    else
      && from <= ms[0].start && NoMatchBetween(d, from, ms[0].start)
      && IsChosen(d, ms[0]) && IsFindAll(d, ms[0].End(), ms[1..])
  }

  /** FindAllSubmatch from position from: the leftmost match, then the
      search resumes at that match's end. */
  function FindAll(d: seq<byte>, from: nat): (ms: seq<Match>)
    ensures IsFindAll(d, from, ms)
    decreases |d| - from
  {
    if from >= |d| then []
    else
      match MatchAt(d, from)
      case Some(m) =>
        var rest := FindAll(d, m.End());
        assert ([m] + rest)[1..] == rest;
        [m] + rest
      case None => FindAll(d, from + 1)
  }

  /** Every reported match is the preferred match at its start, and none
      starts before the search position. */
  lemma {:induction false} AllChosen(d: seq<byte>, from: nat, ms: seq<Match>)
    requires IsFindAll(d, from, ms)
    ensures forall i :: 0 <= i < |ms| ==> from <= ms[i].start && IsChosen(d, ms[i])
    decreases |ms|
  {
    if ms != [] {
      AllChosen(d, ms[0].End(), ms[1..]);
      forall i | 0 < i < |ms| ensures from <= ms[i].start && IsChosen(d, ms[i]) {
        assert ms[i] == ms[1..][i - 1];
      }
    }
  }

  /** Each reported match ends where the next one may start at the earliest. */
  predicate Chained(ms: seq<Match>)
  {
    (forall k :: 0 <= k < |ms| ==> ms[k].start <= ms[k].End())
    && forall k :: 0 <= k < |ms| - 1 ==> ms[k].End() <= ms[k + 1].start
  }

  /** Reported matches are chained, and none starts before the search position. */
  lemma {:induction false} FindAllChained(d: seq<byte>, from: nat, ms: seq<Match>)
    requires IsFindAll(d, from, ms)
    ensures Chained(ms) && (ms != [] ==> from <= ms[0].start)
    decreases |ms|
  {
    if ms != [] {
      var rest := ms[1..];
      assert IsFindAll(d, ms[0].End(), rest) && IsMatch(d, ms[0]);
      FindAllChained(d, ms[0].End(), rest);
      assert forall k :: 0 < k < |ms| ==> ms[k] == rest[k - 1];
    }
  }

  /** In a chained list, every match ends before any later one starts. */
  lemma {:induction false} ChainedOrdered(ms: seq<Match>, i: nat, j: nat)
    requires Chained(ms) && i < j < |ms|
    ensures ms[i].End() <= ms[j].start
    decreases j - i
  {
    if i + 1 < j {
      ChainedOrdered(ms, i + 1, j);
    }
  }

  /** `re.FindAllSubmatch(data, -1)` (main.go:28), as the list of matches. */
  function ImageStreams(d: seq<byte>): (ms: seq<Match>)
    ensures forall i :: 0 <= i < |ms| ==> IsChosen(d, ms[i])
  {
    var ms := FindAll(d, 0);
    AllChosen(d, 0, ms);
    ms
  }

  /** The capture group `match[1]` of every match, in order (main.go:37). */
  function Captures(d: seq<byte>): (cs: seq<seq<byte>>)
    ensures |cs| == |ImageStreams(d)|
  {
    var ms := ImageStreams(d);
    seq(|ms|, i requires 0 <= i < |ms| => d[ms[i].CaptureStart()..ms[i].endstream])
  }

  /** Every capture is the slice of the input that immediately follows a
      "stream" and immediately precedes an "endstream". */
  lemma CaptureDelimited(d: seq<byte>, i: nat)
    requires i < |Captures(d)|
    ensures var m := ImageStreams(d)[i];
      && |StreamKw| <= m.CaptureStart() <= m.endstream && m.End() <= |d|
      && Captures(d)[i] == d[m.CaptureStart()..m.endstream]
      && d[m.CaptureStart() - |StreamKw|..m.CaptureStart()] == StreamKw
      && d[m.endstream..m.End()] == EndstreamKw
  {
    var m := ImageStreams(d)[i];
    MatchDelimited(d, m);
  }

  lemma MatchDelimited(d: seq<byte>, m: Match)
    requires IsMatch(d, m)
    ensures |StreamKw| <= m.CaptureStart() <= m.endstream && m.End() <= |d|
    ensures d[m.CaptureStart() - |StreamKw|..m.CaptureStart()] == StreamKw
    ensures d[m.endstream..m.End()] == EndstreamKw
  {
    assert StreamBody(d, m.stream, m.endstream);
  }

  // Within the same match, `/Type\s*/XObject` and then `/Subtype\s*/Image`
  // come before the "stream" that opens the capture.
  lemma CaptureMarkers(d: seq<byte>, i: nat)
    requires i < |ImageStreams(d)|
    ensures var m := ImageStreams(d)[i];
      && TypeXObject(d, m.start, m.xobject) && SubtypeImage(d, m.subtype, m.image)
      && m.start < m.xobject < m.subtype < m.image < m.stream
  {
    var m := ImageStreams(d)[i];
    assert IsMatch(d, m);
  }

  /** Because the capture group is lazy, no capture contains "endstream". */
  lemma CaptureExcludesEndstream(d: seq<byte>, i: nat, j: nat)
    requires i < |Captures(d)|
    ensures !OccursAt(Captures(d)[i], j, EndstreamKw)
  {
    CaptureDelimited(d, i);
    ChosenExcludesEndstream(d, ImageStreams(d)[i], j);
  }

  lemma ChosenExcludesEndstream(d: seq<byte>, m: Match, j: nat)
    requires IsChosen(d, m)
    ensures !OccursAt(d[m.CaptureStart()..m.endstream], j, EndstreamKw)
  {
    var c := d[m.CaptureStart()..m.endstream];
    if j + |EndstreamKw| <= |c| {
      var e := m.CaptureStart() + j;
      assert d[e..e + |EndstreamKw|] == c[j..j + |EndstreamKw|];
      ChosenTakesFirstEndstream(d, m, e);
    }
  }

  /** The preferred match closes its capture at the first "endstream"
      after its "stream". */
  lemma ChosenTakesFirstEndstream(d: seq<byte>, m: Match, e: nat)
    requires IsChosen(d, m) && m.CaptureStart() <= e
    ensures OccursAt(d, e, EndstreamKw) ==> m.endstream <= e
  {
    if OccursAt(d, e, EndstreamKw) {
      var n := m.(endstream := e);
      assert IsMatch(d, n);
    }
  }

  /** Matches are pairwise disjoint and come in increasing order of position. */
  lemma StreamsInOrder(d: seq<byte>, i: nat, j: nat)
    requires i < j < |ImageStreams(d)|
    ensures ImageStreams(d)[i].End() <= ImageStreams(d)[j].start
  {
    FindAllChained(d, 0, ImageStreams(d));
    ChainedOrdered(ImageStreams(d), i, j);
  }

  /** The first match starts at the leftmost position where the pattern
      matches at all. */
  lemma FirstIsLeftmost(d: seq<byte>, m: Match)
    requires IsMatch(d, m)
    ensures |ImageStreams(d)| > 0 && ImageStreams(d)[0].start <= m.start
  {
  }

  /** The locator finds nothing exactly when the pattern matches nowhere. */
  lemma NoCapturesIffNoMatch(d: seq<byte>)
    ensures Captures(d) == [] <==> forall m :: !IsMatch(d, m)
  {
    if Captures(d) != [] {
      assert IsMatch(d, ImageStreams(d)[0]);
    }
  }
}
