/**
 The iterator of the cwalk library over the segments of several paths, as if they were one,
 and the normalisation that runs it forwards and backwards and writes into a buffer.
 */
module PathJoined {
  import opened Buffer
  import opened Path

  // ---------------------------------------------------------------------
  // Segments in place
  // ---------------------------------------------------------------------

  /** A segment stands there: between separators or the ends, and without one inside. */
  ghost predicate InPlace(p: string, begin: nat, size: nat) {
    && 0 < size && begin + size <= |p|
    && (begin == 0 || p[begin - 1] == '/') && (begin + size == |p| || p[begin + size] == '/')
    && forall k :: begin <= k < begin + size ==> p[k] != '/'
  }

  /** Only separators stand there. */
  ghost predicate Gap(p: string, from: nat, upto: nat) {
    from <= upto <= |p| && forall k :: from <= k < upto ==> p[k] == '/'
  }

  lemma {:induction false} SkipGap(p: string, from: nat, upto: nat)
    requires Gap(p, from, upto)
    ensures Skip(p, from) == Skip(p, upto) && SegmentsFrom(p, from) == SegmentsFrom(p, upto)
    decreases upto - from
  {
    if from < upto {
      SkipGap(p, from + 1, upto);
    }
  }

  lemma {:induction false} SkipIsGap(p: string, i: nat)
    requires i <= |p|
    ensures Gap(p, i, Skip(p, i))
    decreases |p| - i
  {
    if i < |p| && p[i] == '/' {
      SkipIsGap(p, i + 1);
    }
  }

  lemma GapOnly(p: string, from: nat)
    requires Gap(p, from, |p|)
    ensures SegmentsFrom(p, from) == []
  {
    SkipAll(p, from);
  }

  /** The segments before and after one that stands somewhere. */
  lemma {:induction false} SegmentsSplit(p: string, i: nat, begin: nat, size: nat)
    requires InPlace(p, begin, size) && i <= begin
    ensures SegmentsFrom(p, i) ==
            SegmentsFrom(p[..begin], i) + [p[begin..begin + size]] + SegmentsFrom(p, begin + size)
    decreases |p| - i
  {
    var s := Skip(p, i);
    SkipBelow(p, i, begin);
    SegmentsAt(p, i, s);
    if s == begin {
      StopAt(p, begin, begin + size);
      NoneBefore(p, i, begin);
    } else {
      var e := Stop(p, s);
      OneBefore(p, i, s, e, begin);
      SegmentsSplit(p, e, begin, size);
      Behind(p[s..e], SegmentsFrom(p[..begin], e), p[begin..begin + size], SegmentsFrom(p, begin + size));
    }
  }

  lemma Behind(x: string, a: seq<string>, y: string, b: seq<string>)
    ensures [x] + (a + [y] + b) == ([x] + a) + [y] + b
  { }

  lemma NoneBefore(p: string, i: nat, begin: nat)
    requires i <= begin <= |p| && Skip(p, i) == begin
    ensures SegmentsFrom(p[..begin], i) == []
  {
    SkipCut(p, begin, i);
  }

  lemma OneBefore(p: string, i: nat, s: nat, e: nat, begin: nat)
    requires i <= |p| && s == Skip(p, i) < begin <= |p| && e == Stop(p, s) && p[begin - 1] == '/'
    ensures e < begin && SegmentsFrom(p[..begin], i) == [p[s..e]] + SegmentsFrom(p[..begin], e)
  {
    StopBelow(p, s, begin - 1);
    SkipCut(p, begin, i);
    StopCut(p, begin, s);
    SegmentsAt(p[..begin], i, s);
    assert p[..begin][s..e] == p[s..e];
  }

  /** Where the scan forward ends up a segment stands. */
  lemma ScannedInPlace(p: string, from: nat, begin: nat, size: nat)
    requires from <= |p| && (from == 0 || (from < |p| && p[from] == '/'))
    requires begin == Skip(p, from) < |p| && begin + size == Stop(p, begin)
    ensures InPlace(p, begin, size) && Gap(p, from, begin)
  {
    SkipIsGap(p, from);
    SkipStops(p, from);
    StopIsSeparator(p, begin);
    forall k | begin <= k < begin + size
      ensures p[k] != '/'
    {
      StopPlain(p, begin, k);
    }
  }

  /** The next segment in place: what stood before it, and the one it follows. */
  lemma NextBefore(p: string, begin: nat, size: nat, next: nat)
    requires InPlace(p, begin, size) && begin + size <= next && Gap(p, begin + size, next)
    ensures Segments(p[..next]) == Segments(p[..begin]) + [p[begin..begin + size]]
  {
    var q := p[..next];
    CutInPlace(p, begin, size, next);
    SegmentsSplit(q, 0, begin, size);
    GapOnly(q, begin + size);
  }

  lemma CutInPlace(p: string, begin: nat, size: nat, next: nat)
    requires InPlace(p, begin, size) && begin + size <= next && Gap(p, begin + size, next)
    ensures var q := p[..next];
            InPlace(q, begin, size) && Gap(q, begin + size, |q|) && q[..begin] == p[..begin] &&
            q[begin..begin + size] == p[begin..begin + size]
  { }

  lemma FirstBefore(p: string, begin: nat)
    requires Gap(p, 0, begin)
    ensures Segments(p[..begin]) == []
  {
    GapOnly(p[..begin], 0);
  }

  // ---------------------------------------------------------------------
  // One path, backwards
  // ---------------------------------------------------------------------

  /** cwk_path_find_previous_stop. */
  method FindPreviousStop(p: string, low: nat, from: nat) returns (c: nat)
    requires low <= from < |p| && p[from] != '/' && Gap(p, 0, low)
    ensures low <= c <= from && (c == 0 || p[c - 1] == '/') && forall k :: c <= k <= from ==> p[k] != '/'
  {
    c := from;
    while c > low && p[c] != '/'
      invariant low <= c <= from && forall k :: c < k <= from ==> p[k] != '/'
    {
      c := c - 1;
    }
    if p[c] == '/' {
      c := c + 1;
    }
  }

  /** cwk_path_get_previous_segment: from the beginning of a segment back to the one before it. */
  method PreviousSegment(p: string, low: nat, begin: nat, size: nat)
    returns (found: bool, begin': nat, size': nat)
    requires InPlace(p, begin, size) && Gap(p, 0, low) && low <= begin
    ensures found <==> Segments(p[..begin]) != []
    ensures !found ==> begin' == begin && size' == size
    ensures found ==> InPlace(p, begin', size') && low <= begin' && begin' + size' <= begin
    ensures found ==> Gap(p, begin' + size', begin)
  {
    begin', size' := begin, size;
    var c: int := begin;
    if c <= low {
      FirstBefore(p, begin);
      return false, begin, size;
    }
    c := c - 1;
    while c >= low && p[c] == '/'
      invariant low - 1 <= c < begin && Gap(p, c + 1, begin)
      decreases c
    {
      c := c - 1;
    }
    if c < low {
      FirstBefore(p, begin);
      return false, begin, size;
    }
    begin' := FindPreviousStop(p, low, c);
    size' := c + 1 - begin';
    found := true;
    NextBefore(p, begin', size', begin);
  }

  /** cwk_path_get_last_segment, with or without a root: the first segment, and on while there is another. */
  method LastSegment(p: string, low: nat) returns (found: bool, begin: nat, size: nat)
    requires low <= |p| && Gap(p, 0, low)
    ensures found <==> Segments(p) != []
    ensures found ==> InPlace(p, begin, size) && low <= begin && SegmentsFrom(p, begin + size) == []
  {
    SkipGap(p, 0, low);
    found, begin, size := FirstWithoutRoot(p, low);
    if !found {
      return;
    }
    ScannedInPlace(p, 0, begin, size);
    begin, size := GoOn(p, begin, size);
  }

  method GoOn(p: string, first: nat, length: nat) returns (begin: nat, size: nat)
    requires InPlace(p, first, length)
    ensures InPlace(p, begin, size) && first <= begin && SegmentsFrom(p, begin + size) == []
  {
    begin, size := first, length;
    var more := true;
    while more
      invariant InPlace(p, begin, size) && first <= begin
      invariant !more ==> SegmentsFrom(p, begin + size) == []
      decreases |p| - begin, more
    {
      ghost var end := begin + size;
      more, begin, size := NextSegment(p, begin, size);
      if more {
        ScannedInPlace(p, end, begin, size);
      }
    }
  }

  // ---------------------------------------------------------------------
  // Several paths as one
  // ---------------------------------------------------------------------

  /** The segments of the paths from one on and before another. */
  function Stretch(paths: seq<string>, from: nat, end: nat): seq<string>
    requires from <= end <= |paths|
    decreases end - from
  {
    if from == end then [] else Segments(paths[from]) + Stretch(paths, from + 1, end)
  }

  /** The segments of all paths, one after the other. */
  function All(paths: seq<string>): seq<string> {
    Stretch(paths, 0, |paths|)
  }

  lemma {:induction false} AllParts(paths: seq<string>, from: nat, k: nat, end: nat)
    requires from <= k <= end <= |paths|
    ensures Stretch(paths, from, end) == Stretch(paths, from, k) + Stretch(paths, k, end)
    decreases k - from
  {
    if from < k {
      AllParts(paths, from + 1, k, end);
      Associates(Segments(paths[from]), Stretch(paths, from + 1, k), Stretch(paths, k, end));
    }
  }

  lemma Associates(a: seq<string>, b: seq<string>, c: seq<string>)
    ensures a + (b + c) == (a + b) + c
  { }

  /** One path more, at the end or at the beginning. */
  lemma AllNext(paths: seq<string>, from: nat, k: nat)
    requires from <= k < |paths|
    ensures Stretch(paths, from, k + 1) == Stretch(paths, from, k) + Segments(paths[k])
  {
    AllParts(paths, from, k, k + 1);
    assert Stretch(paths, k, k + 1) == Segments(paths[k]) + [];
  }

  lemma AllPrevious(paths: seq<string>, k: nat, end: nat)
    requires k < end <= |paths|
    ensures Stretch(paths, k, end) == Segments(paths[k]) + Stretch(paths, k + 1, end)
  { }

  /** cwk_segment_joined: a path, where its segments start, and a segment of it. */
  datatype Cursor = Cursor(index: nat, low: nat, begin: nat, size: nat)

  ghost predicate On(paths: seq<string>, c: Cursor) {
    && c.index < |paths| && InPlace(paths[c.index], c.begin, c.size)
    && c.low <= c.begin && Gap(paths[c.index], 0, c.low)
  }

  /** The cursor points into a path. */
  predicate Points(paths: seq<string>, c: Cursor) {
    c.index < |paths| && c.begin + c.size <= |paths[c.index]|
  }

  /** The segments before the cursor, at it, and after it. */
  ghost function Before(paths: seq<string>, c: Cursor): seq<string>
    requires Points(paths, c)
  {
    Stretch(paths, 0, c.index) + Segments(paths[c.index][..c.begin])
  }

  function Current(paths: seq<string>, c: Cursor): string
    requires Points(paths, c)
  {
    paths[c.index][c.begin..c.begin + c.size]
  }

  ghost function After(paths: seq<string>, c: Cursor): seq<string>
    requires Points(paths, c)
  {
    SegmentsFrom(paths[c.index], c.begin + c.size) + Stretch(paths, c.index + 1, |paths|)
  }

  lemma CursorSplits(paths: seq<string>, c: Cursor)
    requires On(paths, c)
    ensures All(paths) == Before(paths, c) + [Current(paths, c)] + After(paths, c)
  {
    SegmentsSplit(paths[c.index], 0, c.begin, c.size);
    SplitsAround(paths, c);
  }

  lemma SplitsAround(paths: seq<string>, c: Cursor)
    requires Points(paths, c)
    requires var p := paths[c.index];
             Segments(p) == Segments(p[..c.begin]) + [Current(paths, c)] + SegmentsFrom(p, c.begin + c.size)
    ensures All(paths) == Before(paths, c) + [Current(paths, c)] + After(paths, c)
  {
    var p, n := paths[c.index], |paths|;
    AllParts(paths, 0, c.index, n);
    AllPrevious(paths, c.index, n);
    Around(Stretch(paths, 0, c.index), Segments(p[..c.begin]), Current(paths, c),
           SegmentsFrom(p, c.begin + c.size), Stretch(paths, c.index + 1, n));
  }

  lemma Around(a: seq<string>, b: seq<string>, x: string, c: seq<string>, d: seq<string>)
    ensures a + ((b + [x] + c) + d) == (a + b) + [x] + (c + d)
  { }

  /** From one cursor to the next. */
  ghost predicate Follows(paths: seq<string>, c: Cursor, d: Cursor)
    requires On(paths, c)
  {
    && On(paths, d) && Before(paths, d) == Before(paths, c) + [Current(paths, c)]
    && After(paths, c) == [Current(paths, d)] + After(paths, d)
  }

  lemma FollowsInPath(paths: seq<string>, c: Cursor, d: Cursor)
    requires On(paths, c) && On(paths, d) && c.index == d.index
    requires c.begin + c.size <= d.begin && Gap(paths[c.index], c.begin + c.size, d.begin)
    ensures Follows(paths, c, d)
  {
    StepBefore(paths, c, d);
    StepAfter(paths, c, d);
  }

  lemma StepBefore(paths: seq<string>, c: Cursor, d: Cursor)
    requires Points(paths, c) && Points(paths, d) && c.index == d.index && InPlace(paths[c.index], c.begin, c.size)
    requires c.begin + c.size <= d.begin && Gap(paths[c.index], c.begin + c.size, d.begin)
    ensures Before(paths, d) == Before(paths, c) + [Current(paths, c)]
  {
    NextBefore(paths[c.index], c.begin, c.size, d.begin);
    BeforeInPath(paths, c, d);
  }

  lemma StepAfter(paths: seq<string>, c: Cursor, d: Cursor)
    requires Points(paths, c) && Points(paths, d) && c.index == d.index && InPlace(paths[c.index], d.begin, d.size)
    requires c.begin + c.size <= d.begin && Gap(paths[c.index], c.begin + c.size, d.begin)
    ensures After(paths, c) == [Current(paths, d)] + After(paths, d)
  {
    NextAfter(paths[c.index], c.begin + c.size, d.begin, d.size, Stretch(paths, c.index + 1, |paths|));
  }

  lemma NextAfter(p: string, end: nat, begin: nat, size: nat, more: seq<string>)
    requires InPlace(p, begin, size) && end <= begin && Gap(p, end, begin)
    ensures SegmentsFrom(p, end) + more == [p[begin..begin + size]] + (SegmentsFrom(p, begin + size) + more)
  {
    SkipGap(p, end, begin);
    HereFirst(p, begin, size);
    Joins(p[begin..begin + size], SegmentsFrom(p, begin + size), more);
  }

  lemma BeforeInPath(paths: seq<string>, c: Cursor, d: Cursor)
    requires Points(paths, c) && Points(paths, d) && c.index == d.index
    requires var p := paths[c.index]; Segments(p[..d.begin]) == Segments(p[..c.begin]) + [Current(paths, c)]
    ensures Before(paths, d) == Before(paths, c) + [Current(paths, c)]
  {
    Moved(Stretch(paths, 0, c.index), Segments(paths[c.index][..c.begin]), Current(paths, c));
  }

  lemma Moved(a: seq<string>, b: seq<string>, x: string)
    ensures a + (b + [x]) == (a + b) + [x]
  { }

  lemma Joins(x: string, a: seq<string>, b: seq<string>)
    ensures ([x] + a) + b == [x] + (a + b)
  { }

  lemma HereFirst(p: string, begin: nat, size: nat)
    requires InPlace(p, begin, size)
    ensures SegmentsFrom(p, begin) == [p[begin..begin + size]] + SegmentsFrom(p, begin + size)
  {
    StopAt(p, begin, begin + size);
    SegmentsAt(p, begin, begin);
  }

  /** Between the paths of two cursors there is nothing. */
  lemma FollowsInNextPath(paths: seq<string>, c: Cursor, d: Cursor)
    requires On(paths, c) && On(paths, d) && c.index < d.index
    requires SegmentsFrom(paths[c.index], c.begin + c.size) == [] && Stretch(paths, c.index + 1, d.index) == []
    requires Segments(paths[d.index][..d.begin]) == []
    ensures Follows(paths, c, d)
  {
    LastSplits(paths[c.index], c.begin, c.size);
    FirstSplits(paths[d.index], d.begin, d.size);
    BeforeNextPath(paths, c, d);
    AfterNextPath(paths, c, d);
  }

  lemma BeforeNextPath(paths: seq<string>, c: Cursor, d: Cursor)
    requires Points(paths, c) && Points(paths, d) && c.index < d.index && Stretch(paths, c.index + 1, d.index) == []
    requires var p := paths[c.index]; Segments(p) == Segments(p[..c.begin]) + [Current(paths, c)]
    requires Segments(paths[d.index][..d.begin]) == []
    ensures Before(paths, d) == Before(paths, c) + [Current(paths, c)]
  {
    AllNext(paths, 0, c.index);
    AllParts(paths, 0, c.index + 1, d.index);
    Moved(Stretch(paths, 0, c.index), Segments(paths[c.index][..c.begin]), Current(paths, c));
  }

  lemma AfterNextPath(paths: seq<string>, c: Cursor, d: Cursor)
    requires Points(paths, c) && Points(paths, d) && c.index < d.index && Stretch(paths, c.index + 1, d.index) == []
    requires var q := paths[d.index]; Segments(q) == [Current(paths, d)] + SegmentsFrom(q, d.begin + d.size)
    requires SegmentsFrom(paths[c.index], c.begin + c.size) == []
    ensures After(paths, c) == [Current(paths, d)] + After(paths, d)
  {
    var q, n := paths[d.index], |paths|;
    AllPrevious(paths, d.index, n);
    AllParts(paths, c.index + 1, d.index, n);
    Leaves(SegmentsFrom(paths[c.index], c.begin + c.size), Stretch(paths, c.index + 1, d.index), Segments(q),
           Current(paths, d), SegmentsFrom(q, d.begin + d.size), Stretch(paths, d.index + 1, n));
  }

  lemma Leaves(
    none: seq<string>, nothing: seq<string>, s: seq<string>, x: string, a: seq<string>, b: seq<string>)
    requires none == [] && nothing == [] && s == [x] + a
    ensures none + (nothing + (s + b)) == [x] + (a + b)
  {
    Joins(x, a, b);
  }

  lemma FirstSplits(p: string, begin: nat, size: nat)
    requires InPlace(p, begin, size) && Segments(p[..begin]) == []
    ensures Segments(p) == [p[begin..begin + size]] + SegmentsFrom(p, begin + size)
  {
    SegmentsSplit(p, 0, begin, size);
  }

  lemma LastSplits(p: string, begin: nat, size: nat)
    requires InPlace(p, begin, size) && SegmentsFrom(p, begin + size) == []
    ensures Segments(p) == Segments(p[..begin]) + [p[begin..begin + size]]
  {
    SegmentsSplit(p, 0, begin, size);
  }

  /** cwk_path_get_first_segment_joined. */
  method FirstJoined(paths: seq<string>) returns (found: bool, c: Cursor)
    ensures found <==> All(paths) != []
    ensures found ==> On(paths, c) && Before(paths, c) == []
  {
    c := Cursor(0, 0, 0, 0);
    var index := 0;
    while index < |paths|
      invariant 0 <= index <= |paths| && Stretch(paths, 0, index) == []
    {
      var p := paths[index];
      var low := if IsAbsolute(p) then 1 else 0;
      var begin, size;
      found, begin, size := FirstSegment(p);
      AllNext(paths, 0, index);
      if found {
        ScannedInPlace(p, 0, begin, size);
        FirstBefore(p, begin);
        c := Cursor(index, low, begin, size);
        CursorSplits(paths, c);
        return;
      }
      index := index + 1;
    }
    found := false;
  }

  /** cwk_path_get_next_segment_joined. */
  method NextJoined(paths: seq<string>, c: Cursor) returns (found: bool, d: Cursor)
    requires On(paths, c)
    ensures found <==> After(paths, c) != []
    ensures found ==> Follows(paths, c, d)
  {
    var begin, size;
    found, begin, size := NextSegment(paths[c.index], c.begin, c.size);
    if found {
      d := c.(begin := begin, size := size);
      ScannedInPlace(paths[c.index], c.begin + c.size, begin, size);
      FollowsInPath(paths, c, d);
      return;
    }
    found, d := NextPath(paths, c);
  }

  method NextPath(paths: seq<string>, c: Cursor) returns (found: bool, d: Cursor)
    requires On(paths, c) && SegmentsFrom(paths[c.index], c.begin + c.size) == []
    ensures found <==> After(paths, c) != []
    ensures found ==> Follows(paths, c, d)
  {
    var index, begin, size;
    found, index, begin, size := NextWithSegment(paths, c.index + 1);
    d := Cursor(index, 0, begin, size);
    if found {
      FirstOfPath(paths, c, d);
    }
  }

  /** The loop to the next path that has a segment. */
  method NextWithSegment(paths: seq<string>, from: nat) returns (found: bool, index: nat, begin: nat, size: nat)
    requires from <= |paths|
    ensures found <==> Stretch(paths, from, |paths|) != []
    ensures found ==> from <= index < |paths| && Stretch(paths, from, index) == []
    ensures found ==> var p := paths[index]; begin == Skip(p, 0) < |p| && begin + size == Stop(p, begin)
  {
    found, index, begin, size := false, from, 0, 0;
    while index < |paths|
      invariant from <= index <= |paths| && Stretch(paths, from, index) == [] && !found
    {
      found, begin, size := FirstWithoutRoot(paths[index], 0);
      if found {
        AllParts(paths, from, index, |paths|);
        AllPrevious(paths, index, |paths|);
        return;
      }
      AllNext(paths, from, index);
      index := index + 1;
    }
  }

  lemma FirstOfPath(paths: seq<string>, c: Cursor, d: Cursor)
    requires On(paths, c) && c.index < d.index < |paths| && d.low == 0
    requires SegmentsFrom(paths[c.index], c.begin + c.size) == [] && Stretch(paths, c.index + 1, d.index) == []
    requires var p := paths[d.index]; d.begin == Skip(p, 0) < |p| && d.begin + d.size == Stop(p, d.begin)
    ensures Follows(paths, c, d) && After(paths, c) != []
  {
    ScannedInPlace(paths[d.index], 0, d.begin, d.size);
    FirstBefore(paths[d.index], d.begin);
    FollowsInNextPath(paths, c, d);
  }

  /** cwk_path_get_previous_segment_joined. */
  method PreviousJoined(paths: seq<string>, c: Cursor) returns (found: bool, d: Cursor)
    requires On(paths, c)
    ensures found <==> Before(paths, c) != []
    ensures found ==> On(paths, d) && Follows(paths, d, c)
  {
    var begin, size;
    found, begin, size := PreviousSegment(paths[c.index], c.low, c.begin, c.size);
    if found {
      d := c.(begin := begin, size := size);
      FollowsInPath(paths, d, c);
      return;
    }
    found, d := PreviousPath(paths, c);
  }

  method PreviousPath(paths: seq<string>, c: Cursor) returns (found: bool, d: Cursor)
    requires On(paths, c) && Segments(paths[c.index][..c.begin]) == []
    ensures found <==> Before(paths, c) != []
    ensures found ==> On(paths, d) && Follows(paths, d, c)
  {
    d := c;
    var index := c.index;
    while index > 0
      invariant 0 <= index <= c.index && Stretch(paths, index, c.index) == []
    {
      index := index - 1;
      var p := paths[index];
      var low := if index == 0 && IsAbsolute(p) then 1 else 0;
      var begin, size;
      found, begin, size := LastSegment(p, low);
      if found {
        d := Cursor(index, low, begin, size);
        FollowsInNextPath(paths, d, c);
        return;
      }
      AllPrevious(paths, index, c.index);
    }
    found := false;
  }

  // ---------------------------------------------------------------------
  // Which segments are dropped
  // ---------------------------------------------------------------------

  /** cwk_path_segment_back_will_be_removed: looks back for a name that no ".." has taken. */
  method BackWillBeRemoved(paths: seq<string>, start: Cursor) returns (removed: bool)
    requires On(paths, start)
    ensures removed <==> Height(0, Before(paths, start)) > 0
  {
    var counter := 0;
    var found, c := PreviousJoined(paths, start);
    ghost var left := Before(paths, start);
    while found
      invariant found ==> On(paths, c) && left == Before(paths, c) + [Current(paths, c)]
      invariant !found ==> left == []
      invariant counter <= 0 && (Height(0, Before(paths, start)) > 0 <==> Height(0, left) > -counter)
      decreases |left|, found
    {
      left := Before(paths, c);
      HeightStep(0, left, Current(paths, c));
      var kind := KindOf(Current(paths, c));
      if kind == Normal {
        counter := counter + 1;
        if counter > 0 {
          return true;
        }
      } else if kind == Back {
        counter := counter - 1;
      }
      found, c := PreviousJoined(paths, c);
    }
    removed := false;
  }

  /** cwk_path_segment_normal_will_be_removed: looks ahead for a ".." that takes this segment. */
  method NormalWillBeRemoved(paths: seq<string>, start: Cursor) returns (removed: bool)
    requires On(paths, start)
    ensures removed <==> Pending(After(paths, start)) > 0
  {
    var counter := 0;
    var found, c := NextJoined(paths, start);
    ghost var left := After(paths, start);
    while found
      invariant found ==> On(paths, c) && left == [Current(paths, c)] + After(paths, c)
      invariant !found ==> left == []
      invariant counter >= 0 && (Pending(After(paths, start)) > 0 <==> Pending(left) > counter)
      decreases |left|, found
    {
      assert left[1..] == After(paths, c);
      left := After(paths, c);
      var kind := KindOf(Current(paths, c));
      if kind == Normal {
        counter := counter + 1;
      } else if kind == Back {
        counter := counter - 1;
        if counter < 0 {
          return true;
        }
      }
      found, c := NextJoined(paths, c);
    }
    removed := false;
  }

  /** cwk_path_segment_will_be_removed: just the segments that the stack drops. */
  method WillBeRemoved(paths: seq<string>, c: Cursor, absolute: bool) returns (removed: bool)
    requires On(paths, c)
    ensures |Before(paths, c)| < |All(paths)|
    ensures !removed <==> Stays(All(paths), |Before(paths, c)|, absolute)
  {
    CursorIndex(paths, c);
    var kind := KindOf(Current(paths, c));
    if kind == Kind.Current || (kind == Back && absolute) {
      removed := true;
    } else if kind == Back {
      removed := BackWillBeRemoved(paths, c);
    } else {
      removed := NormalWillBeRemoved(paths, c);
    }
  }

  /** A cursor as an index into the list of all segments. */
  lemma CursorIndex(paths: seq<string>, c: Cursor)
    requires On(paths, c)
    ensures var segs, i := All(paths), |Before(paths, c)|;
            i < |segs| && segs[..i] == Before(paths, c) && segs[i] == Current(paths, c) &&
            segs[i + 1..] == After(paths, c)
  {
    CursorSplits(paths, c);
  }

  // ---------------------------------------------------------------------
  // Writing
  // ---------------------------------------------------------------------

  const NUL: char := '\0'

  /** As much of the text as leaves room for a terminator, the terminator, and the rest as it was. */
  ghost predicate Ends(now: seq<char>, size: nat, text: string, before: seq<char>)
    requires size <= |before|
  {
    |now| == |before| &&
    if size == 0 then now == before else
      var n := if |text| < size then |text| else size - 1;
      now[..n] == text[..n] && now[n] == 0 as char && now[n + 1..] == before[n + 1..]
  }

  /** cwk_path_output_sized. */
  method OutputSized(
    buffer: array<char>, size: nat, pos: nat, str: string, ghost text: string, ghost before: seq<char>)
    returns (length: nat)
    requires size <= buffer.Length && pos == |text| && Shows(buffer[..], size, text, before)
    modifies buffer
    ensures length == |str| && Shows(buffer[..], size, text + str, before)
  {
    length := |str|;
    var amount := if size > pos + length then length else if size > pos then size - pos else 0;
    forall i | 0 <= i < amount {
      buffer[pos + i] := str[i];
    }
  }

  /** cwk_path_terminate_output. */
  method TerminateOutput(buffer: array<char>, size: nat, pos: nat, ghost text: string, ghost before: seq<char>)
    requires size <= buffer.Length && pos == |text| && Shows(buffer[..], size, text, before)
    modifies buffer
    ensures Ends(buffer[..], size, text, before)
  {
    if size > 0 {
      if pos >= size {
        buffer[size - 1] := NUL;
      } else {
        buffer[pos] := NUL;
      }
    }
  }

  /** A separator if something was written before, and the segment. */
  method OutputSegment(
    buffer: array<char>, size: nat, pos: nat, segment: string, hasOutput: bool,
    ghost text: string, ghost before: seq<char>)
    returns (next: nat)
    requires size <= buffer.Length && pos == |text| && Shows(buffer[..], size, text, before)
    modifies buffer
    ensures var t := text + (if hasOutput then "/" else "") + segment;
            next == |t| && Shows(buffer[..], size, t, before)
  {
    next := pos;
    ghost var t := text;
    if hasOutput {
      var length := OutputSized(buffer, size, next, "/", t, before);
      next := next + length;
      t := t + "/";
    }
    assert t == text + if hasOutput then "/" else "";
    var length := OutputSized(buffer, size, next, segment, t, before);
    next := next + length;
  }

  /** What the paths, joined, are in normal form. */
  function NormalOf(paths: seq<string>): string
    requires paths != []
  {
    NormalForm(All(paths), IsAbsolute(paths[0]))
  }

  /**
   cwk_path_join_and_normalize_multiple: the counters keep exactly what the stack keeps, and of
   the result as much is written as fits, with a terminator.
   */
  method JoinAndNormalize(paths: seq<string>, buffer: array<char>, size: nat) returns (pos: nat)
    requires paths != [] && size <= buffer.Length
    modifies buffer
    ensures pos == |NormalOf(paths)| && Ends(buffer[..], size, NormalOf(paths), old(buffer[..]))
  {
    ghost var before := buffer[..];
    var absolute := IsAbsolute(paths[0]);
    ghost var root := Render(absolute, []);
    pos := OutputSized(buffer, size, 0, if absolute then "/" else "", "", before);
    assert "" + root == root;
    var found, c := FirstJoined(paths);
    NoSegments(paths);
    if found {
      pos := OutputRest(buffer, size, pos, paths, c, before);
    }
    TerminateOutput(buffer, size, pos, NormalOf(paths), before);
  }

  lemma NoSegments(paths: seq<string>)
    requires paths != []
    ensures All(paths) == [] ==> NormalOf(paths) == Render(IsAbsolute(paths[0]), [])
  { }

  lemma SomeSegments(paths: seq<string>, kept: seq<string>)
    requires paths != [] && All(paths) != [] && kept == Resolve(All(paths), IsAbsolute(paths[0]))
    ensures NormalOf(paths) ==
            if kept == [] && !IsAbsolute(paths[0]) then "." else Render(IsAbsolute(paths[0]), kept)
    ensures kept == [] ==> (Render(IsAbsolute(paths[0]), kept) == "" <==> !IsAbsolute(paths[0]))
  { }

  /** The segments after the root, or a dot in place of nothing at all. */
  method OutputRest(
    buffer: array<char>, size: nat, start: nat, paths: seq<string>, first: Cursor, ghost before: seq<char>)
    returns (pos: nat)
    requires paths != [] && On(paths, first) && Before(paths, first) == [] && All(paths) != []
    requires var root := Render(IsAbsolute(paths[0]), []);
             size <= buffer.Length && start == |root| && Shows(buffer[..], size, root, before)
    modifies buffer
    ensures pos == |NormalOf(paths)| && Shows(buffer[..], size, NormalOf(paths), before)
  {
    var absolute := IsAbsolute(paths[0]);
    var hasOutput;
    ghost var written;
    pos, hasOutput, written :=
      OutputSegments(buffer, size, start, paths, first, absolute, Render(absolute, []), before);
    SomeSegments(paths, written);
    if !hasOutput && pos == 0 {
      var length := OutputSized(buffer, size, pos, ".", "", before);
      assert "" + "." == ".";
      pos := pos + length;
    }
  }

  /** The loop over the segments. */
  method OutputSegments(
    buffer: array<char>, size: nat, start: nat, paths: seq<string>, first: Cursor, absolute: bool,
    ghost root: string, ghost before: seq<char>)
    returns (pos: nat, hasOutput: bool, ghost written: seq<string>)
    requires On(paths, first) && Before(paths, first) == [] && root == Render(absolute, [])
    requires size <= buffer.Length && start == |root| && Shows(buffer[..], size, root, before)
    modifies buffer
    ensures written == Resolve(All(paths), absolute) && (hasOutput <==> written != [])
    ensures pos == |Render(absolute, written)| && Shows(buffer[..], size, Render(absolute, written), before)
  {
    ghost var segs, i := All(paths), 0;
    KeptEnds(segs, absolute);
    pos, hasOutput, written := start, false, [];
    var found, c := true, first;
    CursorIndex(paths, c);
    while found
      invariant found ==> On(paths, c) && i == |Before(paths, c)| < |segs| && segs[i] == Current(paths, c)
      invariant !found ==> i == |segs|
      invariant (hasOutput <==> written != []) && i <= |segs|
      invariant written + KeptFrom(segs, i, absolute) == Resolve(segs, absolute)
      invariant pos == |Render(absolute, written)| && Shows(buffer[..], size, Render(absolute, written), before)
      decreases |segs| - i, found
    {
      pos, hasOutput, written := OutputTurn(buffer, size, pos, paths, c, absolute, hasOutput, written, before);
      ghost var last := c;
      found, c := NextJoined(paths, c);
      Advanced(paths, last, found, c);
      i := i + 1;
    }
  }

  /** One turn of the loop: a segment that stays is written. */
  method OutputTurn(
    buffer: array<char>, size: nat, start: nat, paths: seq<string>, c: Cursor, absolute: bool, some: bool,
    ghost done: seq<string>, ghost before: seq<char>)
    returns (pos: nat, hasOutput: bool, ghost written: seq<string>)
    requires On(paths, c) && (some <==> done != []) && |Before(paths, c)| < |All(paths)|
    requires done + KeptFrom(All(paths), |Before(paths, c)|, absolute) == Resolve(All(paths), absolute)
    requires size <= buffer.Length && start == |Render(absolute, done)|
    requires Shows(buffer[..], size, Render(absolute, done), before)
    modifies buffer
    ensures hasOutput <==> written != []
    ensures written + KeptFrom(All(paths), |Before(paths, c)| + 1, absolute) == Resolve(All(paths), absolute)
    ensures pos == |Render(absolute, written)| && Shows(buffer[..], size, Render(absolute, written), before)
  {
    pos, hasOutput, written := start, some, done;
    CursorIndex(paths, c);
    WriteStep(All(paths), |Before(paths, c)|, absolute, done);
    var removed := WillBeRemoved(paths, c, absolute);
    if !removed {
      pos := OutputSegment(buffer, size, pos, Current(paths, c), hasOutput, Render(absolute, done), before);
      hasOutput := true;
      written := done + [Current(paths, c)];
    }
  }

  lemma Advanced(paths: seq<string>, c: Cursor, found: bool, d: Cursor)
    requires On(paths, c) && (found <==> After(paths, c) != []) && (found ==> Follows(paths, c, d))
    ensures var i := |Before(paths, c)| + 1;
            if found then |Before(paths, d)| == i < |All(paths)| && All(paths)[i] == Current(paths, d)
            else i == |All(paths)|
  {
    CursorIndex(paths, c);
    if found {
      CursorIndex(paths, d);
    }
  }

  // ---------------------------------------------------------------------
  // One path and two
  // ---------------------------------------------------------------------

  lemma NormalOfTwo(a: string, b: string)
    ensures NormalOf([a, b]) == Normal2(a, b)
  {
    var paths := [a, b];
    AllPrevious(paths, 0, 2);
    AllPrevious(paths, 1, 2);
    assert Segments(b) + Stretch(paths, 2, 2) == Segments(b);
  }

  lemma NormalOfOne(a: string)
    ensures NormalOf([a]) == Normal2(a, "")
  {
    AllPrevious([a], 0, 1);
    assert Segments(a) + Stretch([a], 1, 1) == Segments(a);
    assert Segments("") == [];
  }

  /** What a buffer that is long enough holds up to its terminator. */
  lemma EndsWhole(now: seq<char>, text: string, before: seq<char>)
    requires Ends(now, |before|, text, before) && |text| < |before|
    ensures now[..|text|] == text && now[|text|] == 0 as char
  { }

  /** cwk_path_join into a buffer of that many characters: two and as many as the paths have. */
  method Join(a: string, b: string) returns (r: string)
    ensures r == Normal2(a, b)
  {
    var buffer := new char[|a| + |b| + 2];
    ghost var before := buffer[..];
    var length := JoinAndNormalize([a, b], buffer, buffer.Length);
    NormalOfTwo(a, b);
    NormalFits(a, b);
    EndsWhole(buffer[..], Normal2(a, b), before);
    r := buffer[..length];
  }

  /** cwk_path_normalize into a buffer of two characters more than the path has. */
  method Normalize(a: string) returns (r: string)
    ensures r == Normal2(a, "")
  {
    var buffer := new char[|a| + 2];
    ghost var before := buffer[..];
    var length := JoinAndNormalize([a], buffer, buffer.Length);
    NormalOfOne(a);
    NormalFits(a, "");
    EndsWhole(buffer[..], Normal2(a, ""), before);
    r := buffer[..length];
  }
}
