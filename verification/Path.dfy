/**
 Path handling of the cwalk library as the virtual file system uses it, in its Unix style:
 a path is a root ("/" or nothing) and segments between separators. Joining and
 normalising decides segment by segment, with counters that look ahead or back, which
 segments disappear; the specification resolves "." and ".." with a stack.
 */
module Path {

  datatype Kind = Normal | Current | Back

  function KindOf(segment: string): Kind {
    if segment == "." then Current else if segment == ".." then Back else Normal
  }

  /** What the kinds of segments are. */
  lemma KindIs(s: string)
    ensures KindOf(s) == Normal <==> s != "." && s != ".."
    ensures KindOf(s) == Current ==> s == "."
    ensures KindOf(s) == Back ==> s == ".."
  { }

  /** No segment is "." or "..". */
  ghost predicate NoDots(segs: seq<string>) {
    "." !in segs && ".." !in segs
  }

  predicate IsAbsolute(path: string) {
    path != "" && path[0] == '/'
  }

  /** What a segment can be: not empty, and without a separator. */
  predicate IsSegment(s: string) {
    s != "" && '/' !in s
  }

  predicate AreSegments(segs: seq<string>) {
    forall i :: 0 <= i < |segs| ==> IsSegment(segs[i])
  }

  // ---------------------------------------------------------------------
  // Segments of a path
  // ---------------------------------------------------------------------

  function Skip(p: string, i: nat): (b: nat)
    requires i <= |p|
    ensures i <= b <= |p|
    decreases |p| - i
  {
    if i < |p| && p[i] == '/' then Skip(p, i + 1) else i
  }

  function Stop(p: string, i: nat): (e: nat)
    requires i <= |p|
    ensures i <= e <= |p|
    decreases |p| - i
  {
    if i < |p| && p[i] != '/' then Stop(p, i + 1) else i
  }

  function SegmentsFrom(p: string, i: nat): seq<string>
    requires i <= |p|
    decreases |p| - i
  {
    var b := Skip(p, i);
    if b == |p| then [] else
      SkipStops(p, i);
      var e := Stop(p, b);
      [p[b..e]] + SegmentsFrom(p, e)
  }

  function Segments(p: string): seq<string> {
    SegmentsFrom(p, 0)
  }

  lemma {:induction false} SkipStops(p: string, i: nat)
    requires i <= |p|
    ensures Skip(p, i) < |p| ==> p[Skip(p, i)] != '/' && Skip(p, i) < Stop(p, Skip(p, i))
    decreases |p| - i
  {
    if i < |p| && p[i] == '/' {
      SkipStops(p, i + 1);
    }
  }

  lemma {:induction false} StopPlain(p: string, b: nat, k: nat)
    requires b <= |p| && b <= k < Stop(p, b)
    ensures p[k] != '/'
    decreases |p| - b
  {
    if b < k {
      StopPlain(p, b + 1, k);
    }
  }

  lemma {:induction false} SegmentsArePlain(p: string, i: nat)
    requires i <= |p|
    ensures AreSegments(SegmentsFrom(p, i))
    decreases |p| - i
  {
    SkipStops(p, i);
    var b := Skip(p, i);
    if b < |p| {
      var e := Stop(p, b);
      forall k | b <= k < e
        ensures p[k] != '/'
      {
        StopPlain(p, b, k);
      }
      SegmentsArePlain(p, e);
    }
  }

  lemma SegmentsAt(p: string, i: nat, b: nat)
    requires i <= |p| && Skip(p, i) == b < |p|
    ensures b < Stop(p, b)
    ensures |SegmentsFrom(p, i)| > 0
    ensures SegmentsFrom(p, i) == [p[b..Stop(p, b)]] + SegmentsFrom(p, Stop(p, b))
  {
    SkipStops(p, i);
  }

  /** cwk_path_get_first_segment: leaves out the root, then any further separators. */
  method FirstSegment(path: string) returns (found: bool, begin: nat, size: nat)
    ensures found <==> Segments(path) != []
    ensures found ==> 0 < size && begin + size <= |path|
    ensures found ==> begin + size < |path| ==> path[begin + size] == '/'
    ensures found ==> Segments(path) == [path[begin..begin + size]] + SegmentsFrom(path, begin + size)
    ensures if found then begin == Skip(path, 0) && begin + size == Stop(path, begin) else Skip(path, 0) == |path|
  {
    found, begin, size := FirstWithoutRoot(path, if IsAbsolute(path) then 1 else 0);
  }

  /** cwk_path_get_first_segment_without_root, from where the segments start. */
  method FirstWithoutRoot(path: string, low: nat) returns (found: bool, begin: nat, size: nat)
    requires low <= |path| && Skip(path, low) == Skip(path, 0)
    ensures found <==> Segments(path) != []
    ensures found ==> low <= begin && 0 < size && begin + size <= |path|
    ensures found ==> begin + size < |path| ==> path[begin + size] == '/'
    ensures found ==> Segments(path) == [path[begin..begin + size]] + SegmentsFrom(path, begin + size)
    ensures if found then begin == Skip(path, 0) && begin + size == Stop(path, begin) else Skip(path, 0) == |path|
  {
    var i := low;
    begin, size := i, 0;
    if i == |path| {
      return false, begin, size;
    }
    while i < |path| && path[i] == '/'
      invariant low <= i < |path| && Skip(path, i) == Skip(path, 0)
    {
      i := i + 1;
      if i == |path| {
        return false, begin, size;
      }
    }
    SegmentsAt(path, 0, i);
    begin := i;
    i := FindNextStop(path, i);
    StopIsSeparator(path, begin);
    size := i - begin;
    found := true;
  }

  method FindNextStop(path: string, from: nat) returns (i: nat)
    requires from <= |path|
    ensures i == Stop(path, from)
  {
    i := from;
    while i < |path| && path[i] != '/'
      invariant from <= i <= |path| && Stop(path, i) == Stop(path, from)
    {
      i := i + 1;
    }
  }

  /** cwk_path_get_next_segment, from the end of the segment before. */
  method NextSegment(path: string, begin: nat, size: nat) returns (found: bool, begin': nat, size': nat)
    requires begin + size <= |path|
    requires begin + size < |path| ==> path[begin + size] == '/'
    ensures found <==> SegmentsFrom(path, begin + size) != []
    ensures !found ==> begin' == begin && size' == size
    ensures found ==> begin + size < begin' && 0 < size' && begin' + size' <= |path|
    ensures found ==> begin' + size' < |path| ==> path[begin' + size'] == '/'
    ensures found ==> SegmentsFrom(path, begin + size) ==
                      [path[begin'..begin' + size']] + SegmentsFrom(path, begin' + size')
    ensures if found then begin' == Skip(path, begin + size) && begin' + size' == Stop(path, begin')
            else Skip(path, begin + size) == |path|
  {
    var c := begin + size;
    if c == |path| {
      return false, begin, size;
    }
    c := c + 1;
    while c < |path| && path[c] == '/'
      invariant begin + size < c <= |path| && Skip(path, c) == Skip(path, begin + size)
    {
      c := c + 1;
    }
    if c == |path| {
      return false, begin, size;
    }
    SkipStops(path, begin + size);
    begin' := c;
    c := FindNextStop(path, c);
    StopIsSeparator(path, begin');
    size' := c - begin';
    found := true;
  }

  lemma {:induction false} StopIsSeparator(p: string, b: nat)
    requires b <= |p|
    ensures Stop(p, b) < |p| ==> p[Stop(p, b)] == '/'
    decreases |p| - b
  {
    if b < |p| && p[b] != '/' {
      StopIsSeparator(p, b + 1);
    }
  }

  lemma {:induction false} SkipBelow(p: string, i: nat, b: nat)
    requires i <= b < |p| && p[b] != '/'
    ensures Skip(p, i) <= b
    decreases |p| - i
  {
    if p[i] == '/' {
      SkipBelow(p, i + 1, b);
    }
  }

  lemma {:induction false} SkipAll(p: string, i: nat)
    requires i <= |p| && forall k :: i <= k < |p| ==> p[k] == '/'
    ensures Skip(p, i) == |p|
    decreases |p| - i
  {
    if i < |p| {
      SkipAll(p, i + 1);
    }
  }

  lemma {:induction false} StopBelow(p: string, i: nat, b: nat)
    requires i <= b < |p| && p[b] == '/'
    ensures Stop(p, i) <= b
    decreases |p| - i
  {
    if p[i] != '/' {
      StopBelow(p, i + 1, b);
    }
  }

  lemma {:induction false} StopAt(p: string, i: nat, e: nat)
    requires i <= e <= |p| && (forall k :: i <= k < e ==> p[k] != '/') && (e < |p| ==> p[e] == '/')
    ensures Stop(p, i) == e
    decreases |p| - i
  {
    if i < e {
      StopAt(p, i + 1, e);
    }
  }

  lemma {:induction false} SkipCut(p: string, b: nat, i: nat)
    requires i <= b <= |p|
    ensures Skip(p[..b], i) == if Skip(p, i) < b then Skip(p, i) else b
    decreases |p| - i
  {
    if i < b && p[i] == '/' {
      SkipCut(p, b, i + 1);
    }
  }

  lemma {:induction false} StopCut(p: string, b: nat, i: nat)
    requires i <= b <= |p|
    ensures Stop(p[..b], i) == if Stop(p, i) < b then Stop(p, i) else b
    decreases |p| - i
  {
    if i < b && p[i] != '/' {
      StopCut(p, b, i + 1);
    }
  }

  // ---------------------------------------------------------------------
  // Writing segments
  // ---------------------------------------------------------------------

  function Joined(segs: seq<string>): string {
    if segs == [] then "" else if |segs| == 1 then segs[0] else segs[0] + "/" + Joined(segs[1..])
  }

  function Render(absolute: bool, segs: seq<string>): string {
    (if absolute then "/" else "") + Joined(segs)
  }

  /** `t` is `s` after `n` other characters. */
  ghost predicate Shifted(n: nat, s: string, t: string) {
    |t| == n + |s| && forall k {:trigger s[k]} :: 0 <= k < |s| ==> t[n + k] == s[k]
  }

  lemma {:induction false} SegmentsShift(n: nat, s: string, t: string, i: nat)
    requires Shifted(n, s, t) && i <= |s|
    ensures SegmentsFrom(t, n + i) == SegmentsFrom(s, i)
    decreases |s| - i
  {
    SkipShift(n, s, t, i);
    var b := Skip(s, i);
    if b < |s| {
      StopShift(n, s, t, b);
      var e := Stop(s, b);
      SegmentsAt(s, i, b);
      SegmentsAt(t, n + i, n + b);
      SegmentsShift(n, s, t, e);
      SliceShift(n, s, t, b, e);
    }
  }

  lemma SliceShift(n: nat, s: string, t: string, b: nat, e: nat)
    requires Shifted(n, s, t) && b <= e <= |s|
    ensures t[n + b..n + e] == s[b..e]
  { }

  lemma {:induction false} SkipShift(n: nat, s: string, t: string, i: nat)
    requires Shifted(n, s, t) && i <= |s|
    ensures Skip(t, n + i) == n + Skip(s, i)
    decreases |s| - i
  {
    if i < |s| && s[i] == '/' {
      SkipShift(n, s, t, i + 1);
    }
  }

  lemma {:induction false} StopShift(n: nat, s: string, t: string, i: nat)
    requires Shifted(n, s, t) && i <= |s|
    ensures Stop(t, n + i) == n + Stop(s, i)
    decreases |s| - i
  {
    if i < |s| && s[i] != '/' {
      StopShift(n, s, t, i + 1);
    }
  }

  lemma {:induction false} StopAfter(x: string, s: string, i: nat)
    requires i <= |x| && '/' !in x && IsAbsolute(s)
    ensures Stop(x + s, i) == |x|
    decreases |x| - i
  {
    if i < |x| {
      assert (x + s)[i] == x[i];
      StopAfter(x, s, i + 1);
    }
  }

  lemma {:induction false} StopWhole(x: string, i: nat)
    requires i <= |x| && '/' !in x
    ensures Stop(x, i) == |x|
    decreases |x| - i
  {
    if i < |x| {
      StopWhole(x, i + 1);
    }
  }

  /** A segment, then a separator, in front of a text. */
  lemma SegmentsCons(x: string, s: string)
    requires IsSegment(x) && IsAbsolute(s)
    ensures Segments(x + s) == [x] + Segments(s)
  {
    assert (x + s)[0] == x[0];
    StopAfter(x, s, 0);
    assert (x + s)[0..|x|] == x;
    SegmentsShift(|x|, s, x + s, 0);
  }

  lemma SegmentsRoot(s: string)
    ensures Segments("/" + s) == Segments(s)
  {
    SegmentsShift(1, s, "/" + s, 0);
    assert Skip("/" + s, 0) == Skip("/" + s, 1);
  }

  lemma OneSegment(x: string)
    requires IsSegment(x)
    ensures Segments(x) == [x]
  {
    StopWhole(x, 0);
    assert x[0] in x;
    SegmentsAt(x, 0, 0);
    assert x[0..|x|] == x;
    assert SegmentsFrom(x, |x|) == [];
  }

  /** Splitting what was written gives the segments back. */
  lemma {:induction false} SegmentsJoined(segs: seq<string>)
    requires AreSegments(segs)
    ensures Segments(Joined(segs)) == segs
  {
    if |segs| == 1 {
      OneSegment(segs[0]);
    } else if segs != [] {
      var rest := Joined(segs[1..]);
      SegmentsJoined(segs[1..]);
      SegmentsRoot(rest);
      SegmentsCons(segs[0], "/" + rest);
      assert Joined(segs) == segs[0] + ("/" + rest);
    }
  }

  lemma SegmentsRendered(absolute: bool, segs: seq<string>)
    requires AreSegments(segs)
    ensures Segments(Render(absolute, segs)) == segs
    ensures IsAbsolute(Render(absolute, segs)) == absolute
  {
    SegmentsJoined(segs);
    if absolute {
      SegmentsRoot(Joined(segs));
    } else {
      assert "" + Joined(segs) == Joined(segs);
      if segs != [] {
        assert Joined(segs)[0] == segs[0][0];
      }
    }
  }

  // ---------------------------------------------------------------------
  // Resolving segments with a stack
  // ---------------------------------------------------------------------

  /**
   The stack is `ups` (the leading ".." that nothing could take away) under `names`. A root
   has nothing above it.
   */
  function Resolved(ups: seq<string>, names: seq<string>, segs: seq<string>, absolute: bool): seq<string>
    decreases segs
  {
    if segs == [] then ups + names else
      match KindOf(segs[0])
      case Current => Resolved(ups, names, segs[1..], absolute)
      case Normal => Resolved(ups, names + [segs[0]], segs[1..], absolute)
      case Back =>
        if names != [] then Resolved(ups, names[..|names| - 1], segs[1..], absolute)
        else if absolute then Resolved(ups, names, segs[1..], absolute)
        else Resolved(ups + [segs[0]], names, segs[1..], absolute)
  }

  function Resolve(segs: seq<string>, absolute: bool): seq<string> {
    Resolved([], [], segs, absolute)
  }

  function NormalForm(segs: seq<string>, absolute: bool): string {
    var kept := Resolve(segs, absolute);
    if segs != [] && kept == [] && !absolute then "." else Render(absolute, kept)
  }

  /** The normal form of one path after another, as a text. */
  function Normal2(a: string, b: string): string {
    NormalForm(Segments(a) + Segments(b), IsAbsolute(a))
  }

  // ---------------------------------------------------------------------
  // Deciding with counters
  // ---------------------------------------------------------------------

  /** How many ".." of these segments are left over for what stands before them. */
  function Pending(segs: seq<string>): nat {
    if segs == [] then 0 else
      var p := Pending(segs[1..]);
      match KindOf(segs[0])
      case Current => p
      case Normal => if p > 0 then p - 1 else 0
      case Back => p + 1
  }

  /** How many names these segments leave, starting from `h`. */
  function Height(h: nat, segs: seq<string>): nat
    decreases segs
  {
    if segs == [] then h else
      match KindOf(segs[0])
      case Current => Height(h, segs[1..])
      case Normal => Height(h + 1, segs[1..])
      case Back => Height(if h > 0 then h - 1 else 0, segs[1..])
  }

  /** The segments that stay, when `h` names stand before them. */
  function Kept(h: nat, segs: seq<string>, absolute: bool): seq<string>
    decreases segs
  {
    if segs == [] then [] else
      match KindOf(segs[0])
      case Current => Kept(h, segs[1..], absolute)
      case Normal => (if Pending(segs[1..]) == 0 then [segs[0]] else []) + Kept(h + 1, segs[1..], absolute)
      case Back =>
        if h > 0 then Kept(h - 1, segs[1..], absolute)
        else (if absolute then [] else [segs[0]]) + Kept(0, segs[1..], absolute)
  }

  /** The names left when the last `p` are taken away. */
  function Cut(names: seq<string>, p: nat): seq<string> {
    if p <= |names| then names[..|names| - p] else []
  }

  lemma CutName(names: seq<string>, s: string, p: nat)
    ensures p > 0 ==> Cut(names + [s], p) == Cut(names, p - 1)
    ensures Cut(names + [s], 0) == Cut(names, 0) + [s]
  { }

  /** What a stack and the segments after it leave. */
  function Left(names: seq<string>, segs: seq<string>, absolute: bool): seq<string> {
    Cut(names, Pending(segs)) + Kept(|names|, segs, absolute)
  }

  lemma LeftName(names: seq<string>, segs: seq<string>, absolute: bool)
    requires segs != [] && KindOf(segs[0]) == Normal
    ensures Left(names, segs, absolute) == Left(names + [segs[0]], segs[1..], absolute)
  {
    var s, p, k := segs[0], Pending(segs[1..]), Kept(|names| + 1, segs[1..], absolute);
    CutName(names, s, p);
    Regroup(Cut(names, 0), s, k);
    assert Kept(|names|, segs, absolute) == (if p == 0 then [s] else []) + k;
  }

  lemma LeftBack(names: seq<string>, segs: seq<string>, absolute: bool)
    requires segs != [] && KindOf(segs[0]) == Back && names != []
    ensures Left(names, segs, absolute) == Left(names[..|names| - 1], segs[1..], absolute)
  { }

  lemma LeftUp(segs: seq<string>, absolute: bool)
    requires segs != [] && KindOf(segs[0]) == Back
    ensures Left([], segs, absolute) == (if absolute then [] else [segs[0]]) + Left([], segs[1..], absolute)
  { }

  lemma LeftCurrent(names: seq<string>, segs: seq<string>, absolute: bool)
    requires segs != [] && KindOf(segs[0]) == Current
    ensures Left(names, segs, absolute) == Left(names, segs[1..], absolute)
  { }

  /** What the stack loses is what the segments leave pending; what stays of them is `Kept`. */
  lemma {:induction false} ResolvedIsLeft(ups: seq<string>, names: seq<string>, segs: seq<string>, absolute: bool)
    ensures Resolved(ups, names, segs, absolute) == ups + Left(names, segs, absolute)
    decreases segs
  {
    if segs != [] {
      var s, rest := segs[0], segs[1..];
      match KindOf(s)
      case Current =>
        LeftCurrent(names, segs, absolute);
        ResolvedIsLeft(ups, names, rest, absolute);
      case Normal =>
        LeftName(names, segs, absolute);
        ResolvedIsLeft(ups, names + [s], rest, absolute);
      case Back =>
        if names != [] {
          LeftBack(names, segs, absolute);
          ResolvedIsLeft(ups, names[..|names| - 1], rest, absolute);
        } else {
          LeftUp(segs, absolute);
          Regroup(ups, s, Left([], rest, absolute));
          ResolvedIsLeft(if absolute then ups else ups + [s], [], rest, absolute);
        }
    }
  }

  lemma Regroup(a: seq<string>, s: string, b: seq<string>)
    ensures (a + [s]) + b == a + ([s] + b)
    ensures [] + b == b && a + [] == a
  { }

  lemma {:induction false} HeightStep(h: nat, segs: seq<string>, s: string)
    ensures Height(h, segs + [s]) == Height(Height(h, segs), [s])
    decreases segs
  {
    if segs == [] {
      assert segs + [s] == [s];
    } else {
      assert (segs + [s])[1..] == segs[1..] + [s];
      match KindOf(segs[0])
      case Current => HeightStep(h, segs[1..], s);
      case Normal => HeightStep(h + 1, segs[1..], s);
      case Back => HeightStep(if h > 0 then h - 1 else 0, segs[1..], s);
    }
  }

  ghost predicate Stays(segs: seq<string>, index: nat, absolute: bool)
    requires index < |segs|
  {
    match KindOf(segs[index])
    case Current => false
    case Back => !absolute && Height(0, segs[..index]) == 0
    case Normal => Pending(segs[index + 1..]) == 0
  }

  /** The segments that stay from index `i` on. */
  ghost function KeptFrom(segs: seq<string>, i: nat, absolute: bool): seq<string>
    requires i <= |segs|
  {
    Kept(Height(0, segs[..i]), segs[i..], absolute)
  }

  lemma KeptStep(segs: seq<string>, i: nat, absolute: bool)
    requires i < |segs|
    ensures KeptFrom(segs, i, absolute) ==
            (if Stays(segs, i, absolute) then [segs[i]] else []) + KeptFrom(segs, i + 1, absolute)
  {
    assert segs[..i + 1] == segs[..i] + [segs[i]];
    HeightStep(0, segs[..i], segs[i]);
    assert segs[i..][1..] == segs[i + 1..];
  }

  lemma KeptEnds(segs: seq<string>, absolute: bool)
    ensures KeptFrom(segs, 0, absolute) == Resolve(segs, absolute)
    ensures KeptFrom(segs, |segs|, absolute) == []
  {
    assert segs[..0] == [] && segs[0..] == segs;
    ResolvedIsLeft([], [], segs, absolute);
    Regroup([], "", Kept(0, segs, absolute));
  }

  /** Writing one more segment. */
  lemma WriteStep(segs: seq<string>, i: nat, absolute: bool, written: seq<string>)
    requires i < |segs| && written + KeptFrom(segs, i, absolute) == Resolve(segs, absolute)
    ensures !Stays(segs, i, absolute) ==> written + KeptFrom(segs, i + 1, absolute) == Resolve(segs, absolute)
    ensures Stays(segs, i, absolute) ==>
              (written + [segs[i]]) + KeptFrom(segs, i + 1, absolute) == Resolve(segs, absolute)
    ensures Render(absolute, written + [segs[i]]) ==
            Render(absolute, written) + (if written == [] then "" else "/") + segs[i]
  {
    KeptStep(segs, i, absolute);
    Regroup(written, segs[i], KeptFrom(segs, i + 1, absolute));
    JoinedSnoc(written, segs[i]);
  }

  lemma {:induction false} JoinedSnoc(segs: seq<string>, s: string)
    ensures Joined(segs + [s]) == Joined(segs) + (if segs == [] then "" else "/") + s
  {
    if segs != [] {
      assert (segs + [s])[1..] == segs[1..] + [s];
      JoinedSnoc(segs[1..], s);
    }
  }

  // ---------------------------------------------------------------------
  // Normal forms
  // ---------------------------------------------------------------------

  ghost predicate AllOf(kind: Kind, segs: seq<string>) {
    forall i :: 0 <= i < |segs| ==> KindOf(segs[i]) == kind
  }

  lemma NoDotsIs(segs: seq<string>)
    ensures NoDots(segs) <==> AllOf(Normal, segs)
  {
    forall i | 0 <= i < |segs|
      ensures KindOf(segs[i]) == Normal <==> segs[i] != "." && segs[i] != ".."
    {
      KindIs(segs[i]);
    }
  }

  /** A stack that resolving can leave. */
  ghost predicate IsStack(ups: seq<string>, names: seq<string>, absolute: bool) {
    AllOf(Back, ups) && AllOf(Normal, names) && (absolute ==> ups == [])
  }

  /** Resolving can stop anywhere: the stack is all that counts afterwards. */
  lemma {:induction false} ResolvedAppend(
    ups: seq<string>, names: seq<string>, a: seq<string>, b: seq<string>, absolute: bool)
    returns (u: seq<string>, n: seq<string>)
    requires IsStack(ups, names, absolute)
    ensures IsStack(u, n, absolute)
    ensures Resolved(ups, names, a, absolute) == u + n
    ensures Resolved(ups, names, a + b, absolute) == Resolved(u, n, b, absolute)
    decreases a
  {
    if a == [] {
      assert a + b == b;
      u, n := ups, names;
    } else {
      assert (a + b)[1..] == a[1..] + b;
      match KindOf(a[0])
      case Current =>
        u, n := ResolvedAppend(ups, names, a[1..], b, absolute);
      case Normal =>
        u, n := ResolvedAppend(ups, names + [a[0]], a[1..], b, absolute);
      case Back =>
        if names != [] {
          u, n := ResolvedAppend(ups, names[..|names| - 1], a[1..], b, absolute);
        } else {
          u, n := ResolvedAppend(if absolute then ups else ups + [a[0]], names, a[1..], b, absolute);
        }
    }
  }

  lemma {:induction false} ResolvedNames(
    ups: seq<string>, names: seq<string>, more: seq<string>, b: seq<string>, absolute: bool)
    requires AllOf(Normal, more)
    ensures Resolved(ups, names, more + b, absolute) == Resolved(ups, names + more, b, absolute)
    decreases more
  {
    if more == [] {
      assert more + b == b && names + more == names;
    } else {
      assert (more + b)[1..] == more[1..] + b;
      assert names + [more[0]] + more[1..] == names + more;
      ResolvedNames(ups, names + [more[0]], more[1..], b, absolute);
    }
  }

  lemma {:induction false} ResolvedUps(ups: seq<string>, more: seq<string>, b: seq<string>)
    requires AllOf(Back, more)
    ensures Resolved(ups, [], more + b, false) == Resolved(ups + more, [], b, false)
    decreases more
  {
    if more == [] {
      assert more + b == b && ups + more == ups;
    } else {
      assert (more + b)[1..] == more[1..] + b;
      assert ups + [more[0]] + more[1..] == ups + more;
      ResolvedUps(ups + [more[0]], more[1..], b);
    }
  }

  /** Pushing a stack again rebuilds it. */
  lemma ResolvedStack(u: seq<string>, n: seq<string>, b: seq<string>, absolute: bool)
    requires IsStack(u, n, absolute)
    ensures Resolve(u + n + b, absolute) == Resolved(u, n, b, absolute)
  {
    assert u + n + b == u + (n + b);
    if absolute {
      assert u + (n + b) == n + b;
    } else {
      ResolvedUps([], u, n + b);
      assert [] + u == u;
    }
    ResolvedNames(u, [], n, b, absolute);
    assert [] + n == n;
  }

  /** Resolving a part first changes nothing. */
  lemma ResolveFirst(a: seq<string>, b: seq<string>, absolute: bool)
    ensures Resolve(Resolve(a, absolute) + b, absolute) == Resolve(a + b, absolute)
  {
    var u, n := ResolvedAppend([], [], a, b, absolute);
    ResolvedStack(u, n, b, absolute);
  }

  /** A rooted path resolves to names only. */
  lemma ResolvedAbsolute(segs: seq<string>)
    ensures AllOf(Normal, Resolve(segs, true))
  {
    var u, n := ResolvedAppend([], [], segs, [], true);
    assert u + n == n;
  }

  lemma {:induction false} ResolvedSegments(ups: seq<string>, names: seq<string>, segs: seq<string>, absolute: bool)
    requires AreSegments(ups) && AreSegments(names) && AreSegments(segs)
    ensures AreSegments(Resolved(ups, names, segs, absolute))
    decreases segs
  {
    if segs != [] {
      match KindOf(segs[0])
      case Current =>
        ResolvedSegments(ups, names, segs[1..], absolute);
      case Normal =>
        ResolvedSegments(ups, names + [segs[0]], segs[1..], absolute);
      case Back =>
        if names != [] {
          ResolvedSegments(ups, names[..|names| - 1], segs[1..], absolute);
        } else {
          ResolvedSegments(if absolute then ups else ups + [segs[0]], names, segs[1..], absolute);
        }
    }
  }

  /** Reading a normal form back: the same root, and segments that resolve alike. */
  lemma NormalFormRead(segs: seq<string>, absolute: bool)
    requires AreSegments(segs)
    ensures var s := NormalForm(segs, absolute);
            IsAbsolute(s) == absolute && (Segments(s) == [] ==> segs == [] || absolute) &&
            Segments(s) == if s == "." then ["."] else Resolve(segs, absolute)
  {
    var kept := Resolve(segs, absolute);
    ResolvedSegments([], [], segs, absolute);
    if segs != [] && kept == [] && !absolute {
      SegmentsJoined(["."]);
    } else {
      SegmentsRendered(absolute, kept);
      if Render(absolute, kept) == "." {
        assert kept != [];
        DotAlone(kept);
      }
    }
  }

  lemma DotAlone(kept: seq<string>)
    requires AreSegments(kept) && Joined(kept) == "."
    ensures kept == ["."]
  { }

  /** Normalising the first part before joining changes nothing. */
  lemma JoinNormalFirst(a: string, b: string)
    ensures Normal2(Normal2(a, ""), b) == Normal2(a, b)
  {
    var abs, segs, more := IsAbsolute(a), Segments(a), Segments(b);
    SegmentsArePlain(a, 0);
    assert Segments("") == [] && segs + [] == segs;
    NormalFormRead(segs, abs);
    var s := NormalForm(segs, abs);
    ResolveFirst(segs, more, abs);
    if s == "." {
      assert Resolve(["."], abs) == [];
      ResolveFirst(["."], more, abs);
      DotForm(segs, abs);
    }
  }

  /** Only segments that resolve to nothing are written as a dot. */
  lemma DotForm(segs: seq<string>, absolute: bool)
    requires AreSegments(segs) && NormalForm(segs, absolute) == "."
    ensures segs != [] && !absolute && Resolve(segs, absolute) == []
  {
    var kept := Resolve(segs, absolute);
    ResolvedSegments([], [], segs, absolute);
    assert Render(true, kept)[0] == '/';
    assert Render(false, kept) == Joined(kept);
    if kept != [] {
      DotAlone(kept);
      var u, n := ResolvedAppend([], [], segs, [], absolute);
      assert false;
    }
  }

  /** Normalising is idempotent. */
  lemma NormalIdempotent(a: string, b: string)
    ensures Normal2(Normal2(a, b), "") == Normal2(a, b)
  {
    var abs, segs := IsAbsolute(a), Segments(a) + Segments(b);
    SegmentsArePlain(a, 0);
    SegmentsArePlain(b, 0);
    assert Segments("") == [];
    NormalFormRead(segs, abs);
    var s := NormalForm(segs, abs);
    assert Segments(s) + [] == Segments(s);
    ResolveFirst(segs, [], abs);
    assert segs + [] == segs && Resolve(segs, abs) + [] == Resolve(segs, abs);
    if s == "." {
      assert Resolve(["."], abs) == [];
      DotForm(segs, abs);
    }
  }

  // ---------------------------------------------------------------------
  // How long a normal form can be
  // ---------------------------------------------------------------------

  /** The length of segments with a separator each. */
  function Weight(segs: seq<string>): nat {
    if segs == [] then 0 else |segs[0]| + 1 + Weight(segs[1..])
  }

  lemma {:induction false} WeightAppend(a: seq<string>, b: seq<string>)
    ensures Weight(a + b) == Weight(a) + Weight(b)
  {
    if a == [] {
      assert a + b == b;
    } else {
      assert (a + b)[1..] == a[1..] + b;
      WeightAppend(a[1..], b);
    }
  }

  lemma WeightOne(x: string)
    ensures Weight([x]) == |x| + 1
  { }

  lemma {:induction false} JoinedLength(segs: seq<string>)
    ensures |Joined(segs)| == if segs == [] then 0 else Weight(segs) - 1
  {
    if |segs| > 1 {
      JoinedLength(segs[1..]);
    }
  }

  /** The segments and their separators come from the path; only the first may lack one. */
  lemma {:induction false} SegmentsWeight(p: string, i: nat)
    requires i <= |p|
    ensures Weight(SegmentsFrom(p, i)) <= |p| - i + if i < |p| && p[i] == '/' then 0 else 1
    decreases |p| - i
  {
    var b := Skip(p, i);
    if b < |p| {
      SegmentsAt(p, i, b);
      var e := Stop(p, b);
      StopIsSeparator(p, b);
      SegmentsWeight(p, e);
      WeightAppend([p[b..e]], SegmentsFrom(p, e));
      WeightOne(p[b..e]);
    }
  }

  lemma {:induction false} ResolvedWeight(ups: seq<string>, names: seq<string>, segs: seq<string>, absolute: bool)
    ensures Weight(Resolved(ups, names, segs, absolute)) <= Weight(ups) + Weight(names) + Weight(segs)
    decreases segs
  {
    if segs == [] {
      WeightAppend(ups, names);
    } else {
      match KindOf(segs[0])
      case Current =>
        ResolvedWeight(ups, names, segs[1..], absolute);
      case Normal =>
        WeightAppend(names, [segs[0]]);
        ResolvedWeight(ups, names + [segs[0]], segs[1..], absolute);
      case Back =>
        if names != [] {
          var last := |names| - 1;
          assert names == names[..last] + [names[last]];
          WeightAppend(names[..last], [names[last]]);
          ResolvedWeight(ups, names[..last], segs[1..], absolute);
        } else if absolute {
          ResolvedWeight(ups, names, segs[1..], absolute);
        } else {
          WeightAppend(ups, [segs[0]]);
          ResolvedWeight(ups + [segs[0]], names, segs[1..], absolute);
        }
    }
  }

  /** A normal form is at most one character longer than its two paths together. */
  lemma NormalFits(a: string, b: string)
    ensures |Normal2(a, b)| <= |a| + |b| + 1
  {
    var segs := Segments(a) + Segments(b);
    SegmentsWeight(a, 0);
    SegmentsWeight(b, 0);
    WeightAppend(Segments(a), Segments(b));
    ResolvedWeight([], [], segs, IsAbsolute(a));
    JoinedLength(Resolve(segs, IsAbsolute(a)));
  }
}
