/**
 Looking names up in the USTAR tree, and where that leads: walking down the segments of
 an entry's own path from the root ends at that entry.
 */
module UstarLookup {
  import opened Path
  import opened UstarTree
  import opened Vfs

  const ENOENT: int := 2
  const EINVAL: int := 22

  // ---------------------------------------------------------------------
  // A path is its directory name and its base name
  // ---------------------------------------------------------------------

  lemma LastBeginAfter(p: string, i: nat)
    requires i <= |p| && Skip(p, i) < |p|
    ensures var s := Skip(p, i); var e := Stop(p, s);
            s < e && LastBegin(p, i, 0) == LastBegin(p, e, s) &&
            (SegmentsFrom(p, e) == [] ==> LastBegin(p, e, s) == s) &&
            (SegmentsFrom(p, e) != [] ==> LastBegin(p, e, s) > e && LastBegin(p, e, s) == LastBegin(p, e, 0))
  {
    SkipStops(p, i);
    var s := Skip(p, i);
    var e := Stop(p, s);
    StopIsSeparator(p, s);
    SkipStops(p, e);
  }

  /** The segments before the last one are those of the part before it. */
  lemma {:induction false} SegmentsCut(p: string, i: nat, b: nat)
    requires i <= |p| && SegmentsFrom(p, i) != [] && b == LastBegin(p, i, 0)
    ensures i <= b < |p| && SegmentsFrom(p, i) == SegmentsFrom(p[..b], i) + [p[b..Stop(p, b)]]
    decreases |p| - i
  {
    var s := Skip(p, i);
    var e := Stop(p, s);
    LastBeginAfter(p, i);
    SegmentsAt(p, i, s);
    SkipCut(p, b, i);
    if SegmentsFrom(p, e) == [] {
      assert SegmentsFrom(p[..b], i) == [];
    } else {
      SegmentsCut(p, e, b);
      StopCut(p, b, s);
      SegmentsAt(p[..b], i, s);
      assert p[..b][s..e] == p[s..e];
    }
  }

  /** cwk_path_get_basename: the last segment. */
  function Basename(p: string): string {
    p[LastBegin(p, 0, 0)..Stop(p, LastBegin(p, 0, 0))]
  }

  lemma DirnameAndBasename(p: string)
    requires Segments(p) != []
    ensures Segments(p) == Segments(Dirname(p)) + [Basename(p)]
  {
    SegmentsCut(p, 0, LastBegin(p, 0, 0));
  }

  /** What has a directory name has a segment. */
  lemma DirnameHasSegment(p: string)
    requires Dirname(p) != ""
    ensures Segments(p) != []
  {
    SegmentsAt(p, 0, Skip(p, 0));
  }

  // ---------------------------------------------------------------------
  // Looking up a child
  // ---------------------------------------------------------------------

  ghost predicate Matches(child: Inode, name: string)
    reads child
  {
    !child.deleted && child.name == name
  }

  /** The place of the first child of that name which is not deleted, or the number of children. */
  ghost function FirstMatch(children: seq<Inode>, name: string): (k: nat)
    reads children
    ensures k <= |children| && forall j :: 0 <= j < k ==> !Matches(children[j], name)
    ensures k < |children| ==> Matches(children[k], name)
  {
    if children == [] || Matches(children[0], name) then 0 else 1 + FirstMatch(children[1..], name)
  }

  datatype Answer = Child(node: Inode) | Refused(error: int)

  /** The answer of a search through a list. */
  ghost function Searched(list: seq<Inode>, key: string): Answer
    reads list
  {
    var k := FirstMatch(list, key);
    if k < |list| then Child(list[k]) else Refused(-ENOENT)
  }

  method Search(list: seq<Inode>, key: string) returns (r: Answer)
    ensures r == Searched(list, key)
  {
    var i: nat := 0;
    while i < |list|
      invariant i <= |list|
      invariant forall j :: 0 <= j < i ==> !Matches(list[j], key)
    {
      if !list[i].deleted && list[i].name == key {
        assert Matches(list[i], key);
        return Child(list[i]);
      }
      i := i + 1;
    }
    r := Refused(-ENOENT);
  }

  /** What the names are compared with: all of the path from its last segment on, to its very end. */
  function Key(path: string): string {
    path[LastBegin(path, 0, 0)..]
  }

  /** The answer of Lookup. */
  ghost function LookedUp(root: Inode, files: seq<Inode>, parent: Inode?, path: string): Answer
    reads parent, if parent != null then parent.children else files
  {
    if Segments(path) != [] then Searched(if parent != null then parent.children else files, Key(path))
    else if path == "/" then Child(root) else Refused(-EINVAL)
  }

  /**
   USTAR::Lookup below a directory or, without one, among all files in the order in which the map
   of files is walked; `root` is the file with inode 0.
   */
  method Lookup(root: Inode, files: seq<Inode>, parent: Inode?, path: string) returns (r: Answer)
    ensures r == LookedUp(root, files, parent, path)
  {
    var found, begin, size := FirstSegment(path);
    if !found {
      return if path == "/" then Child(root) else Refused(-EINVAL);
    }
    var dirname := GetDirname(path);
    var key := path[|dirname|..];
    if parent != null {
      r := Search(parent.children, key);
    } else {
      r := Search(files, key);
    }
  }

  /** What Lookup refuses: a path without a segment other than the root, and a name that is not there. */
  lemma LookupRefuses(root: Inode, files: seq<Inode>, parent: Inode?, path: string)
    ensures var list := if parent != null then parent.children else files;
            var answer := LookedUp(root, files, parent, path);
            if path == "/" then answer == Child(root)
            else if Segments(path) == [] then answer == Refused(-22)
            else if forall n :: n in list ==> n.deleted || n.name != Key(path) then answer == Refused(-2)
            else answer.Child? && answer.node in list && !answer.node.deleted && answer.node.name == Key(path)
  {
    SkipAll("/", 0);
  }

  /** A name as the virtual file system passes it is its own key. */
  lemma SegmentIsKey(name: string)
    requires IsSegment(name)
    ensures Segments(name) == [name] && Key(name) == name
  {
    OneSegment(name);
    DirnameIs(name, 0, |name|, 0, 0);
  }

  /** A trailing separator becomes part of the key, so that such a path is not found. */
  lemma SeparatorInKey(name: string)
    requires IsSegment(name)
    ensures Segments(name + "/") != [] && Key(name + "/") == name + "/"
  {
    DirnameIs(name + "/", 0, |name|, 0, 0);
    SegmentsAt(name + "/", 0, 0);
  }

  // ---------------------------------------------------------------------
  // From the root to every entry
  // ---------------------------------------------------------------------

  /** The first entry from `c` on that hangs below `p` with that name, or the number of entries. */
  function FirstNamed(paths: seq<string>, par: seq<int>, p: int, name: string, c: nat): (r: nat)
    requires |par| == |paths| && c <= |paths|
    ensures c <= r <= |paths|
    ensures r < |paths| ==> par[r] == p && Basename(paths[r]) == name
    ensures forall k :: c <= k < r ==> par[k] != p || Basename(paths[k]) != name
    decreases |paths| - c
  {
    if c == |paths| || (par[c] == p && Basename(paths[c]) == name) then c else FirstNamed(paths, par, p, name, c + 1)
  }

  /** What the tree answers to the virtual file system. */
  function EntriesOf(paths: seq<string>, par: seq<int>): Entries
    requires |par| == |paths|
  {
    (p: int, name: string) =>
      var c := FirstNamed(paths, par, p, name, 0);
      if c < |paths| then Found(c) else Failed(-ENOENT)
  }

  /** Every entry but the first hangs in the directory its path names. */
  ghost predicate Rooted(paths: seq<string>, par: seq<int>) {
    && |par| == |paths| > 0 && paths[0] == "/"
    && forall i :: 0 < i < |paths| ==> 0 <= par[i] < i && paths[par[i]] == Dirname(paths[i]) && paths[par[i]] != ""
  }

  /** No directory has two children of one name. */
  ghost predicate NamesDiffer(paths: seq<string>, par: seq<int>)
    requires |par| == |paths|
  {
    forall i, j ::
      0 < i < |paths| && 0 < j < |paths| && par[i] == par[j] && Basename(paths[i]) == Basename(paths[j]) ==> i == j
  }

  lemma InPlaceIsRooted(nodes: seq<Inode>, par: seq<int>)
    requires nodes != [] && Linked(nodes, par, |nodes|) && InPlace(nodes, par, |nodes|) && nodes[0].path == "/"
    ensures Rooted(Paths(nodes), par)
  { }

  /** No entry before this one has its directory and its name. */
  ghost predicate FirstOfName(paths: seq<string>, par: seq<int>, i: nat)
    requires |par| == |paths| && i < |paths|
  {
    forall k :: 0 <= k < i && par[k] == par[i] ==> Basename(paths[k]) != Basename(paths[i])
  }

  /** Neither the entry nor a directory on the way to it comes after one of the same name in the same directory. */
  ghost predicate Foremost(paths: seq<string>, par: seq<int>, i: nat)
    requires Rooted(paths, par) && i < |paths|
  {
    i > 0 ==> FirstOfName(paths, par, i) && Foremost(paths, par, par[i])
  }

  /** Asked for an entry's name, the tree gives the first of that name. */
  lemma FindsFirst(paths: seq<string>, par: seq<int>, p: int, i: nat)
    requires Rooted(paths, par) && 0 < i < |paths|
    ensures Ask(EntriesOf(paths, par), p, Basename(paths[i])) == Found(i) <==>
            p == par[i] && FirstOfName(paths, par, i)
  {
    var c := FirstNamed(paths, par, p, Basename(paths[i]), 0);
    if p == par[i] && c < i {
      assert !FirstOfName(paths, par, i);
    }
  }

  /** Walking down the segments of an entry's path from the root ends at that entry just when it is foremost. */
  lemma {:induction false} WalkFindsForemost(paths: seq<string>, par: seq<int>, i: nat)
    requires Rooted(paths, par) && i < |paths| && par[0] == -1
    ensures Walk(EntriesOf(paths, par), 0, Segments(paths[i])) == Found(i) <==> Foremost(paths, par, i)
  {
    var entries := EntriesOf(paths, par);
    if i == 0 {
      SkipAll("/", 0);
    } else {
      var j, name := par[i], Basename(paths[i]);
      WalkFindsForemost(paths, par, j);
      DirnameHasSegment(paths[i]);
      DirnameAndBasename(paths[i]);
      WalkAppend(entries, 0, Segments(paths[j]), [name]);
      var above := Walk(entries, 0, Segments(paths[j]));
      if above.Found? {
        WalkOne(entries, above.inode, name);
        FindsFirst(paths, par, above.inode, i);
      }
    }
  }

  lemma {:induction false} DifferentAreForemost(paths: seq<string>, par: seq<int>, i: nat)
    requires Rooted(paths, par) && NamesDiffer(paths, par) && i < |paths| && par[0] == -1
    ensures Foremost(paths, par, i)
  {
    if i > 0 {
      DifferentAreForemost(paths, par, par[i]);
    }
  }

  /** If names differ, walking down the segments of any entry's path from the root ends at that entry. */
  lemma PathLeadsToEntry(paths: seq<string>, par: seq<int>, i: nat)
    requires Rooted(paths, par) && NamesDiffer(paths, par) && i < |paths| && par[0] == -1
    ensures Walk(EntriesOf(paths, par), 0, Segments(paths[i])) == Found(i)
  {
    DifferentAreForemost(paths, par, i);
    WalkFindsForemost(paths, par, i);
  }

  /** Where a walk from the root ends, the entry's path has just the segments of the walk. */
  lemma {:induction false} WalkIsSegments(paths: seq<string>, par: seq<int>, segs: seq<string>, j: int)
    requires Rooted(paths, par) && par[0] == -1 && Walk(EntriesOf(paths, par), 0, segs) == Found(j)
    ensures 0 <= j < |paths| && Segments(paths[j]) == segs
    decreases |segs|
  {
    if segs == [] {
      SkipAll("/", 0);
    } else {
      var front, last := segs[..|segs| - 1], segs[|segs| - 1];
      assert segs == front + [last];
      WalkAppend(EntriesOf(paths, par), 0, front, [last]);
      var p := Walk(EntriesOf(paths, par), 0, front).inode;
      WalkIsSegments(paths, par, front, p);
      WalkOne(EntriesOf(paths, par), p, last);
      assert j == FirstNamed(paths, par, p, last, 0);
      DirnameHasSegment(paths[j]);
      DirnameAndBasename(paths[j]);
    }
  }

  /** No two entries have the same path, up to separators. */
  ghost predicate PathsDiffer(paths: seq<string>) {
    forall i, j :: 0 <= i < j < |paths| ==> Segments(paths[i]) != Segments(paths[j])
  }

  lemma PathsDifferIsNames(paths: seq<string>, par: seq<int>)
    requires Rooted(paths, par) && PathsDiffer(paths)
    ensures NamesDiffer(paths, par)
  {
    forall i, j | 0 < i < |paths| && 0 < j < |paths| && par[i] == par[j] && Basename(paths[i]) == Basename(paths[j])
      ensures i == j
    {
      DirnameHasSegment(paths[i]);
      DirnameAndBasename(paths[i]);
      DirnameHasSegment(paths[j]);
      DirnameAndBasename(paths[j]);
    }
  }

  /** What the virtual file system reaches for an absolute path, by LookupIsWalk. */
  ghost function Reached(paths: seq<string>, par: seq<int>, path: string): Outcome
    requires |par| == |paths|
  {
    Walk(EntriesOf(paths, par), 0, Resolve(Segments(path), true))
  }

  lemma ReachedIfPlain(paths: seq<string>, par: seq<int>, i: nat)
    requires Rooted(paths, par) && par[0] == -1 && i < |paths| && PathsDiffer(paths)
    requires NoDots(Segments(paths[i]))
    ensures Reached(paths, par, paths[i]) == Found(i)
  {
    NoDotsIs(Segments(paths[i]));
    SegmentsArePlain(paths[i], 0);
    NamesResolve(Segments(paths[i]));
    PathsDifferIsNames(paths, par);
    PathLeadsToEntry(paths, par, i);
  }

  lemma PlainIfReached(paths: seq<string>, par: seq<int>, i: nat)
    requires Rooted(paths, par) && par[0] == -1 && i < |paths| && Reached(paths, par, paths[i]) == Found(i)
    ensures NoDots(Segments(paths[i])) && Resolve(Segments(paths[i]), true) == Segments(paths[i])
  {
    WalkIsSegments(paths, par, Resolve(Segments(paths[i]), true), i);
    ResolvedAbsolute(Segments(paths[i]));
    NoDotsIs(Segments(paths[i]));
  }

  /** An entry is found under its own path exactly when the path has no dot segment and the entry is foremost. */
  lemma EntryFound(paths: seq<string>, par: seq<int>, i: nat)
    requires Rooted(paths, par) && par[0] == -1 && i < |paths|
    ensures Reached(paths, par, paths[i]) == Found(i) <==>
            NoDots(Segments(paths[i])) && Foremost(paths, par, i)
  {
    WalkFindsForemost(paths, par, i);
    NoDotsIs(Segments(paths[i]));
    if NoDots(Segments(paths[i])) {
      SegmentsArePlain(paths[i], 0);
      NamesResolve(Segments(paths[i]));
    } else if Reached(paths, par, paths[i]) == Found(i) {
      PlainIfReached(paths, par, i);
    }
  }

  /** Of two entries with the same path the second is never found. */
  lemma TwinHidden()
    ensures var paths, par := ["/", "/a", "/a"], [-1, 0, 0];
            DepthFirst(paths, 3) && Rooted(paths, par) && Reached(paths, par, paths[2]) != Found(2)
  {
    var paths, par := ["/", "/a", "/a"], [-1, 0, 0];
    BelowRoot("/a");
    assert Under("/", "/a");
    assert Home(paths, 0, 1) && Home(paths, 0, 2);
    assert !FirstOfName(paths, par, 2);
    EntryFound(paths, par, 2);
  }

  /** Nor is an entry whose path ends in a dot: such a path leads to the directory. */
  lemma DotHidden()
    ensures var paths, par := ["/", "/."], [-1, 0];
            DepthFirst(paths, 2) && Rooted(paths, par) && Reached(paths, par, paths[1]) != Found(1)
  {
    var paths, par := ["/", "/."], [-1, 0];
    BelowRoot("/.");
    assert Home(paths, 0, 1);
    assert Segments("/.")[0] == ".";
    EntryFound(paths, par, 1);
  }

  lemma BelowRoot(path: string)
    requires |path| == 2 && path[0] == '/' && path[1] != '/'
    ensures Dirname(path) == "/" && Segments(path) == [path[1..]]
  {
    DirnameIs(path, 1, 2, 0, 0);
    assert path[..1] == "/";
    DirnameHasSegment(path);
    DirnameAndBasename(path);
    SkipAll("/", 0);
    assert Stop(path, 1) == 2 && path[1..2] == path[1..];
  }

  /** Every entry is found under its own path exactly when no path has a dot segment and no two are the same. */
  lemma EveryEntryFound(paths: seq<string>, par: seq<int>)
    requires Rooted(paths, par) && par[0] == -1
    ensures (forall i :: 0 <= i < |paths| ==> Reached(paths, par, paths[i]) == Found(i)) <==>
            PathsDiffer(paths) && forall i :: 0 <= i < |paths| ==> NoDots(Segments(paths[i]))
  {
    if forall i :: 0 <= i < |paths| ==> Reached(paths, par, paths[i]) == Found(i) {
      forall i | 0 <= i < |paths|
        ensures NoDots(Segments(paths[i]))
      {
        PlainIfReached(paths, par, i);
      }
      forall i, j | 0 <= i < j < |paths|
        ensures Segments(paths[i]) != Segments(paths[j])
      {
        assert Reached(paths, par, paths[i]) != Reached(paths, par, paths[j]);
      }
    } else if PathsDiffer(paths) && forall i :: 0 <= i < |paths| ==> NoDots(Segments(paths[i])) {
      forall i | 0 <= i < |paths|
        ensures Reached(paths, par, paths[i]) == Found(i)
      {
        ReachedIfPlain(paths, par, i);
      }
    }
  }

  lemma {:induction false} PathsAbsolute(paths: seq<string>, par: seq<int>, i: nat)
    requires Rooted(paths, par) && i < |paths|
    ensures IsAbsolute(paths[i])
  {
    if i > 0 {
      PathsAbsolute(paths, par, par[i]);
    }
  }

  lemma FirstPlaceIsFirstEntry(nodes: seq<Inode>, par: seq<int>, p: nat, name: string, k: nat)
    requires Linked(nodes, par, |nodes|) && p < |nodes| && par[0] == -1
    requires forall i :: 0 < i < |nodes| ==> !nodes[i].deleted && nodes[i].name == Basename(nodes[i].path)
    requires k <= |nodes[p].children| && forall j :: 0 <= j < k ==> !Matches(nodes[p].children[j], name)
    requires k < |nodes[p].children| ==> Matches(nodes[p].children[k], name)
    ensures var r := FirstNamed(Paths(nodes), par, p, name, 0);
            if k < |nodes[p].children| then r < |nodes| && nodes[r] == nodes[p].children[k] else r == |nodes|
  {
    var kids := Kids(nodes, par, p, |nodes|);
    assert nodes[p].children == kids;
    var r := FirstNamed(Paths(nodes), par, p, name, 0);
    if r < |nodes| {
      KidsAt(nodes, par, r, |nodes|);
      assert Matches(kids[Rank(nodes, par, r)], name);
    }
    if k < |kids| {
      var c := KidsIndex(nodes, par, p, |nodes|, k);
      assert r <= c;
      if r < c {
        KidsGrow(nodes, par, p, r + 1, c);
      }
    }
  }

  /** On the tree of a fresh archive, Lookup gives just these answers. */
  lemma LookupIsEntries(nodes: seq<Inode>, par: seq<int>, p: nat, name: string)
    requires Linked(nodes, par, |nodes|) && p < |nodes| && par[0] == -1
    requires forall i :: 0 < i < |nodes| ==> !nodes[i].deleted && nodes[i].name == Basename(nodes[i].path)
    ensures var answer := Ask(EntriesOf(Paths(nodes), par), p, name);
            var k := FirstMatch(nodes[p].children, name);
            if k < |nodes[p].children| then
              answer.Found? && 0 <= answer.inode < |nodes| && nodes[answer.inode] == nodes[p].children[k]
            else answer == Failed(-ENOENT)
  {
    FirstPlaceIsFirstEntry(nodes, par, p, name, FirstMatch(nodes[p].children, name));
  }
}
