/**
 USTAR::ReadArchive as a whole: the headers become nodes, the nodes a tree, and the tree is
 numbered.
 */
module UstarReader {
  import opened UstarArchive
  import opened UstarTree
  import Path
  import UstarDir
  import UstarLookup
  import Vfs

  /** The paths that the reader gives to archived files. */
  ghost function ArchivePaths(files: seq<File>): (paths: seq<string>)
    ensures |paths| == |files| && forall k :: 0 <= k < |files| ==> paths[k] == PathOf(ReadName(files[k]))
  {
    seq(|files|, k requires 0 <= k < |files| => PathOf(ReadName(files[k])))
  }

  /** The name of a node: the last segment of its path, or the path when it has none. */
  method NameOf(path: string) returns (name: string)
    ensures name == if Path.Segments(path) == [] then path else UstarLookup.Basename(path)
  {
    var found, begin, size := Path.FirstSegment(path);
    name := if found then UstarLookup.Basename(path) else path;
  }

  method MakeNodes(entries: seq<Entry>) returns (nodes: seq<Inode>)
    requires forall k :: 0 <= k < |entries| ==> entries[k].inode == k
    ensures |nodes| == |entries| && fresh(nodes) && Consecutive(nodes)
    ensures forall k :: 0 <= k < |nodes| ==>
              nodes[k].path == entries[k].path && nodes[k].parent == null && nodes[k].children == [] &&
              !nodes[k].deleted
    ensures forall k :: 0 <= k < |nodes| && Path.Segments(nodes[k].path) != [] ==>
              nodes[k].name == UstarLookup.Basename(nodes[k].path)
  {
    nodes := [];
    var i := 0;
    while i < |entries|
      invariant 0 <= i == |nodes| <= |entries| && fresh(nodes) && Consecutive(nodes)
      invariant forall k :: 0 <= k < i ==>
                  nodes[k].path == entries[k].path && nodes[k].parent == null && nodes[k].children == [] &&
                  !nodes[k].deleted
      invariant forall k :: 0 <= k < i && Path.Segments(nodes[k].path) != [] ==>
                  nodes[k].name == UstarLookup.Basename(nodes[k].path)
    {
      var name := NameOf(entries[i].path);
      var node := new Inode(entries[i].inode, entries[i].path, name);
      nodes := nodes + [node];
      i := i + 1;
    }
  }

  /** The nodes of an archive in memory, not yet linked. */
  method ReadNodes(image: array<char>, ghost files: seq<File>) returns (nodes: seq<Inode>)
    requires LaidOut(image[..], 0, files) && AllProper(files)
    modifies image
    ensures fresh(nodes) && Paths(nodes) == ArchivePaths(files) && Consecutive(nodes)
    ensures forall i :: 0 <= i < |nodes| ==> nodes[i].parent == null && nodes[i].children == [] && !nodes[i].deleted
    ensures forall i :: 0 <= i < |nodes| && Path.Segments(nodes[i].path) != [] ==>
              nodes[i].name == UstarLookup.Basename(nodes[i].path)
    ensures Kept(old(image[..]), image[..], 0, files)
  {
    ghost var images, addresses;
    var listing;
    listing, images, addresses := ReadHeaders(image, 0);
    ReadsFiles(listing, 0, images, addresses, files);
    KeepsData(images, addresses, files);
    forall k | 0 <= k < |files|
      ensures listing.entries[k] == Entry(k, PathOf(ReadName(files[k])))
    {
      EntriesForAt(files, 0, k);
    }
    nodes := MakeNodes(listing.entries);
  }

  /** From the bytes of a depth-first archive to its directory tree. */
  method ReadArchive(image: array<char>, ghost files: seq<File>) returns (nodes: seq<Inode>, ghost par: seq<int>)
    requires LaidOut(image[..], 0, files) && AllProper(files) && files != []
    requires DepthFirst(ArchivePaths(files), |files|)
    modifies image
    ensures |nodes| == |files| && Paths(nodes) == ArchivePaths(files) && Consecutive(nodes)
    ensures Linked(nodes, par, |nodes|) && InPlace(nodes, par, |nodes|) && Arranged(nodes)
    ensures Kept(old(image[..]), image[..], 0, files)
    ensures Fresh(nodes) && forall p :: 0 <= p < |nodes| ==> UstarDir.Contained(UstarDir.DirOf(nodes[p]))
  {
    nodes := ReadNodes(image, files);
    par := Arrange(nodes);
    NamesAreBasenames(nodes, par);
    forall p | 0 <= p < |nodes|
      ensures UstarDir.Contained(UstarDir.DirOf(nodes[p]))
    {
      DirectoryContained(nodes, par, files, p);
    }
  }

  lemma PathsAreShort(f: File)
    requires Fits(f)
    ensures |PathOf(ReadName(f))| < SIZE
  { }

  /** The names from an archive are too short to be cut in a directory record, so every listing stays in its buffer. */
  lemma DirectoryContained(nodes: seq<Inode>, par: seq<int>, files: seq<File>, p: nat)
    requires Linked(nodes, par, |nodes|) && Arranged(nodes) && Fresh(nodes) && p < |nodes|
    requires Paths(nodes) == ArchivePaths(files) && AllProper(files)
    ensures UstarDir.Contained(UstarDir.DirOf(nodes[p]))
  {
    var children := nodes[p].children;
    forall k | 0 <= k < |children|
      ensures |children[k].name| < SIZE
    {
      assert children == Kids(nodes, par, p, |nodes|);
      var c := KidsIndex(nodes, par, p, |nodes|, k);
      assert Proper(files[c]) && Paths(nodes)[c] == PathOf(ReadName(files[c]));
      PathsAreShort(files[c]);
    }
    UstarDir.ArrangedIsNumbered(nodes, p);
    UstarDir.ReadingInside(UstarDir.DirOf(nodes[p]));
  }

  /** As after reading: nothing is deleted, and every name but the root's is the last segment of the path. */
  ghost predicate Fresh(nodes: seq<Inode>)
    reads nodes
  {
    forall i :: 0 < i < |nodes| ==> !nodes[i].deleted && nodes[i].name == UstarLookup.Basename(nodes[i].path)
  }

  lemma NamesAreBasenames(nodes: seq<Inode>, par: seq<int>)
    requires nodes != [] && Linked(nodes, par, |nodes|) && InPlace(nodes, par, |nodes|) && nodes[0].path == "/"
    requires forall i :: 0 <= i < |nodes| ==> !nodes[i].deleted
    requires forall i :: 0 <= i < |nodes| && Path.Segments(nodes[i].path) != [] ==>
               nodes[i].name == UstarLookup.Basename(nodes[i].path)
    ensures Fresh(nodes)
  {
    UstarLookup.InPlaceIsRooted(nodes, par);
    forall i | 0 < i < |nodes|
      ensures Path.Segments(nodes[i].path) != []
    {
      UstarLookup.DirnameHasSegment(Paths(nodes)[i]);
    }
  }

  // ---------------------------------------------------------------------
  // The archive behind the virtual file system
  // ---------------------------------------------------------------------

  function ParentNumbers(nodes: seq<Inode>): seq<int>
    reads nodes
  {
    seq(|nodes|, i requires 0 <= i < |nodes| reads nodes =>
      if nodes[i].parent == null then -1 else nodes[i].parent.index)
  }

  /** An answer of the archive as the virtual file system takes it. */
  ghost function Taken(answer: UstarLookup.Answer): Vfs.Outcome
    reads if answer.Child? then {answer.node} else {}
  {
    match answer
    case Child(node) => Vfs.Found(node.index)
    case Refused(error) => Vfs.Failed(error)
  }

  /**
   The entries give the answers of a search for the name below the directory; for a single segment,
   which is what the virtual file system asks for, they are those of the archive's own Lookup.
   */
  ghost predicate Serves(entries: Vfs.Entries, nodes: seq<Inode>, p: nat, name: string)
    requires p < |nodes|
    reads nodes[p], nodes[p].children
  {
    && Vfs.Ask(entries, p, name) == Taken(UstarLookup.Searched(nodes[p].children, name))
    && (Path.IsSegment(name) ==>
          Vfs.Ask(entries, p, name) == Taken(UstarLookup.LookedUp(nodes[0], nodes, nodes[p], name)))
  }

  /** Reads an archive and mounts it: the root of the virtual file system is its first entry. */
  method Mount(image: array<char>, ghost files: seq<File>)
    returns (fs: Vfs.Virtual, nodes: seq<Inode>, ghost par: seq<int>)
    requires LaidOut(image[..], 0, files) && AllProper(files) && files != []
    requires DepthFirst(ArchivePaths(files), |files|)
    modifies image
    ensures fs.Valid() && fs.root.inode == 0
    ensures UstarLookup.Rooted(ArchivePaths(files), par) && par[0] == -1
    ensures fs.entries == UstarLookup.EntriesOf(ArchivePaths(files), par)
    ensures |nodes| == |files| && forall p: nat, name :: p < |nodes| ==> Serves(fs.entries, nodes, p, name)
  {
    nodes, par := ReadArchive(image, files);
    UstarLookup.InPlaceIsRooted(nodes, par);
    ParentNumbersAre(nodes, par);
    AllServed(nodes, par);
    fs := new Vfs.Virtual(0, UstarLookup.EntriesOf(PathList(nodes), ParentNumbers(nodes)));
  }

  lemma ParentNumbersAre(nodes: seq<Inode>, par: seq<int>)
    requires Consecutive(nodes) && Linked(nodes, par, |nodes|)
    ensures ParentNumbers(nodes) == par
  { }

  lemma AllServed(nodes: seq<Inode>, par: seq<int>)
    requires Consecutive(nodes) && Linked(nodes, par, |nodes|) && nodes != [] && par[0] == -1 && Fresh(nodes)
    ensures forall p: nat, name ::
              p < |nodes| ==> Serves(UstarLookup.EntriesOf(Paths(nodes), par), nodes, p, name)
  {
    forall p: nat, name | p < |nodes|
      ensures Serves(UstarLookup.EntriesOf(Paths(nodes), par), nodes, p, name)
    {
      UstarLookup.LookupIsEntries(nodes, par, p, name);
      if Path.IsSegment(name) {
        UstarLookup.SegmentIsKey(name);
      }
    }
  }

  function PathList(nodes: seq<Inode>): (paths: seq<string>)
    ensures paths == Paths(nodes)
  {
    seq(|nodes|, i requires 0 <= i < |nodes| => nodes[i].path)
  }

  /**
   Whatever was looked up before, looking up the path of an entry gives its inode exactly when no
   segment of the path is a dot or two and no entry stands before it or before a directory on the
   way to it with the same name in the same directory.
   */
  method LookUpEntry(
    fs: Vfs.Virtual, directory: Vfs.NodeCache, paths: seq<string>, ghost par: seq<int>, i: nat)
    returns (r: Vfs.NodeResult)
    requires fs.Valid() && directory in fs.known && fs.root.inode == 0
    requires UstarLookup.Rooted(paths, par) && par[0] == -1 && i < |paths|
    requires fs.entries == UstarLookup.EntriesOf(paths, par)
    modifies fs`known, fs`attached, fs.attached`children
    ensures fs.Valid() && fs.Grown()
    ensures (r.Node? && r.value.inode == i) <==>
            Path.NoDots(Path.Segments(paths[i])) && UstarLookup.Foremost(paths, par, i)
    ensures UstarLookup.PathsDiffer(paths) ==>
              ((r.Node? && r.value.inode == i) <==> Path.NoDots(Path.Segments(paths[i])))
    ensures r.Node? && r.value.inode == i ==> r.value.trail == Path.Segments(paths[i])
  {
    UstarLookup.PathsAbsolute(paths, par, i);
    r := fs.Lookup(directory, paths[i]);
    UstarLookup.EntryFound(paths, par, i);
    if UstarLookup.Reached(paths, par, paths[i]) == Vfs.Found(i) {
      UstarLookup.PlainIfReached(paths, par, i);
    } else if UstarLookup.PathsDiffer(paths) && Path.NoDots(Path.Segments(paths[i])) {
      UstarLookup.ReachedIfPlain(paths, par, i);
    }
  }
}
