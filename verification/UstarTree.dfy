/**
 How the USTAR reader turns a listing of paths into a directory tree: one pass with a
 stack of open directories, which gives every entry its parent, and then a numbering of
 the children that directory reads resume from.
 */
module UstarTree {
  import opened Path

  // ---------------------------------------------------------------------
  // Directory names
  // ---------------------------------------------------------------------

  /** Where the last segment begins, if one begins at or after `i`; otherwise `from`. */
  function LastBegin(p: string, i: nat, from: nat): (b: nat)
    requires from <= i <= |p|
    ensures b == from || i <= b < |p|
    decreases |p| - i
  {
    var s := Skip(p, i);
    if s == |p| then from else
      SkipStops(p, i);
      var b := LastBegin(p, Stop(p, s), s);
      b
  }

  /** cwk_path_get_dirname: all of the path before its last segment. */
  function Dirname(p: string): (d: string)
    ensures d <= p && (p != "" ==> |d| < |p|)
  {
    p[..LastBegin(p, 0, 0)]
  }

  /** What a directory name is: the path up to a last segment that only separators follow. */
  lemma {:induction false} DirnameIs(p: string, b: nat, e: nat, i: nat, from: nat)
    requires from <= i <= b < e <= |p| && (b == 0 || p[b - 1] == '/')
    requires forall k :: b <= k < e ==> p[k] != '/'
    requires forall k :: e <= k < |p| ==> p[k] == '/'
    ensures LastBegin(p, i, from) == b
    decreases |p| - i
  {
    SkipBelow(p, i, b);
    var s := Skip(p, i);
    SkipStops(p, i);
    if s == b {
      StopAt(p, b, e);
      SkipAll(p, e);
    } else {
      StopBelow(p, s, b - 1);
      DirnameIs(p, b, e, Stop(p, s), s);
    }
  }

  /** A directory entry: its path ends with a separator. */
  predicate IsDir(p: string) {
    p != "" && p[|p| - 1] == '/'
  }

  method GetDirname(p: string) returns (d: string)
    ensures d == Dirname(p)
  {
    var found: bool, begin: nat, size: nat := FirstSegment(p);
    if !found {
      return "";
    }
    while found
      invariant begin + size <= |p| && (begin + size < |p| ==> p[begin + size] == '/')
      invariant LastBegin(p, 0, 0) == LastBegin(p, begin + size, begin)
      invariant !found ==> Skip(p, begin + size) == |p|
      decreases |p| - begin, found
    {
      found, begin, size := NextSegment(p, begin, size);
    }
    d := p[..begin];
  }

  // ---------------------------------------------------------------------
  // Depth-first listings
  // ---------------------------------------------------------------------

  /** The entry lies in that directory or somewhere below it. */
  predicate Under(dir: string, p: string) {
    dir <= Dirname(p)
  }

  /** Before entry `n`, directory `k` is open: all entries since it lie below it. */
  ghost predicate Open(paths: seq<string>, k: nat, n: nat) {
    k < n <= |paths| && IsDir(paths[k]) &&
    forall m {:trigger Under(paths[k], paths[m])} :: k < m < n ==> Under(paths[k], paths[m])
  }

  /** The open directory that entry `i` belongs into. */
  ghost predicate Home(paths: seq<string>, j: nat, i: nat) {
    i < |paths| && Open(paths, j, i) && paths[j] == Dirname(paths[i])
  }

  ghost predicate HasHome(paths: seq<string>, i: nat) {
    exists j: nat :: Home(paths, j, i)
  }

  /** Every entry but the root comes while its directory is still open. */
  ghost predicate DepthFirst(paths: seq<string>, n: nat) {
    n <= |paths| && (n > 0 ==> paths[0] == "/") && forall i :: 0 < i < n ==> HasHome(paths, i)
  }

  /** The open directories before entry `n`, outermost first. */
  ghost predicate OpenList(paths: seq<string>, n: nat, open: seq<nat>) {
    && (forall t :: 0 <= t < |open| ==> Open(paths, open[t], n))
    && (forall t, u :: 0 <= t < u < |open| ==> open[t] < open[u])
    && (forall k: nat :: Open(paths, k, n) ==> k in open)
  }

  /** Open directories are nested: each lies strictly inside the ones before it. */
  lemma OpenNested(paths: seq<string>, k: nat, l: nat, n: nat)
    requires Open(paths, k, n) && Open(paths, l, n) && k < l
    ensures |paths[k]| < |paths[l]| && paths[k] <= paths[l]
  {
    assert Under(paths[k], paths[l]);
  }

  /** Of the open directories exactly those up to the entry's own stay open. */
  lemma OpenStep(paths: seq<string>, n: nat, open: seq<nat>, t: nat, k: nat)
    requires n < |paths| && OpenList(paths, n, open) && t < |open| && paths[open[t]] == Dirname(paths[n])
    requires Open(paths, k, n)
    ensures k in open[..t + 1] <==> Open(paths, k, n + 1)
  {
    var u :| 0 <= u < |open| && open[u] == k;
    if u < t {
      OpenNested(paths, k, open[t], n);
      assert open[..t + 1][u] == k;
      assert Under(paths[k], paths[n]);
    } else if u == t {
      assert open[..t + 1][u] == k;
      assert Under(paths[k], paths[n]);
    } else {
      OpenNested(paths, open[t], k, n);
      assert !Under(paths[k], paths[n]);
    }
  }

  ghost function NextOpen(open: seq<nat>, t: nat, n: nat, path: string): seq<nat>
    requires t < |open|
  {
    open[..t + 1] + if IsDir(path) then [n] else []
  }

  lemma OpenListStep(paths: seq<string>, n: nat, open: seq<nat>, t: nat)
    requires n < |paths| && OpenList(paths, n, open) && t < |open| && paths[open[t]] == Dirname(paths[n])
    ensures OpenList(paths, n + 1, NextOpen(open, t, n, paths[n]))
  {
    var open' := NextOpen(open, t, n, paths[n]);
    forall u | 0 <= u < |open'|
      ensures Open(paths, open'[u], n + 1)
    {
      if u <= t {
        assert open'[u] == open[u] == open[..t + 1][u];
        OpenStep(paths, n, open, t, open[u]);
      }
    }
    forall k: nat | Open(paths, k, n + 1)
      ensures k in open'
    {
      if k < n {
        OpenStep(paths, n, open, t, k);
        assert k in open[..t + 1];
      } else {
        assert open'[t + 1] == n;
      }
    }
  }

  // ---------------------------------------------------------------------
  // The nodes
  // ---------------------------------------------------------------------

  class Inode {
    const index: nat
    const path: string
    const name: string
    var parent: Inode?
    var children: seq<Inode>
    var offset: int
    var deleted: bool

    constructor (index: nat, path: string, name: string)
      ensures this.index == index && this.path == path && this.name == name
      ensures parent == null && children == [] && offset == 0 && !deleted
    {
      this.index, this.path, this.name := index, path, name;
      parent, children, offset, deleted := null, [], 0, false;
    }
  }

  /** The nodes carry consecutive inode numbers, so they are different nodes. */
  ghost predicate Consecutive(nodes: seq<Inode>) {
    forall i :: 0 <= i < |nodes| ==> nodes[i].index == i
  }

  ghost function Paths(nodes: seq<Inode>): (paths: seq<string>)
    ensures |paths| == |nodes| && forall i :: 0 <= i < |nodes| ==> paths[i] == nodes[i].path
  {
    seq(|nodes|, i requires 0 <= i < |nodes| => nodes[i].path)
  }

  /** The nodes among the first `n` whose parent has number `p`, in the order of the archive. */
  ghost function Kids(nodes: seq<Inode>, par: seq<int>, p: int, n: nat): seq<Inode>
    requires n <= |nodes| && n <= |par|
  {
    if n == 0 then [] else
      Kids(nodes, par, p, n - 1) + if par[n - 1] == p then [nodes[n - 1]] else []
  }

  lemma {:induction false} KidsPrefix(nodes: seq<Inode>, par: seq<int>, j: int, p: int, n: nat)
    requires n <= |nodes| && n <= |par|
    ensures Kids(nodes, par + [j], p, n) == Kids(nodes, par, p, n)
  {
    if n > 0 {
      KidsPrefix(nodes, par, j, p, n - 1);
    }
  }

  /**
   The first `n` nodes are linked as `par` says: the root has no parent, every other node
   the open directory it belongs into, and every node is the child of its parent once, in
   the order of the archive.
   */
  ghost predicate Linked(nodes: seq<Inode>, par: seq<int>, n: nat)
    reads nodes`parent, nodes`children
  {
    && |par| == n <= |nodes|
    && (forall i :: 0 <= i < n ==> -1 <= par[i] < i)
    && (forall i {:trigger par[i]} :: 0 <= i < n ==> nodes[i].parent == if par[i] < 0 then null else nodes[par[i]])
    && (forall i {:trigger Kids(nodes, par, i, n)} :: 0 <= i < |nodes| ==> nodes[i].children == Kids(nodes, par, i, n))
  }

  /** The tree the archive describes: every node but the first is in its own directory. */
  ghost predicate InPlace(nodes: seq<Inode>, par: seq<int>, n: nat)
    requires n <= |par|
  {
    forall i :: 0 <= i < n ==> if i == 0 then par[i] == -1 else par[i] >= 0 && Home(Paths(nodes), par[i], i)
  }

  lemma PlaceStep(nodes: seq<Inode>, n: nat, open: seq<nat>, t: nat, par: seq<int>)
    requires n < |nodes| && OpenList(Paths(nodes), n, open) && t < |open| && |par| == n
    requires nodes[open[t]].path == Dirname(nodes[n].path) && InPlace(nodes, par, n)
    ensures InPlace(nodes, par + [open[t]], n + 1)
    ensures OpenList(Paths(nodes), n + 1, NextOpen(open, t, n, nodes[n].path))
  {
    OpenListStep(Paths(nodes), n, open, t);
    assert Home(Paths(nodes), open[t], n);
  }

  /** A node hangs where its path says. */
  ghost predicate Right(node: Inode)
    reads node
  {
    node.parent != null && node.parent.path == Dirname(node.path)
  }

  // ---------------------------------------------------------------------
  // The pass
  // ---------------------------------------------------------------------

  /** What holds of the two stacks whatever the archive looks like. */
  ghost predicate Stacked(nodes: seq<Inode>, parents: seq<Inode>, paths: seq<string>) {
    |parents| == |paths| && forall k :: 0 <= k < |parents| ==> parents[k] in nodes && paths[k] == parents[k].path
  }

  /** The stack holds the first of the open directories. */
  ghost predicate OnStack(nodes: seq<Inode>, n: nat, parents: seq<Inode>, open: seq<nat>) {
    n <= |nodes| && |parents| <= |open| &&
    forall k :: 0 <= k < |parents| ==> open[k] < n && parents[k] == nodes[open[k]]
  }

  ghost predicate OpenStack(nodes: seq<Inode>, n: nat, parents: seq<Inode>, open: seq<nat>) {
    |open| == |parents| && OnStack(nodes, n, parents, open)
  }

  /** What holds while the archive is depth-first. */
  ghost predicate InState(nodes: seq<Inode>, n: nat, parents: seq<Inode>, open: seq<nat>, par: seq<int>) {
    OpenStack(nodes, n, parents, open) && Placed(nodes, n, open, par) && (n > 0 <==> |parents| > 0)
  }

  /** The entries from `n` on have no parent yet. */
  ghost predicate Unlinked(nodes: seq<Inode>, n: nat)
    reads nodes`parent
  {
    n <= |nodes| && forall i {:trigger nodes[i].parent} :: n <= i < |nodes| ==> nodes[i].parent == null
  }

  ghost predicate Distinct(paths: seq<string>) {
    forall k, l :: 0 <= k < l < |paths| ==> paths[k] != paths[l]
  }

  class Builder {
    var parentStack: seq<Inode>
    var pathStack: seq<string>
    ghost var open: seq<nat>
    ghost var par: seq<int>

    constructor ()
      ensures parentStack == [] && pathStack == [] && open == [] && par == []
    {
      parentStack, pathStack, open, par := [], [], [], [];
    }

    /** Hangs an entry below a directory; the ghost `home` is that directory's number while all is in place. */
    method Attach(ghost nodes: seq<Inode>, ghost n: nat, file: Inode, parent: Inode, ghost home: int)
      requires n < |nodes| && Consecutive(nodes) && file == nodes[n] && parent in nodes
      requires home >= 0 ==> Linked(nodes, par, n) && home < n && nodes[home] == parent
      modifies this`par, parent`children, file`parent
      ensures file.parent == parent && parent.children == old(parent.children) + [file]
      ensures home < 0 ==> par == old(par)
      ensures home >= 0 ==> par == old(par) + [home] && Linked(nodes, par, n + 1)
    {
      ghost var before := par;
      parent.children := parent.children + [file];
      file.parent := parent;
      if home >= 0 {
        par := par + [home];
        forall i | 0 <= i < |nodes|
          ensures nodes[i].children == Kids(nodes, par, i, n + 1)
        {
          KidsPrefix(nodes, before, home, i, n);
        }
      }
    }

    method Push(file: Inode)
      modifies this`parentStack, this`pathStack
      ensures parentStack == old(parentStack) + [file] && pathStack == old(pathStack) + [file.path]
    {
      parentStack := parentStack + [file];
      pathStack := pathStack + [file.path];
    }

    method Pop()
      requires |parentStack| == |pathStack| > 0
      modifies this`parentStack, this`pathStack
      ensures parentStack == old(parentStack)[..|old(parentStack)| - 1]
      ensures pathStack == old(pathStack)[..|old(pathStack)| - 1]
    {
      parentStack := parentStack[..|parentStack| - 1];
      pathStack := pathStack[..|pathStack| - 1];
    }

    /** Pops until the directory is on top; there must be one. */
    method PopTo(dirName: string, ghost t: nat)
      requires |parentStack| == |pathStack| && t < |pathStack| && pathStack[t] == dirName
      modifies this`parentStack, this`pathStack
      ensures t < |pathStack| <= |old(pathStack)| && |parentStack| == |pathStack|
      ensures parentStack == old(parentStack)[..|parentStack|] && pathStack == old(pathStack)[..|pathStack|]
      ensures pathStack[|pathStack| - 1] == dirName && dirName !in old(pathStack)[|pathStack|..]
    {
      ghost var parents, paths := parentStack, pathStack;
      while |parentStack| > 0 && pathStack[|pathStack| - 1] != dirName
        invariant t < |pathStack| <= |paths| && |parentStack| == |pathStack|
        invariant parentStack == parents[..|parentStack|] && pathStack == paths[..|pathStack|]
        invariant dirName !in paths[|pathStack|..]
        decreases |parentStack|
      {
        Pop();
      }
    }

    /** The entry hangs below the directory at place `k` of the stack, which is on top now, or under the entry. */
    twostate predicate Hung(nodes: seq<Inode>, file: Inode, new k: nat)
      reads this, nodes, file
    {
      && k < |old(parentStack)| && file.parent == old(parentStack)[k]
      && parentStack == old(parentStack)[..k + 1] + (if IsDir(file.path) then [file] else [])
      && forall m :: m in nodes ==>
           m.children == old(m.children) + if m == old(parentStack)[k] then [file] else []
    }

    /** The stack ends with the entry's parent: hang the entry there, and open it if it is a directory. */
    method Settle(ghost nodes: seq<Inode>, ghost n: nat, file: Inode, parent: Inode, ghost ready: bool)
      requires n < |nodes| && Consecutive(nodes) && file == nodes[n]
      requires Stacked(nodes, parentStack, pathStack) && |pathStack| > 0
      requires parent == parentStack[|parentStack| - 1]
      requires ready ==> Linked(nodes, par, n) && OnStack(nodes, n, parentStack, open)
      modifies this, parent`children, file`parent
      ensures Stacked(nodes, parentStack, pathStack) && Hung(nodes, file, |old(parentStack)| - 1)
      ensures ready ==> OpenStack(nodes, n + 1, parentStack, open) && Linked(nodes, par, n + 1)
      ensures ready ==> var t := |old(parentStack)| - 1;
                open == NextOpen(old(open), t, n, file.path) && par == old(par) + [old(open)[t]]
    {
      ghost var t := |parentStack| - 1;
      ghost var home := if ready then open[t] else -1;
      Attach(nodes, n, file, parent, home);
      if IsDir(file.path) {
        Push(file);
      }
      if ready {
        open := NextOpen(open, t, n, file.path);
      }
    }

    /** What an entry does to the tree when its directory was at place `t` of the stack. */
    twostate predicate Joined(nodes: seq<Inode>, new n: nat, file: Inode, new t: nat)
      reads this, nodes
    {
      && t < |old(open)| && OpenStack(nodes, n + 1, parentStack, open) && Linked(nodes, par, n + 1)
      && open == NextOpen(old(open), t, n, file.path) && par == old(par) + [old(open)[t]]
    }

    /** Goes back to the entry's directory and hangs the entry there. */
    method Join(nodes: seq<Inode>, ghost n: nat, file: Inode, dirName: string, ghost i: nat, ghost ready: bool)
      returns (ghost t: nat)
      requires n < |nodes| && Consecutive(nodes) && file == nodes[n] && Stacked(nodes, parentStack, pathStack)
      requires i < |pathStack| && pathStack[i] == dirName
      requires ready ==> OpenStack(nodes, n, parentStack, open) && Linked(nodes, par, n)
      modifies this, nodes`children, file`parent
      ensures Stacked(nodes, parentStack, pathStack) && i <= t < |old(pathStack)| && old(pathStack)[t] == dirName
      ensures Hung(nodes, file, t) && dirName !in old(pathStack)[t + 1..]
      ensures ready ==> Joined(nodes, n, file, t)
    {
      PopTo(dirName, i);
      t := |pathStack| - 1;
      Settle(nodes, n, file, parentStack[|parentStack| - 1], ready);
    }

    /** A path that ends with a separator. Answers, as ghost, where on the stack the entry's directory was. */
    method AddDirectory(nodes: seq<Inode>, ghost n: nat, file: Inode, ghost ready: bool)
      returns (crashed: bool, ghost t: int)
      requires n < |nodes| && Consecutive(nodes) && file == nodes[n]
      requires Stacked(nodes, parentStack, pathStack) && |pathStack| > 0
      requires ready ==> OpenStack(nodes, n, parentStack, open) && Linked(nodes, par, n)
      modifies this, nodes`children, file`parent
      ensures !crashed ==> Stacked(nodes, parentStack, pathStack)
      ensures t >= 0 ==> !crashed && t < |old(pathStack)| && old(pathStack)[t] == Dirname(file.path)
      ensures t >= 0 && ready ==> Joined(nodes, n, file, t)
      ensures t >= 0 ==> Hung(nodes, file, t) && Dirname(file.path) !in old(pathStack)[t + 1..]
      ensures t < 0 ==> Dirname(file.path) !in old(pathStack) && (crashed <==> |old(pathStack)| == 1)
      ensures t < 0 && !crashed ==> !Right(file) && Hung(nodes, file, |old(pathStack)| - 2)
    {
      crashed := false;
      var dirName := GetDirname(file.path);
      if dirName == pathStack[|pathStack| - 1] {
        t := Join(nodes, n, file, dirName, |pathStack| - 1, ready);
        return;
      }
      var i := FindPath(pathStack, dirName);
      if i < |pathStack| {
        t := Join(nodes, n, file, dirName, i, ready);
        return;
      }
      // A directory whose own directory is not open goes one level up.
      t := -1;
      Pop();
      if |parentStack| == 0 {
        return true, -1;
      }
      Settle(nodes, n, file, parentStack[|parentStack| - 1], false);
    }

    /** A path that does not end with a separator. An entry whose directory is not open stays without a parent. */
    method AddFile(nodes: seq<Inode>, ghost n: nat, file: Inode, ghost ready: bool) returns (ghost t: int)
      requires n < |nodes| && Consecutive(nodes) && file == nodes[n]
      requires Stacked(nodes, parentStack, pathStack) && |pathStack| > 0
      requires !IsDir(file.path) && file.parent == null
      requires ready ==> OpenStack(nodes, n, parentStack, open) && Linked(nodes, par, n)
      requires ready ==> Distinct(pathStack)
      modifies this, nodes`children, file`parent
      ensures Stacked(nodes, parentStack, pathStack)
      ensures t >= 0 ==> t < |old(pathStack)| && old(pathStack)[t] == Dirname(file.path)
      ensures t >= 0 && ready ==> Joined(nodes, n, file, t)
      ensures t >= 0 && old(Distinct(pathStack)) ==> Hung(nodes, file, t)
      ensures t < 0 ==> Dirname(file.path) !in old(pathStack) && unchanged(this) && unchanged(nodes)
    {
      var dirName := GetDirname(file.path);
      if dirName == pathStack[|pathStack| - 1] {
        t := Join(nodes, n, file, dirName, |pathStack| - 1, ready);
        return;
      }
      t := -1;
      ghost var paths := pathStack;
      var i: nat := 0;
      while i < |parentStack|
        invariant Stacked(nodes, parentStack, pathStack) && -1 <= t < |paths|
        invariant t < 0 ==> unchanged(this) && unchanged(nodes) && i <= |paths| && dirName !in paths[..i]
        invariant t >= 0 ==> paths[t] == dirName
        invariant t >= 0 && old(Distinct(pathStack)) ==> |parentStack| <= i && Hung(nodes, file, t)
        invariant t >= 0 && ready ==> |parentStack| <= i && Joined(nodes, n, file, t)
        decreases |parentStack| - i
      {
        if dirName == pathStack[i] {
          ghost var at := Join(nodes, n, file, dirName, i, ready && t < 0);
          if t < 0 {
            t := at;
          }
        }
        i := i + 1;
      }
    }

    /** The root entry only opens. */
    method AddRoot(nodes: seq<Inode>, ghost n: nat, file: Inode, ghost good: bool)
      requires n < |nodes| && file == nodes[n] && file.path == "/" && Stacked(nodes, parentStack, pathStack)
      requires file.parent == null
      requires good ==> n == 0 && InState(nodes, n, parentStack, open, par) && Linked(nodes, par, n)
      modifies this
      ensures Stacked(nodes, parentStack, pathStack)
      ensures good ==> InState(nodes, n + 1, parentStack, open, par) && Linked(nodes, par, n + 1)
    {
      Push(file);
      if good {
        RootPlaced(nodes);
        open, par := [0], [-1];
        forall i | 0 <= i < |nodes|
          ensures Kids(nodes, par, i, 1) == Kids(nodes, [], i, 0)
        {
          assert Kids(nodes, par, i, 1) == Kids(nodes, par, i, 0) + [];
        }
      }
    }

    /** One entry of the archive. */
    method Add(nodes: seq<Inode>, ghost n: nat, file: Inode, ghost good: bool) returns (crashed: bool)
      requires n < |nodes| && Consecutive(nodes) && file == nodes[n] && file.parent == null
      requires Stacked(nodes, parentStack, pathStack)
      requires good ==> DepthFirst(Paths(nodes), n)
      requires good ==> InState(nodes, n, parentStack, open, par) && Linked(nodes, par, n)
      modifies this, nodes`children, file`parent
      ensures !crashed ==> Stacked(nodes, parentStack, pathStack)
      ensures good && DepthFirst(Paths(nodes), n + 1) ==>
                !crashed && InState(nodes, n + 1, parentStack, open, par) && Linked(nodes, par, n + 1)
      ensures good && !DepthFirst(Paths(nodes), n + 1) && !crashed ==> n > 0 && !Right(file)
    {
      crashed := false;
      if file.path == "/" {
        RootOnlyFirst(nodes, n);
        AddRoot(nodes, n, file, good && n == 0);
        return;
      }
      if |pathStack| == 0 || file.path == "" {
        NowhereToGo(nodes, n);
        return true;
      }
      ghost var t;
      if IsDir(file.path) {
        crashed, t := AddDirectory(nodes, n, file, good);
      } else {
        if good {
          forall k, l | 0 <= k < l < |pathStack|
            ensures pathStack[k] != pathStack[l]
          {
            PlacedUnique(nodes, n, open, par, k, l);
          }
        }
        t := AddFile(nodes, n, file, good);
      }
      if good {
        if t >= 0 {
          PlacedStep(nodes, n, old(open), old(par), t);
        } else {
          PlacedMiss(nodes, n, old(open), old(par));
        }
      }
    }

    /** After `n` entries: all in place, or the entry `wrong` is not. */
    ghost predicate Progress(nodes: seq<Inode>, n: nat, wrong: nat)
      reads this, nodes
    {
      match DepthFirst(Paths(nodes), n)
      case true =>
        Unlinked(nodes, n) && Stacked(nodes, parentStack, pathStack) &&
        InState(nodes, n, parentStack, open, par) && Linked(nodes, par, n)
      case false =>
        Unlinked(nodes, n) && Stacked(nodes, parentStack, pathStack) && 0 < wrong < n && !Right(nodes[wrong])
    }

    method Step(nodes: seq<Inode>, n: nat, ghost wrong: nat) returns (crashed: bool, ghost wrong': nat)
      requires n < |nodes| && Consecutive(nodes) && Progress(nodes, n, wrong)
      modifies this, nodes`children, nodes`parent
      ensures crashed ==> !DepthFirst(Paths(nodes), |nodes|)
      ensures !crashed ==> Progress(nodes, n + 1, wrong')
    {
      ghost var good, next := DepthFirst(Paths(nodes), n), DepthFirst(Paths(nodes), n + 1);
      DepthFirstShrinks(Paths(nodes), n);
      assert !good ==> nodes[wrong] != nodes[n];
      crashed := Add(nodes, n, nodes[n], good);
      wrong' := if good then n else wrong;
    }

    lemma Starts(nodes: seq<Inode>)
      requires parentStack == [] && pathStack == [] && open == [] && par == []
      requires forall i :: 0 <= i < |nodes| ==> nodes[i].parent == null && nodes[i].children == []
      ensures Progress(nodes, 0, 0)
    { }

    lemma Ends(nodes: seq<Inode>, wrong: nat)
      requires Progress(nodes, |nodes|, wrong)
      ensures DepthFirst(Paths(nodes), |nodes|) <==> forall i :: 0 < i < |nodes| ==> Right(nodes[i])
      ensures DepthFirst(Paths(nodes), |nodes|) ==> Linked(nodes, par, |nodes|) && InPlace(nodes, par, |nodes|)
    {
      if DepthFirst(Paths(nodes), |nodes|) {
        forall i | 0 < i < |nodes|
          ensures Right(nodes[i])
        {
          assert Home(Paths(nodes), par[i], i);
        }
      }
    }

    /** The entries from `start` on, one after the other. */
    method Run(nodes: seq<Inode>, start: nat, ghost first: nat) returns (crashed: bool, ghost wrong: nat)
      requires Consecutive(nodes) && start <= |nodes| && Progress(nodes, start, first)
      modifies this, nodes`parent, nodes`children
      ensures crashed ==> !DepthFirst(Paths(nodes), |nodes|)
      ensures !crashed ==> Progress(nodes, |nodes|, wrong)
    {
      crashed, wrong := false, first;
      var n := start;
      while n < |nodes|
        invariant n <= |nodes| && Progress(nodes, n, wrong)
      {
        crashed, wrong := Step(nodes, n, wrong);
        if crashed {
          return;
        }
        n := n + 1;
      }
      crashed := false;
    }
  }

  method FindPath(paths: seq<string>, dirName: string) returns (i: nat)
    ensures i <= |paths| && dirName !in paths[..i]
    ensures i < |paths| ==> paths[i] == dirName
  {
    i := 0;
    while i < |paths| && paths[i] != dirName
      invariant i <= |paths| && dirName !in paths[..i]
    {
      i := i + 1;
    }
  }

  // ---------------------------------------------------------------------
  // The whole archive
  // ---------------------------------------------------------------------

  /** The pass so far, on values: the open directories and the parents found. */
  ghost predicate Placed(nodes: seq<Inode>, n: nat, open: seq<nat>, par: seq<int>) {
    n <= |nodes| && |par| == n && OpenList(Paths(nodes), n, open) && InPlace(nodes, par, n)
  }

  lemma PlacedStep(nodes: seq<Inode>, n: nat, open: seq<nat>, par: seq<int>, t: nat)
    requires n < |nodes| && Placed(nodes, n, open, par) && t < |open|
    requires open[t] < |nodes| && nodes[open[t]].path == Dirname(nodes[n].path)
    requires DepthFirst(Paths(nodes), n)
    ensures Placed(nodes, n + 1, NextOpen(open, t, n, nodes[n].path), par + [open[t]])
    ensures DepthFirst(Paths(nodes), n + 1)
  {
    PlaceStep(nodes, n, open, t, par);
    assert Home(Paths(nodes), open[t], n);
    assert HasHome(Paths(nodes), n);
  }

  lemma PlacedMiss(nodes: seq<Inode>, n: nat, open: seq<nat>, par: seq<int>)
    requires 0 < n < |nodes| && Placed(nodes, n, open, par)
    requires forall t :: 0 <= t < |open| ==> open[t] < |nodes| && nodes[open[t]].path != Dirname(nodes[n].path)
    ensures !DepthFirst(Paths(nodes), n + 1)
  {
    assert !HasHome(Paths(nodes), n) by {
      if j: nat :| Home(Paths(nodes), j, n) {
        assert false;
      }
    }
  }

  lemma RootOnlyFirst(nodes: seq<Inode>, n: nat)
    requires n < |nodes| && nodes[n].path == "/"
    ensures DepthFirst(Paths(nodes), n + 1) <==> n == 0
  {
    var paths := Paths(nodes);
    if n > 0 {
      assert Dirname(paths[n]) == "" by {
        SkipAll(paths[n], 0);
      }
      assert !HasHome(paths, n);
    }
  }

  lemma NowhereToGo(nodes: seq<Inode>, n: nat)
    requires n < |nodes| && nodes[n].path != "/"
    ensures n == 0 || nodes[n].path == "" ==> !DepthFirst(Paths(nodes), n + 1)
  {
    var paths := Paths(nodes);
    if n > 0 && paths[n] == "" {
      assert Dirname(paths[n]) == "";
      assert !HasHome(paths, n);
    }
  }

  /** Open directories have different paths. */
  lemma PlacedUnique(nodes: seq<Inode>, n: nat, open: seq<nat>, par: seq<int>, k: nat, l: nat)
    requires Placed(nodes, n, open, par) && k < l < |open| && open[k] < n && open[l] < n
    ensures nodes[open[k]].path != nodes[open[l]].path
  {
    OpenNested(Paths(nodes), open[k], open[l], n);
  }

  lemma RootPlaced(nodes: seq<Inode>)
    requires nodes != [] && nodes[0].path == "/"
    ensures Placed(nodes, 1, [0], [-1]) && DepthFirst(Paths(nodes), 1)
  { }

  lemma DepthFirstShrinks(paths: seq<string>, n: nat)
    requires n < |paths|
    ensures DepthFirst(paths, n + 1) ==> DepthFirst(paths, n)
    ensures DepthFirst(paths, |paths|) ==> DepthFirst(paths, n + 1)
  { }

  /**
   The stack pass puts every entry into its own directory, without running off the stack,
   exactly when the archive starts with the root and is listed depth first. The tree is
   then the one `par` describes: one parent, one place in its list of children.
   */
  method BuildTree(nodes: seq<Inode>) returns (crashed: bool, ghost par: seq<int>)
    requires Consecutive(nodes)
    requires forall i :: 0 <= i < |nodes| ==> nodes[i].parent == null && nodes[i].children == []
    modifies nodes`parent, nodes`children
    ensures DepthFirst(Paths(nodes), |nodes|) <==>
            !crashed && forall i :: 0 < i < |nodes| ==> Right(nodes[i])
    ensures DepthFirst(Paths(nodes), |nodes|) ==> Linked(nodes, par, |nodes|) && InPlace(nodes, par, |nodes|)
  {
    var builder := new Builder();
    builder.Starts(nodes);
    ghost var wrong;
    crashed, wrong := builder.Run(nodes, 0, 0);
    par := builder.par;
    if !crashed {
      builder.Ends(nodes, wrong);
    }
  }

  /** An entry of a directory that was left is not in its place: a file of it gets no parent. */
  lemma Reopened()
    ensures !DepthFirst(["/", "/a/", "/b", "/a/c"], 4)
  {
    var paths := ["/", "/a/", "/b", "/a/c"];
    DirnameIs("/b", 1, 2, 0, 0);
    assert "/b"[..1] == "/";
    DirnameIs("/a/c", 3, 4, 0, 0);
    assert "/a/c"[..3] == "/a/";
    forall j: nat
      ensures !Home(paths, j, 3)
    {
      if j == 1 {
        assert !Under(paths[1], paths[2]);
      }
    }
    assert !HasHome(paths, 3);
  }

  // ---------------------------------------------------------------------
  // Numbering the children
  // ---------------------------------------------------------------------

  /** Entry `i` lies somewhere below entry `p`. */
  ghost predicate Below(par: seq<int>, i: nat, p: int)
    requires i < |par| && forall k :: 0 <= k < |par| ==> -1 <= par[k] < k
  {
    par[i] >= 0 && (par[i] == p || Below(par, par[i], p))
  }

  /** The child of `p` on the way down to `i`. */
  ghost function Top(par: seq<int>, i: nat, p: int): (c: nat)
    requires i < |par| && (forall k :: 0 <= k < |par| ==> -1 <= par[k] < k) && Below(par, i, p)
    ensures c <= i && par[c] == p
  {
    if par[i] == p then i else Top(par, par[i], p)
  }

  /** How many children its parent has before it. */
  ghost function Rank(nodes: seq<Inode>, par: seq<int>, i: nat): nat
    requires i < |nodes| == |par|
  {
    |Kids(nodes, par, par[i], i)|
  }

  lemma {:induction false} BelowAfter(par: seq<int>, i: nat, p: int)
    requires i < |par| && (forall k :: 0 <= k < |par| ==> -1 <= par[k] < k) && Below(par, i, p)
    ensures p < i
  {
    if par[i] != p {
      BelowAfter(par, par[i], p);
    }
  }

  /** The subtree of a child is what lies below the parent by way of that child. */
  lemma {:induction false} TopIs(par: seq<int>, i: nat, p: nat, c: nat)
    requires i < |par| && c < |par| && (forall k :: 0 <= k < |par| ==> -1 <= par[k] < k) && par[c] == p
    ensures i == c || Below(par, i, c) <==> Below(par, i, p) && Top(par, i, p) == c
  {
    if i != c && par[i] >= 0 {
      if par[i] == p {
        if Below(par, i, c) {
          BelowAfter(par, i, c);
          if par[i] != c {
            BelowAfter(par, par[i], c);
          }
        }
      } else {
        TopIs(par, par[i], p, c);
      }
    }
  }

  lemma {:induction false} AllBelow(par: seq<int>, i: nat)
    requires 0 < i < |par| && (forall k :: 0 <= k < |par| ==> -1 <= par[k] < k)
    requires forall k :: 0 < k < |par| ==> par[k] >= 0
    ensures Below(par, i, 0)
  {
    if par[i] > 0 {
      AllBelow(par, par[i]);
    }
  }

  /** The `k`-th child is an entry of rank `k`. */
  lemma {:induction false} KidsIndex(nodes: seq<Inode>, par: seq<int>, p: int, n: nat, k: nat) returns (c: nat)
    requires n <= |nodes| == |par| && k < |Kids(nodes, par, p, n)|
    ensures c < n && par[c] == p && nodes[c] == Kids(nodes, par, p, n)[k] && Rank(nodes, par, c) == k
  {
    if k < |Kids(nodes, par, p, n - 1)| {
      c := KidsIndex(nodes, par, p, n - 1, k);
    } else {
      c := n - 1;
    }
  }

  /** Every entry is once among the children of its parent, at its rank. */
  lemma {:induction false} KidsAt(nodes: seq<Inode>, par: seq<int>, i: nat, n: nat)
    requires i < n <= |nodes| == |par|
    ensures Rank(nodes, par, i) < |Kids(nodes, par, par[i], n)|
    ensures Kids(nodes, par, par[i], n)[Rank(nodes, par, i)] == nodes[i]
  {
    if i < n - 1 {
      KidsAt(nodes, par, i, n - 1);
    }
  }

  /** Entry `i` already has its number, when the children of `p` before the `k`-th are done. */
  ghost predicate Done(nodes: seq<Inode>, par: seq<int>, i: nat, p: nat, k: nat)
    requires i < |nodes| == |par| && forall j :: 0 <= j < |par| ==> -1 <= par[j] < j
  {
    Below(par, i, p) && Rank(nodes, par, Top(par, i, p)) < k
  }

  lemma DoneNext(nodes: seq<Inode>, par: seq<int>, i: nat, p: nat, c: nat)
    requires i < |nodes| == |par| && (forall j :: 0 <= j < |par| ==> -1 <= par[j] < j)
    requires c < |par| && par[c] == p
    ensures Done(nodes, par, i, p, Rank(nodes, par, c) + 1) <==>
            Done(nodes, par, i, p, Rank(nodes, par, c)) || i == c || Below(par, i, c)
  {
    TopIs(par, i, p, c);
    if Below(par, i, p) && Rank(nodes, par, Top(par, i, p)) == Rank(nodes, par, c) {
      RankInjective(nodes, par, Top(par, i, p), c);
    }
  }

  lemma {:induction false} KidsGrow(nodes: seq<Inode>, par: seq<int>, p: int, m: nat, n: nat)
    requires m <= n <= |nodes| == |par|
    ensures |Kids(nodes, par, p, m)| <= |Kids(nodes, par, p, n)|
  {
    if m < n {
      KidsGrow(nodes, par, p, m, n - 1);
    }
  }

  lemma RankInjective(nodes: seq<Inode>, par: seq<int>, a: nat, b: nat)
    requires a < |nodes| == |par| && b < |nodes| && par[a] == par[b]
    requires Rank(nodes, par, a) == Rank(nodes, par, b)
    ensures a == b
  {
    if a < b {
      KidsGrow(nodes, par, par[a], a + 1, b);
    } else if b < a {
      KidsGrow(nodes, par, par[a], b + 1, a);
    }
  }

  lemma DoneNextAll(nodes: seq<Inode>, par: seq<int>, p: nat, c: nat, k: nat)
    requires |nodes| == |par| && (forall j :: 0 <= j < |par| ==> -1 <= par[j] < j)
    requires c < |par| && par[c] == p && Rank(nodes, par, c) == k
    ensures forall i :: 0 <= i < |nodes| ==>
              (Done(nodes, par, i, p, k + 1) <==> Done(nodes, par, i, p, k) || i == c || Below(par, i, c))
  {
    forall i: nat | i < |nodes|
      ensures Done(nodes, par, i, p, k + 1) <==> Done(nodes, par, i, p, k) || i == c || Below(par, i, c)
    {
      DoneNext(nodes, par, i, p, c);
    }
  }

  lemma DoneAll(nodes: seq<Inode>, par: seq<int>, p: nat)
    requires |nodes| == |par| && (forall j :: 0 <= j < |par| ==> -1 <= par[j] < j)
    ensures forall i :: 0 <= i < |nodes| ==>
              (Done(nodes, par, i, p, |Kids(nodes, par, p, |nodes|)|) <==> Below(par, i, p))
  {
    forall i: nat | i < |nodes|
      ensures Done(nodes, par, i, p, |Kids(nodes, par, p, |nodes|)|) <==> Below(par, i, p)
    {
      if Below(par, i, p) {
        KidsAt(nodes, par, Top(par, i, p), |nodes|);
      }
    }
  }

  /** ustarTree: the children of a directory are numbered from 2 on, and so are theirs. */
  method Number(nodes: seq<Inode>, node: Inode, ghost par: seq<int>, ghost p: nat)
    requires Consecutive(nodes) && Linked(nodes, par, |nodes|) && p < |nodes| && node == nodes[p]
    modifies nodes`offset
    ensures forall i :: 0 <= i < |nodes| ==>
              nodes[i].offset == if Below(par, i, p) then 2 + Rank(nodes, par, i) else old(nodes[i].offset)
    decreases |nodes| - p, 0
  {
    var offset, k := 2, 0;
    while k < |node.children|
      invariant 0 <= k <= |node.children| && offset == 2 + k && Linked(nodes, par, |nodes|)
      invariant forall i :: 0 <= i < |nodes| ==>
                  nodes[i].offset == if Done(nodes, par, i, p, k) then 2 + Rank(nodes, par, i) else old(nodes[i].offset)
    {
      ghost var c := KidsIndex(nodes, par, p, |nodes|, k);
      DoneNextAll(nodes, par, p, c, k);
      NumberChild(nodes, node.children[k], par, c, offset);
      offset := offset + 1;
      k := k + 1;
    }
    DoneAll(nodes, par, p);
  }

  method NumberChild(nodes: seq<Inode>, child: Inode, ghost par: seq<int>, ghost c: nat, offset: int)
    requires Consecutive(nodes) && Linked(nodes, par, |nodes|) && c < |nodes| && child == nodes[c]
    requires offset == 2 + Rank(nodes, par, c)
    modifies nodes`offset
    ensures forall i :: 0 <= i < |nodes| ==>
              nodes[i].offset ==
              if i == c || Below(par, i, c) then 2 + Rank(nodes, par, i) else old(nodes[i].offset)
    decreases |nodes| - c, 1
  {
    child.offset := offset;
    Number(nodes, child, par, c);
    if Below(par, c, c) {
      BelowAfter(par, c, c);
    }
  }

  /** Every directory's children point back to it and carry the numbers 2, 3, and so on. */
  ghost predicate Arranged(nodes: seq<Inode>)
    reads nodes, set i, k | 0 <= i < |nodes| && 0 <= k < |nodes[i].children| :: nodes[i].children[k]
  {
    forall p, k {:trigger nodes[p].children[k]} :: 0 <= p < |nodes| && 0 <= k < |nodes[p].children| ==>
      nodes[p].children[k] in nodes && nodes[p].children[k].parent == nodes[p] &&
      nodes[p].children[k].offset == 2 + k
  }

  lemma NumberedChild(nodes: seq<Inode>, par: seq<int>, p: nat, k: nat)
    requires Linked(nodes, par, |nodes|) && p < |nodes| && k < |nodes[p].children|
    requires forall i :: 0 < i < |nodes| ==> nodes[i].offset == 2 + Rank(nodes, par, i)
    ensures nodes[p].children[k] in nodes && nodes[p].children[k].parent == nodes[p]
    ensures nodes[p].children[k].offset == 2 + k
  {
    assert nodes[p].children == Kids(nodes, par, p, |nodes|);
    var c := KidsIndex(nodes, par, p, |nodes|, k);
  }

  lemma NumberedIsArranged(nodes: seq<Inode>, par: seq<int>)
    requires Linked(nodes, par, |nodes|)
    requires forall i :: 0 < i < |nodes| ==> nodes[i].offset == 2 + Rank(nodes, par, i)
    ensures Arranged(nodes)
  {
    forall p, k | 0 <= p < |nodes| && 0 <= k < |nodes[p].children|
      ensures nodes[p].children[k] in nodes && nodes[p].children[k].parent == nodes[p] &&
              nodes[p].children[k].offset == 2 + k
    {
      NumberedChild(nodes, par, p, k);
    }
  }

  lemma AllBelowRoot(nodes: seq<Inode>, par: seq<int>)
    requires Linked(nodes, par, |nodes|) && InPlace(nodes, par, |nodes|)
    ensures forall i :: 0 < i < |nodes| ==> Below(par, i, 0)
  {
    forall i | 0 < i < |nodes|
      ensures Below(par, i, 0)
    {
      AllBelow(par, i);
    }
  }

  /** Both passes, for an archive that is depth-first. */
  method Arrange(nodes: seq<Inode>) returns (ghost par: seq<int>)
    requires nodes != [] && Consecutive(nodes) && DepthFirst(Paths(nodes), |nodes|)
    requires forall i :: 0 <= i < |nodes| ==> nodes[i].parent == null && nodes[i].children == []
    modifies nodes`parent, nodes`children, nodes`offset
    ensures Linked(nodes, par, |nodes|) && InPlace(nodes, par, |nodes|) && Arranged(nodes)
  {
    var crashed;
    crashed, par := BuildTree(nodes);
    Number(nodes, nodes[0], par, 0);
    AllBelowRoot(nodes, par);
    NumberedIsArranged(nodes, par);
  }
}
