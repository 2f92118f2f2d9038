/**
 The virtual file system's node cache. Lookups walk a tree of cached nodes and ask the
 file system only for what is missing; creating and removing entries changes both. The
 file system is what it answers: an inode or an error for every directory and name.
 */
module Vfs {
  import opened Path
  import PathJoined

  /** The answer of a file system operation. A missing operation answers ENOTSUP. */
  datatype Outcome = Found(inode: int) | Failed(error: int)

  /** The directory entries a file system reports. */
  type Entries = (int, string) -> Outcome

  function Ask(entries: Entries, inode: int, name: string): Outcome {
    entries(inode, name)
  }

  const EEXIST: int := 17

  /** The walk without a cache: one question to the file system per segment. */
  function Walk(entries: Entries, inode: int, segs: seq<string>): Outcome
    decreases segs
  {
    if segs == [] then Found(inode) else
      match Ask(entries, inode, segs[0])
      case Found(next) => Walk(entries, next, segs[1..])
      case Failed(error) => Failed(error)
  }

  lemma {:induction false} WalkAppend(entries: Entries, inode: int, a: seq<string>, b: seq<string>)
    ensures Walk(entries, inode, a + b) ==
            match Walk(entries, inode, a) case Found(i) => Walk(entries, i, b) case Failed(e) => Failed(e)
    decreases a
  {
    if a == [] {
      assert a + b == b;
    } else {
      assert (a + b)[1..] == a[1..] + b;
      match Ask(entries, inode, a[0])
      case Found(next) => WalkAppend(entries, next, a[1..], b);
      case Failed(_) =>
    }
  }

  /** The segments from the root that a path names when it is looked up in a directory. */
  function Target(directory: string, path: string): seq<string> {
    if IsAbsolute(path) then Resolve(Segments(path), true) else
      Resolve(Segments(directory) + Segments(path), true)
  }

  /** One segment, and not a dot or two. */
  predicate Plain(name: string) {
    IsSegment(name) && name != "." && name != ".."
  }

  /** The text of a path and a name below it. */
  function PathBelow(path: string, name: string): string {
    if path == "/" then "/" + name else path + "/" + name
  }

  class NodeCache {
    var inode: int
    var name: string
    var path: string
    var parent: NodeCache?
    var children: seq<NodeCache>
    /** The names from the root down to this node. */
    ghost var trail: seq<string>

    constructor (inode: int, name: string, path: string, parent: NodeCache?, ghost trail: seq<string>)
      ensures this.inode == inode && this.name == name && this.path == path && this.parent == parent
      ensures children == [] && this.trail == trail
    {
      this.inode, this.name, this.path, this.parent, this.trail := inode, name, path, parent, trail;
      children := [];
    }

    /** The first cached child with that name. */
    method CachedSearch(name: string) returns (child: NodeCache?)
      ensures child == null ==> forall i :: 0 <= i < |children| ==> children[i].name != name
      ensures child != null ==> child in children && child.name == name
    {
      var i := 0;
      while i < |children|
        invariant 0 <= i <= |children|
        invariant forall j :: 0 <= j < i ==> children[j].name != name
      {
        if children[i].name == name {
          return children[i];
        }
        i := i + 1;
      }
      child := null;
    }
  }

  datatype NodeResult = Node(value: NodeCache) | Error(error: int)

  class Virtual {
    const root: NodeCache
    var entries: Entries
    /** Every node handed out so far, and those that hang in the tree. */
    ghost var known: set<NodeCache>
    ghost var attached: set<NodeCache>

    /** A node knows its way up, and its name and path say where it was put. */
    ghost predicate Placed(n: NodeCache)
      reads this, known, n
    {
      && AreSegments(n.trail) && AllOf(Normal, n.trail)
      && n.path == Render(true, n.trail)
      && (n == root || (n.parent != null && n.parent in known && n.trail == n.parent.trail + [n.name]))
    }

    /** The cached children of a node hang below it and are what the file system says. */
    ghost predicate Kids(n: NodeCache)
      reads this, known, n
    {
      forall c :: c in n.children ==>
        c in attached && c in known && c.parent == n && Ask(entries, n.inode, c.name) == Found(c.inode)
    }

    ghost predicate Distinct(n: NodeCache)
      reads known, this, n
    {
      forall i, j :: 0 <= i < j < |n.children| ==>
        n.children[i] in known && n.children[j] in known && n.children[i].name != n.children[j].name
    }

    ghost predicate Hangs(n: NodeCache)
      reads this, known, n
    {
      n == root || (n.parent != null && n.parent in attached && n.parent in known && n in n.parent.children)
    }

    ghost predicate Coherent(n: NodeCache)
      reads this, known, n
    {
      Kids(n) && Distinct(n) && Hangs(n)
    }

    ghost predicate Valid()
      reads this, known
    {
      && root in attached && attached <= known
      && root.parent == null && root.trail == []
      && (forall n {:trigger Placed(n)} :: n in known ==> Placed(n))
      && (forall n {:trigger Coherent(n)} :: n in attached ==> Coherent(n))
    }

    constructor (inode: int, entries: Entries)
      ensures Valid() && root.inode == inode && this.entries == entries
      ensures known == attached == {root} && fresh(root)
    {
      var r := new NodeCache(inode, "/", "/", null, []);
      root, this.entries, known, attached := r, entries, {r}, {r};
    }

    lemma {:induction false} SameTrail(n: NodeCache, m: NodeCache)
      requires Valid() && n in attached && m in attached && n.trail == m.trail
      ensures n == m
      decreases |n.trail|
    {
      assert Placed(n) && Placed(m) && Coherent(n) && Coherent(m);
      if n != root && m != root {
        var p := n.parent;
        assert p.trail == n.trail[..|n.trail| - 1] == m.parent.trail;
        SameTrail(p, m.parent);
        assert Coherent(p);
      }
    }

    /** Wherever a cached node hangs, the walk without the cache comes to the same inode. */
    lemma {:induction false} CacheAgrees(n: NodeCache)
      requires Valid() && n in attached
      ensures Walk(entries, root.inode, n.trail) == Found(n.inode)
      decreases |n.trail|
    {
      assert Placed(n) && Coherent(n);
      if n != root {
        var p := n.parent;
        CacheAgrees(p);
        WalkAppend(entries, root.inode, p.trail, [n.name]);
        assert Coherent(p);
        WalkOne(entries, p.inode, n.name);
      }
    }

    /** A node keeps what it was made with. */
    twostate predicate Same(n: NodeCache)
      reads n
    {
      && n.inode == old(n.inode) && n.name == old(n.name) && n.path == old(n.path)
      && n.parent == old(n.parent) && n.trail == old(n.trail)
    }

    /** Nothing but the list of children of `p` differs, and a new node `c`. */
    twostate predicate Extends(p: NodeCache, new c: NodeCache)
      reads this, known, p
    {
      && old(Valid()) && p in old(attached) && c !in old(known)
      && known == old(known) + {c} && attached == old(attached) + {c}
      && entries == old(entries) && p.children == old(p.children) + [c]
      && (forall n :: n in old(known) ==> n in known && Same(n) && (n != p ==> n.children == old(n.children)))
      && c.parent == p && c.children == [] && Ask(entries, p.inode, c.name) == Found(c.inode)
      && (forall i :: 0 <= i < |old(p.children)| ==> old(p.children)[i] in known && old(p.children)[i].name != c.name)
    }

    twostate lemma PlacedExtended(p: NodeCache, new c: NodeCache)
      requires Extends(p, c)
      ensures forall n {:trigger Placed(n)} :: n in old(known) ==> Placed(n)
    {
      forall n | n in old(known)
        ensures Placed(n)
      {
        assert old(Placed(n));
      }
    }

    twostate lemma CoherentExtended(p: NodeCache, new c: NodeCache)
      requires Extends(p, c)
      ensures forall n {:trigger Coherent(n)} :: n in old(attached) ==> Coherent(n)
    {
      forall n | n in old(attached)
        ensures Coherent(n)
      {
        assert old(Coherent(n));
      }
    }

    twostate lemma PlacedNew(p: NodeCache, new c: NodeCache)
      requires Extends(p, c) && IsSegment(c.name) && KindOf(c.name) == Normal
      requires c.trail == p.trail + [c.name] && c.path == Render(true, c.trail)
      ensures Placed(c)
    {
      assert old(Placed(p));
    }

    twostate lemma CoherentNew(p: NodeCache, new c: NodeCache)
      requires Extends(p, c)
      ensures Coherent(c)
    { }

    twostate lemma ValidExtended(p: NodeCache, new c: NodeCache)
      requires Extends(p, c) && IsSegment(c.name) && KindOf(c.name) == Normal
      requires c.trail == p.trail + [c.name] && c.path == Render(true, c.trail)
      ensures Valid()
    {
      PlacedNew(p, c);
      CoherentNew(p, c);
      PlacedExtended(p, c);
      CoherentExtended(p, c);
    }

    /** A new child of a node in the tree, with the name and path that the caller of Convert fills in. */
    method Attach(p: NodeCache, inode: int, name: string, path: string) returns (c: NodeCache)
      requires Valid() && p in attached && IsSegment(name) && KindOf(name) == Normal
      requires path == Render(true, p.trail + [name])
      requires Ask(entries, p.inode, name) == Found(inode)
      requires forall i :: 0 <= i < |p.children| ==> p.children[i].name != name
      modifies this`known, this`attached, p`children
      ensures Valid() && fresh(c)
      ensures known == old(known) + {c} && attached == old(attached) + {c}
      ensures p.children == old(p.children) + [c]
      ensures c.inode == inode && c.name == name && c.parent == p && c.trail == p.trail + [name]
    {
      assert Placed(p) && Coherent(p);
      c := Convert(p, inode, name, path);
      ValidExtended(p, c);
    }

    /** Convert itself, below any node: one that hangs in the tree takes the new node with it. */
    method Convert(p: NodeCache, inode: int, name: string, path: string) returns (c: NodeCache)
      requires p in known && attached <= known
      modifies this`known, this`attached, p`children
      ensures fresh(c) && known == old(known) + {c}
      ensures attached == old(attached) + if p in old(attached) then {c} else {}
      ensures p.children == old(p.children) + [c] && c.children == []
      ensures c.inode == inode && c.name == name && c.path == path && c.parent == p && c.trail == p.trail + [name]
    {
      c := new NodeCache(inode, name, path, p, p.trail + [name]);
      p.children := p.children + [c];
      known := known + {c};
      attached := attached + if p in attached then {c} else {};
    }

    /** Below a node that is no longer in the tree, a new one disturbs nothing. */
    twostate lemma ValidAside(p: NodeCache, new c: NodeCache)
      requires old(Valid()) && p in old(known) && p !in old(attached) && c !in old(known)
      requires known == old(known) + {c} && attached == old(attached) && entries == old(entries)
      requires forall n :: n in old(known) ==> Same(n) && (n != p ==> n.children == old(n.children))
      requires c.parent == p && Plain(c.name) && c.trail == p.trail + [c.name] && c.path == Render(true, c.trail)
      ensures Valid()
    {
      forall n | n in known
        ensures Placed(n)
      {
        assert old(Placed(if n == c then p else n));
      }
      forall n | n in attached
        ensures Coherent(n)
      {
        assert old(Coherent(n));
      }
    }

    /** What a step down may do to the cache: add nodes and nothing else. */
    twostate predicate Grown()
      reads this
    {
      && old(known) <= known && fresh(known - old(known))
      && old(attached) <= attached && fresh(attached - old(attached))
    }

    /** A result that stands for an outcome: a node of the tree in the right place, or the error. */
    ghost predicate Stands(r: NodeResult, outcome: Outcome, trail: seq<string>)
      reads this, if r.Node? then {r.value} else {}
    {
      match outcome
      case Found(i) => r.Node? && r.value in attached && r.value.inode == i && r.value.trail == trail
      case Failed(e) => r == Error(e)
    }

    /** One turn of the loop in Lookup: the cached child, or the file system's answer made one. */
    method Child(node: NodeCache, name: string, currentPath: string) returns (r: NodeResult, path: string)
      requires Valid() && node in attached && IsSegment(name) && KindOf(name) == Normal
      requires currentPath == Render(true, node.trail)
      modifies this`known, this`attached, node`children
      ensures Valid() && Grown()
      ensures Stands(r, Ask(entries, node.inode, name), node.trail + [name])
      ensures path == Render(true, node.trail + [name])
    {
      assert Placed(node) && Coherent(node);
      RenderChild(node.trail, name);
      path := if currentPath == "/" then currentPath + name else currentPath + "/" + name;
      var cached := node.CachedSearch(name);
      if cached == null {
        match Ask(entries, node.inode, name)
        case Failed(error) =>
          r := Error(error);
        case Found(inode) =>
          var c := Attach(node, inode, name, path);
          r := Node(c);
      } else {
        assert Placed(cached);
        r := Node(cached);
      }
    }

    /** Climbs to the root. */
    method Top(node: NodeCache) returns (base: NodeCache)
      requires Valid() && node in known
      ensures base == root
    {
      base := node;
      while base.parent != null
        invariant base in known
        decreases |base.trail|
      {
        assert Placed(base);
        assert base.parent != null ==> base != root;
        base := base.parent;
      }
      assert Placed(base);
    }

    /** The path after normalising has a root and the segments of the target, all of them names. */
    method NormalizePath(directory: NodeCache, path: string, join: bool) returns (r: string)
      requires Valid() && directory in known && (!join ==> IsAbsolute(path))
      ensures AllOf(Normal, Segments(r)) && r == Render(true, Segments(r))
      ensures Segments(r) == if join then Resolve(Segments(directory.path) + Segments(path), true)
                             else Resolve(Segments(path), true)
    {
      assert Placed(directory);
      assert IsAbsolute(directory.path);
      if join {
        r := PathJoined.Join(directory.path, path);
        NormalRead(directory.path, path);
      } else {
        r := PathJoined.Normalize(path);
        NormalRead(path, "");
        assert Segments("") == [] && Segments(path) + [] == Segments(path);
      }
    }

    /** What Lookup answers. */
    ghost predicate Answered(directory: NodeCache, path: string, r: NodeResult)
      reads this, root, directory, if r.Node? then {r.value} else {}
    {
      var target := Target(directory.path, path);
      if path == "." then r == Node(directory)
      else if path == ".." then r == Node(if directory.parent != null then directory.parent else directory)
      else if target == [] then r == Node(if IsAbsolute(path) then root else directory)
      else Stands(r, Walk(entries, root.inode, target), target)
    }

    /**
     Lookup reaches the inode, or the error, of the walk without a cache, in a node that
     hangs where the path says. A path that leads to the root is answered without a walk:
     with the root when it is absolute, and with the starting directory when it is not.
     */
    method Lookup(directory: NodeCache, path: string) returns (r: NodeResult)
      requires Valid() && directory in known
      modifies this`known, this`attached, attached`children
      ensures Valid() && Grown()
      ensures Answered(directory, path, r)
    {
      if path == "." {
        return Node(directory);
      } else if path == ".." {
        return Node(if directory.parent != null then directory.parent else directory);
      }
      var base, absolute := directory, IsAbsolute(path);
      if absolute {
        base := Top(directory);
      }
      var p := NormalizePath(base, path, !absolute);
      assert Segments(p) == Target(directory.path, path);
      var found, begin, size := FirstSegment(p);
      if !found {
        return Node(base);
      }
      var node := Top(base);
      r := Descend(node, p, begin, size);
    }

    /** The loop of Lookup, from the first segment of a normal path. */
    method Descend(top: NodeCache, p: string, first: nat, length: nat) returns (r: NodeResult)
      requires Valid() && top == root && 0 < length && first + length <= |p|
      requires first + length < |p| ==> p[first + length] == '/'
      requires Segments(p) == [p[first..first + length]] + SegmentsFrom(p, first + length)
      requires AllOf(Normal, Segments(p))
      modifies this`known, this`attached, attached`children
      ensures Valid() && Grown()
      ensures Stands(r, Walk(entries, root.inode, Segments(p)), Segments(p))
    {
      SegmentsArePlain(p, 0);
      ghost var segs := Segments(p);
      ghost var goal := Walk(entries, root.inode, segs);
      var node: NodeCache, begin: nat, size: nat := top, first, length;
      ghost var rest := segs;
      var currentPath := node.path;
      assert Placed(node);
      var found := true;
      while found
        invariant Valid() && Grown() && node in attached
        invariant begin + size <= |p| && (begin + size < |p| ==> p[begin + size] == '/')
        invariant currentPath == Render(true, node.trail)
        invariant node.trail + rest == segs
        invariant found ==> 0 < size && rest == [p[begin..begin + size]] + SegmentsFrom(p, begin + size)
        invariant !found ==> rest == []
        invariant goal == Walk(entries, node.inode, rest)
        decreases |p| - begin, found
      {
        var segment := p[begin..begin + size];
        SegmentAt(node.trail, segment, rest, segs);
        WalkFirst(entries, node.inode, segment, rest);
        var next;
        next, currentPath := Child(node, segment, currentPath);
        if next.Error? {
          return next;
        }
        node := next.value;
        rest := rest[1..];
        assert rest == SegmentsFrom(p, begin + size);
        found, begin, size := NextSegment(p, begin, size);
      }
      r := Node(node);
    }

    /** The cache is still coherent after the file system's entries change exactly when it knows none that did. */
    method Refresh(after: Entries)
      requires Valid()
      modifies this`entries
      ensures entries == after
      ensures Valid() <==> forall n, c :: n in attached && c in n.children ==>
                old(Ask(entries, n.inode, c.name)) == Ask(after, n.inode, c.name)
    {
      entries := after;
      if forall n, c :: n in attached && c in n.children ==>
           old(Ask(entries, n.inode, c.name)) == Ask(after, n.inode, c.name) {
        StillValid();
      } else {
        var n, c :| n in attached && c in n.children &&
                    old(Ask(entries, n.inode, c.name)) != Ask(after, n.inode, c.name);
        assert old(Coherent(n));
        assert !Kids(n) && !Coherent(n);
      }
    }

    twostate lemma StillValid()
      requires old(Valid()) && known == old(known) && attached == old(attached)
      requires forall n :: n in known ==> unchanged(n)
      requires forall n, c :: n in attached && c in n.children ==>
                 old(Ask(entries, n.inode, c.name)) == Ask(entries, n.inode, c.name)
      ensures Valid()
    {
      forall n | n in known
        ensures Placed(n)
      {
        assert old(Placed(n));
      }
      forall n | n in attached
        ensures Coherent(n)
      {
        assert old(Coherent(n));
        assert Kids(n) && Distinct(n) && Hangs(n);
      }
    }

    /** The root's inode, or one that the file system reports. */
    ghost predicate Reported(inode: int)
      reads this, root
    {
      root.inode == inode || exists i, n :: Ask(entries, i, n) == Found(inode)
    }

    lemma AttachedReported(n: NodeCache)
      requires Valid() && n in attached
      ensures Reported(n.inode)
    {
      assert Coherent(n);
      if n != root {
        assert Coherent(n.parent);
        assert Ask(entries, n.parent.inode, n.name) == Found(n.inode);
      }
    }

    /** The file system made that entry, and changed no other one of an inode that it reported before. */
    ghost predicate Created(after: Entries, directory: int, name: string, inode: int)
      reads this, root
    {
      && Ask(after, directory, name) == Found(inode)
      && (forall i, n :: Reported(i) && (i != directory || n != name) ==> Ask(after, i, n) == Ask(entries, i, n))
    }

    lemma CreatedElsewhere(
      after: Entries, directory: NodeCache, name: string, inode: int, n: NodeCache, c: NodeCache)
      requires Valid() && Ask(entries, directory.inode, name).Failed?
      requires Created(after, directory.inode, name, inode)
      requires n in attached && c in n.children
      ensures Ask(after, n.inode, c.name) == Ask(entries, n.inode, c.name)
    {
      assert Coherent(n);
      assert Ask(entries, n.inode, c.name).Found?;
      AttachedReported(n);
    }

    /**
     Create with any name; `made` and `after` are the file system's answer and its entries then, and
     `present` is what Lookup answers before. A new node keeps the cache coherent exactly when its name
     is one plain segment: with any other name it hangs in one place and has the path of another.
     */
    method Create(directory: NodeCache, name: string, errorIfExists: bool, made: Outcome, after: Entries)
      returns (r: NodeResult, ghost present: NodeResult)
      requires Valid() && directory in known
      requires made.Found? ==> Created(after, directory.inode, name, made.inode)
      modifies this`entries, this`known, this`attached, attached`children, directory`children
      ensures Grown()
      ensures present.Node? ==> Valid() && entries == old(entries) && Answered(directory, name, present)
      ensures present.Node? ==> r == if errorIfExists then Error(17) else present
      ensures present.Error? ==> Walk(old(entries), root.inode, Target(directory.path, name)) == Failed(present.error)
      ensures present.Error? && made.Failed? ==> Valid() && entries == old(entries) && r == Error(made.error)
      ensures present.Error? && made.Found? ==>
                entries == after && r.Node? && Made(r.value, directory, name, made.inode)
      ensures present.Error? && made.Found? && old(Ask(entries, directory.inode, name)).Failed? ==>
                (Valid() <==> Plain(name))
      ensures directory in old(attached) && Plain(name) ==>
                Valid() &&
                match old(Ask(entries, directory.inode, name))
                case Found(_) =>
                  entries == old(entries) &&
                  if errorIfExists then r == Error(EEXIST)
                  else Stands(r, old(Ask(entries, directory.inode, name)), directory.trail + [name])
                case Failed(_) =>
                  entries == (if made.Found? then after else old(entries)) &&
                  Stands(r, made, directory.trail + [name])
    {
      assert Placed(directory);
      if directory in attached && Plain(name) {
        PlainTarget(directory, name);
      }
      var found := Lookup(directory, name);
      present := found;
      if found.Node? {
        return if errorIfExists then Error(EEXIST) else found, present;
      }
      if made.Failed? {
        return Error(made.error), present;
      }
      var c := Insert(directory, name, made.inode, after);
      r := Node(c);
    }

    /** Looking up a plain name in a directory of the tree is asking the file system for it. */
    lemma PlainTarget(directory: NodeCache, name: string)
      requires Valid() && directory in attached && Plain(name)
      ensures Target(directory.path, name) == directory.trail + [name] && name != "." && name != ".."
      ensures Walk(entries, root.inode, directory.trail + [name]) == Ask(entries, directory.inode, name)
    {
      assert Placed(directory);
      TargetName(directory.trail, name);
      CacheAgrees(directory);
      WalkAppend(entries, root.inode, directory.trail, [name]);
      WalkOne(entries, directory.inode, name);
      KindNotDots(name);
    }

    /** The node that Create makes. */
    ghost predicate Made(c: NodeCache, directory: NodeCache, name: string, inode: int)
      reads c, directory
    {
      && c.inode == inode && c.name == name && c.parent == directory && c in directory.children
      && c.path == Render(true, Resolve(Segments(PathBelow(directory.path, name)), true))
    }

    /** The path Create writes into a new node. */
    method ChildPath(directory: NodeCache, name: string) returns (path: string)
      requires Valid() && directory in known
      ensures path == Render(true, Resolve(Segments(PathBelow(directory.path, name)), true))
      ensures Plain(name) ==> path == Render(true, directory.trail + [name])
    {
      assert Placed(directory);
      var unnormalized := if directory.path == "/" then "/" + name else directory.path + "/" + name;
      assert IsAbsolute(unnormalized);
      path := NormalizePath(directory, unnormalized, false);
      if Plain(name) {
        RenderChild(directory.trail, name);
        NamesResolve(directory.trail + [name]);
      }
    }

    method Insert(directory: NodeCache, name: string, inode: int, after: Entries) returns (c: NodeCache)
      requires Valid() && directory in known && Created(after, directory.inode, name, inode)
      modifies this`entries, this`known, this`attached, directory`children
      ensures Grown() && entries == after && Made(c, directory, name, inode)
      ensures directory in old(attached) ==> c in attached && c.trail == directory.trail + [name]
      ensures old(Ask(entries, directory.inode, name)).Failed? ==> (Valid() <==> Plain(name))
    {
      var path := ChildPath(directory, name);
      ghost var isNew := Ask(entries, directory.inode, name).Failed?;
      if isNew {
        forall n, c | n in attached && c in n.children
          ensures Ask(after, n.inode, c.name) == Ask(entries, n.inode, c.name)
        {
          CreatedElsewhere(after, directory, name, inode, n, c);
        }
      }
      assert Placed(directory);
      assert directory in attached ==> Coherent(directory);
      Refresh(after);
      label Before:
      c := Convert(directory, inode, name, path);
      if !Plain(name) {
        PlacedIsPlain(c);
      } else if isNew {
        if directory in old(attached) {
          ValidExtended@Before(directory, c);
        } else {
          ValidAside@Before(directory, c);
        }
      }
    }

    /** A node that is in its place has a plain name. */
    lemma PlacedIsPlain(c: NodeCache)
      requires c in known && c != root
      ensures Valid() ==> Plain(c.name)
    {
      if Valid() {
        assert Placed(c);
        assert c.trail[|c.trail| - 1] == c.name;
      }
    }

    /** The file system dropped that name, and changed no other entry of a node that stays. */
    ghost predicate Dropped(after: Entries, directory: NodeCache, name: string)
      reads this, known, directory
    {
      && Ask(after, directory.inode, name).Failed?
      && (forall m, n ::
            m in attached * known && !Below(m, directory, name) && (m.inode != directory.inode || n != name) ==>
            Ask(after, m.inode, n) == Ask(entries, m.inode, n))
    }

    /** A cached node of that inode has a cached child of that name. */
    ghost predicate Stale(inode: int, name: string)
      reads this, known
    {
      exists m, c :: m in attached * known && m.inode == inode && c in m.children && c in known && c.name == name
    }

    /** Another node of the directory's inode, one that a removal leaves in the tree, has a child of that name. */
    ghost predicate Twinned(directory: NodeCache, name: string)
      reads this, known, directory
    {
      exists m, c :: m in attached * known && m != directory && !Below(m, directory, name) &&
        m.inode == directory.inode && c in m.children && c in known && c.name == name
    }

    ghost predicate Below(m: NodeCache, directory: NodeCache, name: string)
      reads m, directory
    {
      directory.trail + [name] <= m.trail
    }

    /** Of the children of a node that stays, only the removed one goes. */
    lemma BelowChild(directory: NodeCache, name: string, n: NodeCache, c: NodeCache)
      requires Valid() && directory in attached && n in attached && c in n.children
      requires !Below(n, directory, name)
      ensures c in known && (Below(c, directory, name) <==> n == directory && c.name == name)
    {
      assert Coherent(n);
      assert Placed(c);
      var cut := directory.trail + [name];
      if cut <= c.trail {
        PrefixLast(cut, n.trail, c.name);
        assert directory.trail == cut[..|cut| - 1] == n.trail;
        SameTrail(directory, n);
      }
    }

    ghost predicate CutsBelow(directory: NodeCache, name: string)
      reads this, known, directory
    {
      forall n, c :: n in attached * known && !Below(n, directory, name) && c in n.children ==>
        c in known && (Below(c, directory, name) <==> n == directory && c.name == name)
    }

    lemma BelowChildren(directory: NodeCache, name: string)
      requires Valid() && directory in attached
      ensures CutsBelow(directory, name)
    {
      forall n, c | n in attached && !Below(n, directory, name) && c in n.children
        ensures c in known && (Below(c, directory, name) <==> n == directory && c.name == name)
      {
        BelowChild(directory, name, n, c);
      }
    }

    /** The cache without the child of that name, if there is one, and without the nodes below it. */
    twostate predicate Unlinked(directory: NodeCache, new name: string)
      reads this, known, directory
    {
      && old(Valid()) && directory in old(attached) && known == old(known) && entries == old(entries)
      && old(CutsBelow(directory, name))
      && Distinct(directory)
      && (forall c :: c in known ==> (c in directory.children <==> c in old(directory.children) && c.name != name))
      && (forall c :: c in directory.children ==> c in known)
      && (forall n :: n in known ==> Same(n) && (n != directory ==> n.children == old(n.children)))
      && attached == (set m | m in old(attached) && !old(Below(m, directory, name)))
    }

    twostate lemma PlacedUnlinked(directory: NodeCache, new name: string)
      requires Unlinked(directory, name)
      ensures forall n {:trigger Placed(n)} :: n in known ==> Placed(n)
    {
      forall n | n in known
        ensures Placed(n)
      {
        assert old(Placed(n));
      }
    }

    twostate lemma KidsUnlinked(directory: NodeCache, new name: string)
      requires Unlinked(directory, name)
      ensures forall n {:trigger Kids(n)} :: n in attached ==> Kids(n)
    {
      forall n | n in attached
        ensures Kids(n)
      {
        assert old(Coherent(n));
      }
    }

    twostate lemma DistinctUnlinked(directory: NodeCache, new name: string)
      requires Unlinked(directory, name)
      ensures forall n {:trigger Distinct(n)} :: n in attached ==> Distinct(n)
    {
      forall n | n in attached
        ensures Distinct(n)
      {
        assert old(Coherent(n));
      }
    }

    twostate lemma HangsUnlinked(directory: NodeCache, new name: string)
      requires Unlinked(directory, name)
      ensures forall n {:trigger Hangs(n)} :: n in attached ==> Hangs(n)
    {
      forall n | n in attached
        ensures Hangs(n)
      {
        assert old(Coherent(n)) && old(Placed(n));
      }
    }

    twostate lemma ValidUnlinked(directory: NodeCache, new name: string)
      requires Unlinked(directory, name)
      ensures Valid()
    {
      PlacedUnlinked(directory, name);
      KidsUnlinked(directory, name);
      DistinctUnlinked(directory, name);
      HangsUnlinked(directory, name);
    }

    method Erase(directory: NodeCache, name: string, i: nat)
      requires directory in known && i <= |directory.children| && Distinct(directory)
      requires forall c :: c in directory.children ==> c in known
      requires forall j :: 0 <= j < i ==> directory.children[j].name != name
      requires i < |directory.children| ==> directory.children[i].name == name
      modifies directory`children
      ensures Distinct(directory)
      ensures forall c :: c in directory.children <==> c in old(directory.children) && c.name != name
    {
      ghost var all := directory.children;
      if i < |directory.children| {
        directory.children := directory.children[..i] + directory.children[i + 1..];
        forall j | 0 <= j < |all| && j != i
          ensures all[j] in directory.children
        {
          assert all[j] == directory.children[if j < i then j else j - 1];
        }
      }
    }

    /** Takes the child at `i`, if there is one, out of the list, and its subtree out of the tree. */
    method Unlink(directory: NodeCache, name: string, i: nat)
      requires Valid() && directory in attached && i <= |directory.children|
      requires forall j :: 0 <= j < i ==> directory.children[j].name != name
      requires i < |directory.children| ==> directory.children[i].name == name
      modifies this`attached, directory`children
      ensures Valid() && attached == set m | m in old(attached) && !Below(m, directory, name)
      ensures forall c :: c in directory.children <==> c in old(directory.children) && c.name != name
    {
      assert Coherent(directory);
      BelowChildren(directory, name);
      ghost var stay := set m | m in attached && !Below(m, directory, name);
      Erase(directory, name, i);
      attached := stay;
      ValidUnlinked(directory, name);
    }

    /** Remove by directory and name; `ret` and `after` are the file system's answer and its entries then. */
    method Remove(directory: NodeCache, name: string, ret: int, after: Entries) returns (r: int)
      requires Valid() && directory in attached
      requires ret == 0 ==> Dropped(after, directory, name)
      modifies this`entries, this`attached, directory`children
      ensures r == ret
      ensures ret != 0 ==> Valid() && entries == old(entries) && attached == old(attached)
      ensures ret != 0 ==> directory.children == old(directory.children)
      ensures ret == 0 ==> entries == after && (Valid() <==> !old(Twinned(directory, name)))
      ensures ret == 0 ==> attached == set m | m in old(attached) && !Below(m, directory, name)
      ensures ret == 0 ==> forall c :: c in directory.children <==> c in old(directory.children) && c.name != name
    {
      r := ret;
      if ret == 0 {
        var i := 0;
        while i < |directory.children| && directory.children[i].name != name
          invariant 0 <= i <= |directory.children|
          invariant forall j :: 0 <= j < i ==> directory.children[j].name != name
        {
          i := i + 1;
        }
        Unlink(directory, name, i);
        ghost var before := entries;
        assert forall m, n :: m in attached && (m.inode != directory.inode || n != name) ==>
            Ask(after, m.inode, n) == Ask(before, m.inode, n);
        assert directory in attached && Coherent(directory);
        TwinIsStale(directory, name);
        DroppedElsewhere(after, directory, name);
        Refresh(after);
      }
    }

    /** What was twinned before the child went is stale afterwards, and nothing else is. */
    twostate lemma TwinIsStale(directory: NodeCache, new name: string)
      requires old(Valid()) && Valid() && directory in old(attached) && known == old(known)
      requires attached == set m | m in old(attached) && !old(Below(m, directory, name))
      requires forall c :: c in directory.children ==> c in known && c.name != name
      requires forall m :: m in known ==> Same(m) && (m != directory ==> m.children == old(m.children))
      ensures Stale(directory.inode, name) <==> old(Twinned(directory, name))
    {
      if m, c :| m in old(attached) && m != directory && !old(Below(m, directory, name)) &&
                 m.inode == directory.inode && c in old(m.children) && c in known && c.name == name {
        assert m in attached * known && c in m.children;
      }
    }

    /** After the child is gone, the entries that the cache knows are the same unless one of them is stale. */
    lemma DroppedElsewhere(after: Entries, directory: NodeCache, name: string)
      requires Valid() && directory in attached && Ask(after, directory.inode, name).Failed?
      requires forall m, n :: m in attached && (m.inode != directory.inode || n != name) ==>
                 Ask(after, m.inode, n) == Ask(entries, m.inode, n)
      ensures (forall n, c :: n in attached && c in n.children ==>
                 Ask(entries, n.inode, c.name) == Ask(after, n.inode, c.name)) <==> !Stale(directory.inode, name)
    {
      forall n | n in attached
        ensures Coherent(n)
      { }
    }

    /**
     From a directory in the tree, Lookup is the walk without a cache for every path but
     one kind: a relative path, other than "." and "..", that leads to the root from
     somewhere else.
     */
    lemma LookupIsWalk(directory: NodeCache, path: string, r: NodeResult)
      requires Valid() && directory in attached && Answered(directory, path, r)
      ensures var target := Target(directory.path, path);
              Stands(r, Walk(entries, root.inode, target), target) <==>
              (target != [] || IsAbsolute(path) || directory == root || path == "." || path == "..")
    {
      assert Placed(directory) && Coherent(directory);
      SegmentsRendered(true, directory.trail);
      CacheAgrees(directory);
      if path == "." {
        TargetDot(directory.trail);
      } else if path == ".." {
        TargetDotDot(directory.trail);
        if directory != root {
          CacheAgrees(directory.parent);
          assert directory.parent.trail == directory.trail[..|directory.trail| - 1];
        }
      }
    }

    /** The kind of path that goes wrong: "../" in any directory right under the root stays in that directory. */
    lemma UpAndSlash(directory: NodeCache, r: NodeResult)
      requires Valid() && directory in attached && directory.parent == root && Answered(directory, "../", r)
      ensures r == Node(directory) && Target(directory.path, "../") == []
      ensures !Stands(r, Walk(entries, root.inode, []), [])
    {
      assert Placed(directory);
      assert directory.trail == [directory.name];
      TargetUpSlash(directory.name);
    }
  }

  /** Two directories of one inode, and a file in it. */
  function Aliased(): Entries {
    (i: int, n: string) =>
      if i == 0 && (n == "a" || n == "b") then Found(1) else if i == 1 && n == "x" then Found(2) else Failed(2)
  }

  function Unaliased(): Entries {
    (i: int, n: string) => if i == 1 && n == "x" then Failed(2) else Ask(Aliased(), i, n)
  }

  /** Looks up the file in one of the directories, and gives that directory's node. */
  method ThroughDirectory(fs: Virtual, name: string) returns (directory: NodeCache, file: NodeCache)
    requires fs.Valid() && fs.root.inode == 0 && fs.entries == Aliased() && (name == "a" || name == "b")
    modifies fs`known, fs`attached, fs.attached`children
    ensures fs.Valid() && fs.Grown()
    ensures directory in fs.attached && directory.trail == [name] && directory.inode == 1
    ensures file in fs.attached && file in directory.children && file.name == "x"
  {
    var names := [name, "x"];
    NamesResolve(names);
    var r := fs.Lookup(fs.root, Render(true, names));
    WalkFirst(fs.entries, 0, name, names);
    WalkOne(fs.entries, 1, "x");
    assert names[1..] == ["x"];
    file := r.value;
    assert fs.Placed(file) && fs.Coherent(file);
    directory := file.parent;
    assert fs.Placed(directory) && fs.Coherent(directory);
    assert directory.trail == names[..1] == [name];
    fs.CacheAgrees(directory);
    WalkOne(fs.entries, 0, name);
  }

  /** A removal through one directory of a shared inode leaves the other one's cached child behind. */
  method AliasGoesStale() returns (fs: Virtual)
    ensures fresh(fs) && fs.entries == Unaliased() && fs.Stale(1, "x") && !fs.Valid()
  {
    fs := new Virtual(0, Aliased());
    var a, x := ThroughDirectory(fs, "a");
    var b, y := ThroughDirectory(fs, "b");
    assert fs.Placed(a) && fs.Placed(b) && a != b;
    assert fs.Dropped(Unaliased(), a, "x");
    var ret := fs.Remove(a, "x", 0, Unaliased());
    assert !fs.Below(b, a, "x");
    assert b in fs.attached * fs.known && y in b.children && y in fs.known;
  }

  /** A file system with that one entry in its root, or with none. */
  function OnlyEntry(name: string, present: bool): Entries {
    (i: int, n: string) => if present && i == 0 && n == name then Found(1) else Failed(2)
  }

  /** Creating a name with a trailing separator makes a node with the path of another name. */
  method SlashGoesAstray(name: string) returns (fs: Virtual, node: NodeCache)
    requires Plain(name)
    ensures fresh(fs) && node.parent == fs.root && node in fs.root.children && node.name == name + "/"
    ensures node.path == Render(true, [name]) && fs.entries == OnlyEntry(name + "/", true) && !fs.Valid()
  {
    fs := new Virtual(0, OnlyEntry(name + "/", false));
    ghost var root := fs.root;
    assert fs.Placed(root) && Render(true, []) == "/";
    TargetSlash(name);
    var r, present := fs.Create(fs.root, name + "/", true, Found(1), OnlyEntry(name + "/", true));
    node := r.value;
  }

  lemma TargetSlash(name: string)
    requires Plain(name)
    ensures Segments(name + "/") == [name] == Target("/", name + "/") && !Plain(name + "/")
    ensures PathBelow("/", name + "/") == "/" + name + "/"
    ensures Resolve(Segments("/" + name + "/"), true) == [name]
  {
    SegmentsCons(name, "/");
    SegmentsRoot("");
    assert "/" + "" == "/" && Segments("") == [];
    SegmentsRoot(name + "/");
    assert "/" + (name + "/") == "/" + name + "/";
    NamesResolve([name]);
    assert [] + [name] == [name];
    assert (name + "/")[|name|] == '/' && name[0] != '/';
  }

  lemma NormalRead(a: string, b: string)
    requires IsAbsolute(a)
    ensures var r := Normal2(a, b);
            AllOf(Normal, Segments(r)) && r == Render(true, Segments(r)) &&
            Segments(r) == Resolve(Segments(a) + Segments(b), true)
  {
    SegmentsArePlain(a, 0);
    SegmentsArePlain(b, 0);
    NormalFormRead(Segments(a) + Segments(b), true);
    ResolvedAbsolute(Segments(a) + Segments(b));
  }

  lemma PrefixLast(cut: seq<string>, trail: seq<string>, last: string)
    requires cut <= trail + [last] && !(cut <= trail)
    ensures cut == trail + [last]
  { }

  lemma KindNotDots(name: string)
    requires KindOf(name) == Normal
    ensures name != "." && name != ".."
  { }

  lemma NamesResolve(names: seq<string>)
    requires AreSegments(names) && AllOf(Normal, names)
    ensures Segments(Render(true, names)) == names && Resolve(names, true) == names
  {
    SegmentsRendered(true, names);
    ResolvedStack([], names, [], true);
    assert [] + names + [] == names;
  }

  lemma TargetDot(trail: seq<string>)
    requires AreSegments(trail) && AllOf(Normal, trail)
    ensures Target(Render(true, trail), ".") == trail
  {
    SegmentsRendered(true, trail);
    OneSegment(".");
    ResolvedStack([], trail, ["."], true);
    assert [] + trail == trail;
  }

  lemma TargetDotDot(trail: seq<string>)
    requires AreSegments(trail) && AllOf(Normal, trail)
    ensures Target(Render(true, trail), "..") == if trail == [] then [] else trail[..|trail| - 1]
  {
    SegmentsRendered(true, trail);
    OneSegment("..");
    ResolveUp(trail, [".."]);
  }

  lemma ResolveUp(trail: seq<string>, up: seq<string>)
    requires AllOf(Normal, trail) && up == [".."]
    ensures Resolve(trail + up, true) == if trail == [] then [] else trail[..|trail| - 1]
  {
    ResolvedStack([], trail, up, true);
    assert [] + trail == trail && up[1..] == [];
  }

  lemma TargetName(trail: seq<string>, name: string)
    requires AreSegments(trail) && AllOf(Normal, trail) && IsSegment(name) && KindOf(name) == Normal
    ensures Target(Render(true, trail), name) == trail + [name]
  {
    SegmentsRendered(true, trail);
    OneSegment(name);
    ResolvedStack([], trail, [name], true);
    assert [] + trail == trail;
  }

  lemma TargetUpSlash(name: string)
    requires IsSegment(name) && KindOf(name) == Normal
    ensures Target(Render(true, [name]), "../") == [] && !IsAbsolute("../")
  {
    SegmentsRendered(true, [name]);
    UpSlashSegments();
    ResolveUp([name], [".."]);
  }

  lemma UpSlashSegments()
    ensures Segments("../") == [".."]
  {
    SegmentsCons("..", "/");
    SegmentsRoot("");
    assert "/" + "" == "/" && ".." + "/" == "../" && Segments("") == [];
  }

  lemma SegmentAt(trail: seq<string>, segment: string, rest: seq<string>, segs: seq<string>)
    requires rest != [] && segment == rest[0] && trail + rest == segs
    requires AreSegments(segs) && AllOf(Normal, segs)
    ensures IsSegment(segment) && KindOf(segment) == Normal && AreSegments(trail)
    ensures (trail + [segment]) + rest[1..] == segs
  {
    assert segs[|trail|] == segment;
    forall i | 0 <= i < |trail|
      ensures trail[i] == segs[i]
    { }
  }

  /** How a child's path is written. */
  lemma RenderChild(trail: seq<string>, name: string)
    requires AreSegments(trail)
    ensures Render(true, trail + [name]) ==
            (if Render(true, trail) == "/" then "/" else Render(true, trail) + "/") + name
  {
    JoinedSnoc(trail, name);
    if trail != [] {
      assert |Joined(trail)| >= |trail[0]|;
    }
  }

  lemma WalkFirst(entries: Entries, inode: int, segment: string, rest: seq<string>)
    requires rest != [] && rest[0] == segment
    ensures Walk(entries, inode, rest) ==
            match Ask(entries, inode, segment) case Found(i) => Walk(entries, i, rest[1..]) case Failed(e) => Failed(e)
  { }

  lemma WalkOne(entries: Entries, inode: int, name: string)
    ensures Walk(entries, inode, [name]) == Ask(entries, inode, name)
  { }
}
