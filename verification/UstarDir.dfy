/**
 Reading a directory of the USTAR tree. A call lists from an offset on as many entries as
 fit; the next call resumes one after the last offset it saw. The entries "." and ".."
 have the offsets 0 and 1, the children those the tree was numbered with.
 */
module UstarDir {
  import opened UstarTree

  const EINVAL: int := 22
  const ENOTDIR: int := 20

  /** Bytes of a directory record before its name. */
  const NAME_OFFSET: nat := 19

  /** What a directory read needs to know of a child. */
  datatype Kid = Kid(ino: nat, off: int, deleted: bool, name: string)

  datatype Record = Record(ino: nat, off: int, reclen: nat, name: string)

  /** The records written, or an error. */
  datatype Reply = Filled(records: seq<Record>) | Failed(error: int)

  /** The record length is kept in sixteen bits. */
  function RecordLength(name: string): (n: nat)
    ensures n < 0x10000
  {
    var n := NAME_OFFSET + |name| + 1;
    if n < 0x10000 then n else n % 0x10000
  }

  function RecordOf(kid: Kid): Record {
    Record(kid.ino, kid.off, RecordLength(kid.name), kid.name)
  }

  function TotalSize(rs: seq<Record>): nat {
    if rs == [] then 0 else rs[0].reclen + TotalSize(rs[1..])
  }

  // ---------------------------------------------------------------------
  // One call
  // ---------------------------------------------------------------------

  /** The children from an offset on that are not deleted. */
  function Rest(kids: seq<Kid>, offset: int): seq<Record> {
    if kids == [] then [] else
      (if kids[0].off < offset || kids[0].deleted then [] else [RecordOf(kids[0])]) + Rest(kids[1..], offset)
  }

  /** As many of the records as there is room and leave for. */
  function Fill(rs: seq<Record>, room: int, entries: int): seq<Record>
    decreases rs
  {
    if rs == [] || entries <= 0 || rs[0].reclen > room then [] else
      [rs[0]] + Fill(rs[1..], room - rs[0].reclen, entries - 1)
  }

  function Dot(ino: nat): Record {
    Record(ino, 0, RecordLength("."), ".")
  }

  function DotDot(ino: nat, offset: int): Record {
    Record(ino, offset, RecordLength(".."), "..")
  }

  /** What a call answers. The two dots need a byte to spare; children do not. */
  function Answer(ino: nat, up: nat, isDir: bool, kids: seq<Kid>, size: nat, offset: int, entries: int): Reply {
    if offset == 0 && RecordLength(".") >= size then Failed(-EINVAL) else
      var dot := if offset == 0 then [Dot(ino)] else [];
      var next := if offset == 0 then 1 else offset;
      if next <= 1 && TotalSize(dot) + RecordLength("..") >= size then
        if offset == 1 then Failed(-EINVAL) else Filled(dot)
      else
        var dots := dot + if next <= 1 then [DotDot(up, next)] else [];
        Children(dots, isDir, kids, size, if next <= 1 then next + 1 else next, entries)
  }

  function Children(dots: seq<Record>, isDir: bool, kids: seq<Kid>, size: nat, offset: int, entries: int): Reply {
    if !isDir then Failed(-ENOTDIR) else
      if (if offset >= 2 then offset - 2 else offset) > |kids| then Failed(-EINVAL) else
        Filled(dots + Fill(Rest(kids, offset), size - TotalSize(dots), entries))
  }

  lemma RestStep(kids: seq<Kid>, i: nat, offset: int)
    requires i < |kids|
    ensures var rest := Rest(kids[i + 1..], offset);
            Rest(kids[i..], offset) ==
            if kids[i].off < offset || kids[i].deleted then rest else [RecordOf(kids[i])] + rest
  { }

  /** One more record: what was still to come now follows it. */
  lemma FillStep(records: seq<Record>, r: Record, rest: seq<Record>, room: int, entries: int)
    requires entries > 0
    ensures r.reclen > room ==> Fill([r] + rest, room, entries) == []
    ensures r.reclen <= room ==>
              records + Fill([r] + rest, room, entries) ==
              records + [r] + Fill(rest, room - r.reclen, entries - 1)
  { }

  lemma {:induction false} TotalSizeAppend(a: seq<Record>, b: seq<Record>)
    ensures TotalSize(a + b) == TotalSize(a) + TotalSize(b)
  {
    if a == [] {
      assert a + b == b;
    } else {
      assert (a + b)[1..] == a[1..] + b;
      TotalSizeAppend(a[1..], b);
    }
  }

  lemma TotalSizeOne(r: Record)
    ensures TotalSize([r]) == r.reclen
  { }

  // ---------------------------------------------------------------------
  // The method
  // ---------------------------------------------------------------------

  ghost function View(children: seq<Inode>): (kids: seq<Kid>)
    reads children
    ensures |kids| == |children|
    ensures forall i :: 0 <= i < |kids| ==>
              kids[i] == Kid(children[i].index, children[i].offset, children[i].deleted, children[i].name)
  {
    seq(|children|, i requires 0 <= i < |children| reads children =>
      Kid(children[i].index, children[i].offset, children[i].deleted, children[i].name))
  }

  lemma TotalSizeSnoc(rs: seq<Record>, r: Record)
    ensures TotalSize(rs + [r]) == TotalSize(rs) + r.reclen
  {
    TotalSizeAppend(rs, [r]);
    TotalSizeOne(r);
  }

  method ReadDir(node: Inode, isDir: bool, size: nat, start: int, limit: int) returns (reply: Reply)
    ensures reply == Answer(node.index, if node.parent != null then node.parent.index else node.index, isDir,
                            View(node.children), size, start, limit)
  {
    var offset, total := start, 0;
    var records: seq<Record> := [];
    if offset == 0 {
      var reclen := RecordLength(".");
      if total + reclen >= size {
        return Failed(-EINVAL);
      }
      TotalSizeSnoc(records, Dot(node.index));
      records := records + [Record(node.index, offset, reclen, ".")];
      offset := offset + 1;
      total := total + reclen;
    }
    assert records == if start == 0 then [Dot(node.index)] else [];
    if offset <= 1 {
      var reclen := RecordLength("..");
      if total + reclen >= size {
        return if start == 1 then Failed(-EINVAL) else Filled(records);
      }
      var ino := if node.parent != null then node.parent.index else node.index;
      TotalSizeSnoc(records, DotDot(ino, offset));
      records := records + [Record(ino, offset, reclen, "..")];
      offset := offset + 1;
      total := total + reclen;
    }
    reply := ReadRest(node.children, isDir, records, size, total, offset, limit);
  }

  method ReadRest(
    children: seq<Inode>, isDir: bool, records: seq<Record>, size: nat, total: nat, offset: int, limit: int)
    returns (reply: Reply)
    requires total == TotalSize(records)
    ensures reply == Children(records, isDir, View(children), size, offset, limit)
  {
    if !isDir {
      return Failed(-ENOTDIR);
    }
    if (if offset >= 2 then offset - 2 else offset) > |children| {
      return Failed(-EINVAL);
    }
    ghost var kids := View(children);
    Starts(kids, offset, size - total, limit);
    ghost var goal := Fill(Rest(kids, offset), size - total, limit);
    var more := ReadChildren(children, size - total, offset, limit, goal, kids);
    reply := Filled(records + more);
  }

  /** What is listed already and what is still to come make the whole. */
  ghost predicate Goes(
    goal: seq<Record>, records: seq<Record>, kids: seq<Kid>, i: nat, offset: int, room: int, limit: int) {
    i <= |kids| && goal == records + Fill(Rest(kids[i..], offset), room, limit)
  }

  lemma Starts(kids: seq<Kid>, offset: int, room: int, limit: int)
    ensures Goes(Fill(Rest(kids, offset), room, limit), [], kids, 0, offset, room, limit)
  {
    assert kids[0..] == kids;
  }

  /** A child before the offset, or a deleted one, is passed over. */
  lemma Passes(goal: seq<Record>, records: seq<Record>, kids: seq<Kid>, i: nat, offset: int, room: int, limit: int)
    requires i < |kids| && Goes(goal, records, kids, i, offset, room, limit)
    requires kids[i].off < offset || kids[i].deleted
    ensures Goes(goal, records, kids, i + 1, offset, room, limit)
  {
    RestStep(kids, i, offset);
  }

  lemma Enough(goal: seq<Record>, records: seq<Record>, kids: seq<Kid>, i: nat, offset: int, room: int, limit: int)
    requires Goes(goal, records, kids, i, offset, room, limit) && (limit <= 0 || i == |kids|)
    ensures goal == records
  {
    assert i == |kids| ==> Rest(kids[i..], offset) == [];
  }

  /** A child is listed if there is room for it. */
  lemma Lists(goal: seq<Record>, records: seq<Record>, kids: seq<Kid>, i: nat, offset: int, room: int, limit: int)
    requires i < |kids| && Goes(goal, records, kids, i, offset, room, limit) && limit > 0
    requires kids[i].off >= offset && !kids[i].deleted
    ensures var r := RecordOf(kids[i]);
            if r.reclen > room then goal == records
            else Goes(goal, records + [r], kids, i + 1, offset, room - r.reclen, limit - 1)
  {
    RestStep(kids, i, offset);
    FillStep(records, RecordOf(kids[i]), Rest(kids[i + 1..], offset), room, limit);
  }

  /** One turn of the loop over the children; `go` says whether there is another. */
  method ReadChild(
    child: Inode, room: int, offset: int, limit: int,
    ghost goal: seq<Record>, records: seq<Record>, ghost kids: seq<Kid>, ghost i: nat)
    returns (more: seq<Record>, size: nat, go: bool)
    requires Goes(goal, records, kids, i, offset, room, limit) && i < |kids|
    requires kids[i] == Kid(child.index, child.offset, child.deleted, child.name)
    ensures |more| <= 1
    ensures if go then Goes(goal, records + more, kids, i + 1, offset, room - size, limit - |more|)
            else more == [] && goal == records
  {
    more, size, go := [], 0, true;
    assert records + more == records;
    if child.offset < offset {
      Passes(goal, records, kids, i, offset, room, limit);
    } else if limit <= 0 {
      Enough(goal, records, kids, i, offset, room, limit);
      go := false;
    } else if child.deleted {
      Passes(goal, records, kids, i, offset, room, limit);
    } else {
      Lists(goal, records, kids, i, offset, room, limit);
      var reclen := RecordLength(child.name);
      if reclen > room {
        go := false;
      } else {
        more, size := [Record(child.index, child.offset, reclen, child.name)], reclen;
      }
    }
  }

  /** The loop over the children, with the room that the dots leave. */
  method ReadChildren(
    children: seq<Inode>, room: int, offset: int, limit: int, ghost goal: seq<Record>, ghost kids: seq<Kid>)
    returns (records: seq<Record>)
    requires |kids| == |children| && forall i :: 0 <= i < |kids| ==>
               kids[i] == Kid(children[i].index, children[i].offset, children[i].deleted, children[i].name)
    requires Goes(goal, [], kids, 0, offset, room, limit)
    ensures records == goal
  {
    var total, entries, i := 0, 0, 0;
    records := [];
    while i < |children|
      invariant 0 <= i <= |children|
      invariant Goes(goal, records, kids, i, offset, room - total, limit - entries)
    {
      var more, size, go := ReadChild(children[i], room - total, offset, limit - entries, goal, records, kids, i);
      if !go {
        return;
      }
      records := records + more;
      total := total + size;
      entries := entries + |more|;
      i := i + 1;
    }
    Enough(goal, records, kids, i, offset, room - total, limit - entries);
  }

  // ---------------------------------------------------------------------
  // Reading on and on
  // ---------------------------------------------------------------------

  /** A directory: its inode, its parent's, and its children. */
  datatype Dir = Dir(ino: nat, up: nat, kids: seq<Kid>)

  datatype Call = Call(size: nat, entries: int)

  function Reading(d: Dir, call: Call, offset: int): Reply {
    Answer(d.ino, d.up, true, d.kids, call.size, offset, call.entries)
  }

  /** The children as the tree was numbered: 2, 3, and so on. */
  ghost predicate Numbered(kids: seq<Kid>) {
    forall i :: 0 <= i < |kids| ==> kids[i].off == 2 + i
  }

  ghost predicate Increasing(kids: seq<Kid>) {
    forall i, j :: 0 <= i < j < |kids| ==> kids[i].off < kids[j].off
  }

  /** All that is left to list from an offset on. */
  function From(d: Dir, offset: nat): seq<Record> {
    if offset == 0 then [Dot(d.ino), DotDot(d.up, 1)] + Rest(d.kids, 2)
    else if offset == 1 then [DotDot(d.up, 1)] + Rest(d.kids, 2)
    else Rest(d.kids, offset)
  }

  /** Where the caller resumes. */
  function Next(offset: int, rs: seq<Record>): int {
    if rs == [] then offset else rs[|rs| - 1].off + 1
  }

  lemma {:induction false} FillPrefix(rs: seq<Record>, room: int, entries: int)
    ensures |Fill(rs, room, entries)| <= |rs|
    ensures Fill(rs, room, entries) == rs[..|Fill(rs, room, entries)|]
    decreases rs
  {
    if rs != [] && entries > 0 && rs[0].reclen <= room {
      FillPrefix(rs[1..], room - rs[0].reclen, entries - 1);
    }
  }

  lemma {:induction false} FillFits(rs: seq<Record>, room: int, entries: int)
    requires room >= 0
    ensures TotalSize(Fill(rs, room, entries)) <= room
    decreases rs
  {
    if rs != [] && entries > 0 && rs[0].reclen <= room {
      FillFits(rs[1..], room - rs[0].reclen, entries - 1);
      var more := Fill(rs[1..], room - rs[0].reclen, entries - 1);
      assert ([rs[0]] + more)[1..] == more;
    }
  }

  lemma {:induction false} RestSame(kids: seq<Kid>, a: int, b: int)
    requires forall i :: 0 <= i < |kids| ==> a <= kids[i].off && b <= kids[i].off
    ensures Rest(kids, a) == Rest(kids, b)
  {
    if kids != [] {
      RestSame(kids[1..], a, b);
    }
  }

  /** A record of the rest comes from a child. */
  lemma {:induction false} RestFrom(kids: seq<Kid>, offset: int, k: nat) returns (i: nat)
    requires k < |Rest(kids, offset)|
    ensures i < |kids| && Rest(kids, offset)[k] == RecordOf(kids[i]) && kids[i].off >= offset
  {
    if kids[0].off < offset || kids[0].deleted {
      i := RestFrom(kids[1..], offset, k);
      i := i + 1;
    } else if k == 0 {
      i := 0;
    } else {
      i := RestFrom(kids[1..], offset, k - 1);
      i := i + 1;
    }
  }

  lemma RestHead(kids: seq<Kid>, offset: int)
    requires kids != []
    ensures var rest := Rest(kids[1..], offset);
            Rest(kids, offset) == if kids[0].off < offset || kids[0].deleted then rest else [RecordOf(kids[0])] + rest
  { }

  lemma IncreasingTail(kids: seq<Kid>)
    requires Increasing(kids) && kids != []
    ensures Increasing(kids[1..])
    ensures forall i :: 0 <= i < |kids[1..]| ==> kids[0].off < kids[1..][i].off
  { }

  /** Resuming after a record leaves exactly what followed it. */
  lemma {:induction false} RestResume(kids: seq<Kid>, offset: int, k: nat, next: int)
    requires Increasing(kids) && 0 < k <= |Rest(kids, offset)| && next == Rest(kids, offset)[k - 1].off + 1
    ensures Rest(kids, next) == Rest(kids, offset)[k..]
  {
    RestHead(kids, offset);
    if kids[0].off < offset || kids[0].deleted {
      ResumeLater(kids, offset, k);
      RestResume(kids[1..], offset, k, next);
      PastHead(kids, next);
    } else {
      HeadListed(kids, offset, k);
      if k > 1 {
        ResumeLater(kids, offset, k - 1);
        RestResume(kids[1..], offset, k - 1, next);
      } else {
        ResumeFirst(kids, offset);
      }
      PastHead(kids, next);
    }
  }

  /** The head of the list is the first record: the others are those of the tail. */
  lemma HeadListed(kids: seq<Kid>, offset: int, k: nat)
    requires kids != [] && kids[0].off >= offset && !kids[0].deleted && 0 < k <= |Rest(kids, offset)|
    ensures |Rest(kids, offset)| == |Rest(kids[1..], offset)| + 1
    ensures Rest(kids, offset)[k..] == Rest(kids[1..], offset)[k - 1..]
    ensures Rest(kids, offset)[k - 1] == if k == 1 then RecordOf(kids[0]) else Rest(kids[1..], offset)[k - 2]
  {
    RestHead(kids, offset);
    TailShift(RecordOf(kids[0]), Rest(kids[1..], offset), k);
  }

  lemma PastHead(kids: seq<Kid>, next: int)
    requires kids != [] && kids[0].off < next
    ensures Rest(kids, next) == Rest(kids[1..], next)
  {
    RestHead(kids, next);
  }

  lemma ResumeLater(kids: seq<Kid>, offset: int, k: nat)
    requires kids != [] && Increasing(kids) && 0 < k <= |Rest(kids[1..], offset)|
    ensures Increasing(kids[1..]) && kids[0].off < Rest(kids[1..], offset)[k - 1].off + 1
  {
    IncreasingTail(kids);
    var i := RestFrom(kids[1..], offset, k - 1);
  }

  lemma ResumeFirst(kids: seq<Kid>, offset: int)
    requires kids != [] && Increasing(kids) && offset <= kids[0].off
    ensures Rest(kids[1..], kids[0].off + 1) == Rest(kids[1..], offset)
  {
    IncreasingTail(kids);
    RestSame(kids[1..], kids[0].off + 1, offset);
  }

  lemma TailShift(r: Record, rest: seq<Record>, k: nat)
    requires 0 < k <= |rest| + 1
    ensures ([r] + rest)[k..] == rest[k - 1..]
    ensures ([r] + rest)[k - 1] == if k == 1 then r else rest[k - 2]
  { }

  lemma NumberedIncreases(kids: seq<Kid>)
    requires Numbered(kids)
    ensures Increasing(kids)
  { }

  /** A call that answers lists a prefix of what is left, and resuming leaves the others. */
  ghost predicate Resumes(d: Dir, offset: nat, rs: seq<Record>) {
    && |rs| <= |From(d, offset)| && rs == From(d, offset)[..|rs|]
    && 0 <= Next(offset, rs) <= |d.kids| + 2
    && From(d, Next(offset, rs)) == From(d, offset)[|rs|..]
  }

  lemma ChildrenResume(d: Dir, offset: nat, rest: seq<Record>, rs: seq<Record>)
    requires Numbered(d.kids) && 2 <= offset <= |d.kids| + 2
    requires rest == Rest(d.kids, offset) && |rs| <= |rest| && rs == rest[..|rs|]
    ensures Resumes(d, offset, rs)
  {
    if rs == [] {
      assert rest[0..] == rest;
    } else {
      var k := |rs|;
      var i := RestFrom(d.kids, offset, k - 1);
      var next := rest[k - 1].off + 1;
      assert next == Next(offset, rs) && 2 < next <= |d.kids| + 2;
      NumberedIncreases(d.kids);
      RestResume(d.kids, offset, k, next);
    }
  }

  /** The dots in front: what resumes without them resumes with them. */
  lemma DotsResume(d: Dir, offset: nat, dots: seq<Record>, rs: seq<Record>)
    requires offset < 2 && Resumes(d, 2, rs)
    requires dots == if offset == 0 then [Dot(d.ino), DotDot(d.up, 1)] else [DotDot(d.up, 1)]
    ensures Resumes(d, offset, dots + rs)
  { }

  lemma FillResumes(d: Dir, offset: nat, room: int, entries: int)
    requires Numbered(d.kids) && 2 <= offset <= |d.kids| + 2
    ensures Resumes(d, offset, Fill(Rest(d.kids, offset), room, entries))
  {
    FillPrefix(Rest(d.kids, offset), room, entries);
    ChildrenResume(d, offset, Rest(d.kids, offset), Fill(Rest(d.kids, offset), room, entries));
  }

  /** The three ways a call can answer. */
  lemma ReadingIs(d: Dir, call: Call, offset: nat)
    requires Reading(d, call, offset).Filled?
    ensures var rs := Reading(d, call, offset).records;
            if offset >= 2 then rs == Fill(Rest(d.kids, offset), call.size, call.entries)
            else
              var dots := if offset == 0 then [Dot(d.ino), DotDot(d.up, 1)] else [DotDot(d.up, 1)];
              (offset == 0 && rs == [Dot(d.ino)] && TotalSize(rs) <= call.size) ||
              (TotalSize(dots) <= call.size &&
               rs == dots + Fill(Rest(d.kids, 2), call.size - TotalSize(dots), call.entries))
  {
    TotalSizeOne(Dot(d.ino));
    TotalSizeOne(DotDot(d.up, 1));
    TotalSizeAppend([Dot(d.ino)], [DotDot(d.up, 1)]);
    assert [Dot(d.ino)] + [DotDot(d.up, 1)] == [Dot(d.ino), DotDot(d.up, 1)];
    assert [] + [DotDot(d.up, 1)] == [DotDot(d.up, 1)];
    if offset >= 2 {
      var rs := Fill(Rest(d.kids, offset), call.size, call.entries);
      assert [] + rs == rs;
    }
  }

  /** Every answer is a piece of the listing, whatever the size of the buffer. */
  lemma ReadingResumes(d: Dir, call: Call, offset: nat)
    requires Numbered(d.kids) && offset <= |d.kids| + 2 && Reading(d, call, offset).Filled?
    ensures Resumes(d, offset, Reading(d, call, offset).records)
  {
    var rs := Reading(d, call, offset).records;
    ReadingIs(d, call, offset);
    if offset >= 2 {
      FillResumes(d, offset, call.size, call.entries);
    } else if offset == 0 && rs == [Dot(d.ino)] {
      DotResumes(d);
    } else {
      var dots := if offset == 0 then [Dot(d.ino), DotDot(d.up, 1)] else [DotDot(d.up, 1)];
      FillResumes(d, 2, call.size - TotalSize(dots), call.entries);
      DotsResume(d, offset, dots, Fill(Rest(d.kids, 2), call.size - TotalSize(dots), call.entries));
    }
  }

  lemma DotResumes(d: Dir)
    ensures Resumes(d, 0, [Dot(d.ino)])
  { }

  // ---------------------------------------------------------------------
  // Whole sessions
  // ---------------------------------------------------------------------

  /** All records of a series of calls, each resuming where the last one that answered ended. */
  ghost function Session(d: Dir, offset: int, calls: seq<Call>): seq<Record>
    decreases calls
  {
    if calls == [] then [] else
      match Reading(d, calls[0], offset)
      case Failed(_) => Session(d, offset, calls[1..])
      case Filled(rs) => rs + Session(d, Next(offset, rs), calls[1..])
  }

  lemma PrefixAppend(all: seq<Record>, a: seq<Record>, b: seq<Record>)
    requires |a| <= |all| && a == all[..|a|] && b <= all[|a|..]
    ensures a + b <= all
  { }

  /** Whatever the buffers, no child is listed twice, none is skipped, and the order is the archive's. */
  lemma {:induction false} SessionIsPrefix(d: Dir, offset: nat, calls: seq<Call>)
    requires Numbered(d.kids) && offset <= |d.kids| + 2
    ensures Session(d, offset, calls) <= From(d, offset)
    decreases calls
  {
    if calls != [] {
      var reply := Reading(d, calls[0], offset);
      if reply.Failed? {
        SessionIsPrefix(d, offset, calls[1..]);
      } else {
        ReadingResumes(d, calls[0], offset);
        var next := Next(offset, reply.records);
        SessionIsPrefix(d, next, calls[1..]);
        PrefixAppend(From(d, offset), reply.records, Session(d, next, calls[1..]));
      }
    }
  }

  /** The call has leave for an entry and room for the next one; the dots need a byte more. */
  ghost predicate Ample(d: Dir, call: Call, offset: nat) {
    call.entries > 0 &&
    (From(d, offset) != [] ==>
       if offset < 2 then From(d, offset)[0].reclen < call.size else From(d, offset)[0].reclen <= call.size)
  }

  /** Such a call gets on. */
  lemma AmpleReads(d: Dir, call: Call, offset: nat)
    requires Ample(d, call, offset) && From(d, offset) != [] && offset <= |d.kids| + 2
    ensures Reading(d, call, offset).Filled? && Reading(d, call, offset).records != []
  { }

  /** At the end of the listing every call answers zero bytes. */
  lemma EndIsZero(d: Dir, call: Call, offset: nat)
    requires offset <= |d.kids| + 2 && From(d, offset) == []
    ensures Reading(d, call, offset) == Filled([])
  { }

  /** Among the children zero bytes means the end, no leave to list, or no room for the next one. */
  lemma ZeroMeans(d: Dir, call: Call, offset: nat)
    requires 2 <= offset <= |d.kids| + 2
    ensures Reading(d, call, offset) == Filled([]) <==>
            From(d, offset) == [] || call.entries <= 0 || From(d, offset)[0].reclen > call.size
  { }

  /** Every call of the session is ample where it is made. */
  ghost predicate AllAmple(d: Dir, offset: nat, calls: seq<Call>)
    decreases calls
  {
    calls == [] ||
    (Ample(d, calls[0], offset) &&
     var reply := Reading(d, calls[0], offset);
     var next := if reply.Filled? then Next(offset, reply.records) else offset;
     next >= 0 && AllAmple(d, next, calls[1..]))
  }

  /** With ample calls, as many as there are entries list everything: ".", "..", and each child once. */
  lemma {:induction false} SessionIsComplete(d: Dir, offset: nat, calls: seq<Call>)
    requires Numbered(d.kids) && offset <= |d.kids| + 2 && AllAmple(d, offset, calls)
    requires |calls| >= |From(d, offset)|
    ensures Session(d, offset, calls) == From(d, offset)
    decreases calls
  {
    var all := From(d, offset);
    if calls == [] {
      assert all == [];
    } else {
      if all == [] {
        EndIsZero(d, calls[0], offset);
      } else {
        AmpleReads(d, calls[0], offset);
      }
      ReadingResumes(d, calls[0], offset);
      var rs := Reading(d, calls[0], offset).records;
      SessionIsComplete(d, Next(offset, rs), calls[1..]);
      SessionStep(d, offset, calls, all, rs);
    }
  }

  lemma SessionStep(d: Dir, offset: nat, calls: seq<Call>, all: seq<Record>, rs: seq<Record>)
    requires calls != [] && Reading(d, calls[0], offset) == Filled(rs)
    requires |rs| <= |all| && rs == all[..|rs|] && Session(d, Next(offset, rs), calls[1..]) == all[|rs|..]
    ensures Session(d, offset, calls) == all
  {
    assert all[..|rs|] + all[|rs|..] == all;
  }

  lemma DotsFit(dots: seq<Record>, rest: seq<Record>, size: nat, entries: int)
    requires TotalSize(dots) <= size
    ensures TotalSize(dots + Fill(rest, size - TotalSize(dots), entries)) <= size
  {
    FillFits(rest, size - TotalSize(dots), entries);
    TotalSizeAppend(dots, Fill(rest, size - TotalSize(dots), entries));
  }

  // What the records say.

  /** The children that are not deleted, in order. */
  function Live(kids: seq<Kid>): seq<Kid> {
    if kids == [] then [] else (if kids[0].deleted then [] else [kids[0]]) + Live(kids[1..])
  }

  /** Inode, offset and name of the child, and 20 bytes beside the name, counted in sixteen bits. */
  ghost predicate Describes(r: Record, kid: Kid) {
    r.ino == kid.ino && r.off == kid.off && r.name == kid.name && r.reclen == (20 + |kid.name|) % 65536
  }

  ghost predicate Describe(rs: seq<Record>, kids: seq<Kid>) {
    |rs| == |kids| && forall k :: 0 <= k < |rs| ==> Describes(rs[k], kids[k])
  }

  lemma RecordDescribes(kid: Kid)
    ensures Describes(RecordOf(kid), kid)
  { }

  lemma DescribeMore(r: Record, kid: Kid, rs: seq<Record>, kids: seq<Kid>)
    requires Describes(r, kid) && Describe(rs, kids)
    ensures Describe([r] + rs, [kid] + kids)
  { }

  lemma {:induction false} RestDescribes(kids: seq<Kid>, offset: int, rs: seq<Record>, live: seq<Kid>)
    requires (forall i :: 0 <= i < |kids| ==> kids[i].off >= offset) && rs == Rest(kids, offset) && live == Live(kids)
    ensures Describe(rs, live)
    decreases kids
  {
    if kids != [] {
      var first, rest := kids[0], kids[1..];
      RestDescribes(rest, offset, Rest(rest, offset), Live(rest));
      if first.deleted {
        assert rs == Rest(rest, offset) && live == Live(rest);
      } else {
        RecordDescribes(first);
        DescribeMore(RecordOf(first), first, Rest(rest, offset), Live(rest));
      }
    }
  }

  /** A whole listing: "." with the directory's inode, ".." with its parent's, and each child that is not deleted. */
  lemma ListingIs(d: Dir)
    requires Numbered(d.kids)
    ensures |From(d, 0)| >= 2
    ensures From(d, 0)[0] == Record(d.ino, 0, 21, ".") && From(d, 0)[1] == Record(d.up, 1, 22, "..")
    ensures Describe(From(d, 0)[2..], Live(d.kids))
  {
    RestDescribes(d.kids, 2, Rest(d.kids, 2), Live(d.kids));
    assert From(d, 0)[2..] == Rest(d.kids, 2);
  }

  /** From an offset on: just the children from there. */
  lemma {:induction false} RestIsTail(kids: seq<Kid>, i: nat, offset: int)
    requires i <= |kids| && (forall k :: 0 <= k < i ==> kids[k].off < offset)
    ensures Rest(kids, offset) == Rest(kids[i..], offset)
    decreases i
  {
    if i == 0 {
      assert kids[0..] == kids;
    } else {
      RestIsTail(kids[1..], i - 1, offset);
      assert kids[1..][i - 1..] == kids[i..];
    }
  }

  lemma TailNumbered(kids: seq<Kid>, i: nat, tail: seq<Kid>)
    requires Numbered(kids) && i <= |kids| && tail == kids[i..]
    ensures forall k :: 0 <= k < |tail| ==> tail[k].off >= i + 2
    ensures forall k :: 0 <= k < i ==> kids[k].off < i + 2
  { }

  lemma ListingFrom(d: Dir, offset: nat, tail: seq<Kid>)
    requires Numbered(d.kids) && 2 <= offset <= |d.kids| + 2 && tail == d.kids[offset - 2..]
    ensures Describe(From(d, offset), Live(tail))
  {
    TailNumbered(d.kids, offset - 2, tail);
    RestIsTail(d.kids, offset - 2, offset);
    RestDescribes(tail, offset, Rest(tail, offset), Live(tail));
  }

  /** With room for both, a first call begins with the dots. */
  lemma DotsListed(d: Dir, call: Call)
    requires call.size > 43
    ensures Reading(d, call, 0).Filled? && |Reading(d, call, 0).records| >= 2
    ensures Reading(d, call, 0).records[..2] == [Record(d.ino, 0, 21, "."), Record(d.up, 1, 22, "..")]
  {
    TotalSizeOne(Dot(d.ino));
  }

  /** When a call fails, and with which error; a buffer without room for ".." still gets ".". */
  lemma WhenFails(ino: nat, up: nat, isDir: bool, kids: seq<Kid>, size: nat, offset: nat, entries: int)
    ensures var reply := Answer(ino, up, isDir, kids, size, offset, entries);
            if (offset == 0 && size <= 21) || (offset == 1 && size <= 22) then reply == Failed(-22)
            else if offset == 0 && size <= 43 then reply == Filled([Record(ino, 0, 21, ".")])
            else if !isDir then reply == Failed(-20)
            else if offset > |kids| + 2 then reply == Failed(-22)
            else reply.Filled?
  {
    TotalSizeOne(Dot(ino));
  }

  /** `n` records fit, and no more could be listed. */
  ghost predicate Stops(rs: seq<Record>, room: int, entries: int, n: nat) {
    && n <= |rs| && n <= (if entries > 0 then entries else 0)
    && (n < |rs| ==> n >= entries || TotalSize(rs[..n]) + rs[n].reclen > room)
  }

  lemma StopsMore(rs: seq<Record>, room: int, entries: int, n: nat)
    requires rs != [] && entries > 0 && Stops(rs[1..], room - rs[0].reclen, entries - 1, n)
    ensures Stops(rs, room, entries, n + 1)
  {
    assert rs[..n + 1][1..] == rs[1..][..n];
  }

  /** A call stops only when the next record does not fit, the limit is reached, or nothing is left. */
  lemma {:induction false} FillStops(rs: seq<Record>, room: int, entries: int, listed: seq<Record>)
    requires listed == Fill(rs, room, entries)
    ensures Stops(rs, room, entries, |listed|) && listed == rs[..|listed|]
    decreases rs
  {
    if rs != [] && entries > 0 && rs[0].reclen <= room {
      var more := Fill(rs[1..], room - rs[0].reclen, entries - 1);
      FillStops(rs[1..], room - rs[0].reclen, entries - 1, more);
      StopsMore(rs, room, entries, |more|);
    }
  }

  // The record length is sixteen bits wide, but a name is copied whole.

  /** How far the fields and names of the records reach, when the first one is put at `at`. */
  function Extent(rs: seq<Record>, at: nat): nat {
    if rs == [] then at else
      var own, others := at + NAME_OFFSET + |rs[0].name|, Extent(rs[1..], at + rs[0].reclen);
      if own > others then own else others
  }

  predicate Whole(r: Record) {
    NAME_OFFSET + |r.name| <= r.reclen
  }

  ghost predicate AllWhole(rs: seq<Record>) {
    forall k :: 0 <= k < |rs| ==> Whole(rs[k])
  }

  lemma {:induction false} ExtentFits(rs: seq<Record>, at: nat)
    requires AllWhole(rs)
    ensures Extent(rs, at) <= at + TotalSize(rs)
  {
    if rs != [] {
      assert Whole(rs[0]);
      assert forall k :: 0 <= k < |rs[1..]| ==> rs[1..][k] == rs[k + 1];
      ExtentFits(rs[1..], at + rs[0].reclen);
    }
  }

  /** The records of children with short names are as long as they say. */
  ghost predicate NamesFit(kids: seq<Kid>) {
    forall i :: 0 <= i < |kids| && !kids[i].deleted ==> NAME_OFFSET + |kids[i].name| + 1 < 0x10000
  }

  lemma {:induction false} RestWhole(kids: seq<Kid>, offset: int, k: nat)
    requires NamesFit(kids) && k < |Rest(kids, offset)|
    ensures Whole(Rest(kids, offset)[k])
  {
    RestHead(kids, offset);
    assert NamesFit(kids[1..]);
    if kids[0].off < offset || kids[0].deleted {
      RestWhole(kids[1..], offset, k);
    } else if k > 0 {
      RestWhole(kids[1..], offset, k - 1);
    }
  }

  lemma RestAllWhole(kids: seq<Kid>, offset: int)
    requires NamesFit(kids)
    ensures AllWhole(Rest(kids, offset))
  {
    forall k | 0 <= k < |Rest(kids, offset)|
      ensures Whole(Rest(kids, offset)[k])
    {
      RestWhole(kids, offset, k);
    }
  }

  /** A reply is the dots that were due and as many children as fit behind them. */
  lemma ReadingParts(d: Dir, call: Call, offset: int) returns (dots: seq<Record>, rest: seq<Record>)
    requires Reading(d, call, offset).Filled?
    ensures TotalSize(dots) <= call.size && AllWhole(dots) && (NamesFit(d.kids) ==> AllWhole(rest))
    ensures Reading(d, call, offset).records == dots + Fill(rest, call.size - TotalSize(dots), call.entries)
  {
    var dot := if offset == 0 then [Dot(d.ino)] else [];
    var next := if offset == 0 then 1 else offset;
    if next <= 1 && TotalSize(dot) + RecordLength("..") >= call.size {
      dots, rest := dot, [];
      assert dots + [] == dots;
    } else {
      dots := dot + if next <= 1 then [DotDot(d.up, next)] else [];
      TotalSizeAppend(dot, if next <= 1 then [DotDot(d.up, next)] else []);
      var begin := if next <= 1 then next + 1 else next;
      rest := Rest(d.kids, begin);
      if NamesFit(d.kids) {
        RestAllWhole(d.kids, begin);
      }
    }
  }

  /** The lengths of the records add up to no more than the buffer. */
  lemma ReadingFits(d: Dir, call: Call, offset: int)
    requires Reading(d, call, offset).Filled?
    ensures TotalSize(Reading(d, call, offset).records) <= call.size
  {
    var dots, rest := ReadingParts(d, call, offset);
    DotsFit(dots, rest, call.size, call.entries);
  }

  /** From its own offset on, a child that is not deleted comes first. */
  lemma {:induction false} RestAt(kids: seq<Kid>, i: nat)
    requires Increasing(kids) && i < |kids| && !kids[i].deleted
    ensures Rest(kids, kids[i].off) != [] && Rest(kids, kids[i].off)[0] == RecordOf(kids[i])
  {
    RestHead(kids, kids[i].off);
    if i > 0 {
      IncreasingTail(kids);
      RestAt(kids[1..], i - 1);
    }
  }

  lemma InsideIfFits(d: Dir, call: Call, offset: int)
    requires NamesFit(d.kids) && Reading(d, call, offset).Filled?
    ensures Extent(Reading(d, call, offset).records, 0) <= call.size
  {
    var dots, rest := ReadingParts(d, call, offset);
    FillPrefix(rest, call.size - TotalSize(dots), call.entries);
    ExtentFits(dots + Fill(rest, call.size - TotalSize(dots), call.entries), 0);
    DotsFit(dots, rest, call.size, call.entries);
  }

  /** A name that is too long for its record is copied past the end of a buffer of just that length. */
  lemma OutsideIfLong(d: Dir, i: nat)
    requires Numbered(d.kids) && i < |d.kids| && !d.kids[i].deleted
    requires NAME_OFFSET + |d.kids[i].name| + 1 >= 0x10000
    ensures var call := Call(RecordLength(d.kids[i].name), 1);
            Reading(d, call, i + 2).Filled? && Extent(Reading(d, call, i + 2).records, 0) > call.size
  {
    var r := RecordOf(d.kids[i]);
    var call := Call(r.reclen, 1);
    NumberedIncreases(d.kids);
    RestAt(d.kids, i);
    var rest := Rest(d.kids, i + 2);
    assert Fill(rest, r.reclen, 1) == [r] + Fill(rest[1..], 0, 0) == [r];
    assert [] + [r] == [r] && Reading(d, call, i + 2) == Filled([r]);
  }

  /** Whatever the call and the offset, the reply stays inside the buffer. */
  ghost predicate Contained(d: Dir) {
    forall call: Call, offset: int :: Reading(d, call, offset).Filled? ==>
      Extent(Reading(d, call, offset).records, 0) <= call.size
  }

  /** Every call stays inside its buffer exactly when no child's name is too long for its record. */
  lemma ReadingInside(d: Dir)
    requires Numbered(d.kids)
    ensures Contained(d) <==> NamesFit(d.kids)
  {
    if NamesFit(d.kids) {
      forall call: Call, offset: int | Reading(d, call, offset).Filled?
        ensures Extent(Reading(d, call, offset).records, 0) <= call.size
      {
        InsideIfFits(d, call, offset);
      }
    } else {
      var i :| 0 <= i < |d.kids| && !d.kids[i].deleted && NAME_OFFSET + |d.kids[i].name| + 1 >= 0x10000;
      OutsideIfLong(d, i);
    }
  }

  /** A child with a name of 65516 characters: its record length is 0, and it goes even into an empty buffer. */
  lemma LongNameOutside(name: string)
    requires |name| == 65516
    ensures var d := Dir(0, 0, [Kid(1, 2, false, name)]);
            && Numbered(d.kids) && Reading(d, Call(0, 1), 2) == Filled([Record(1, 2, 0, name)])
            && Extent([Record(1, 2, 0, name)], 0) == 65535 && !Contained(d)
  {
    var kids := [Kid(1, 2, false, name)];
    var r := RecordOf(kids[0]);
    assert kids[1..] == [] && Rest(kids, 2) == [r] + Rest([], 2) == [r];
    assert [r][1..] == [] && Fill([r], 0, 1) == [r];
    assert [] + [r] == [r];
  }

  /** The children of every directory of an arranged tree are numbered for this. */
  lemma ArrangedIsNumbered(nodes: seq<Inode>, p: nat)
    requires Arranged(nodes) && p < |nodes|
    ensures Numbered(View(nodes[p].children))
  { }

  /** A node of the tree as a directory. */
  ghost function DirOf(node: Inode): Dir
    reads node, node.parent, node.children
  {
    Dir(node.index, if node.parent != null then node.parent.index else node.index, View(node.children))
  }
}
