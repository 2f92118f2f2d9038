/**
 The ini_t structure of ini.h: sections and properties in two arrays, changed in place.
 The methods are proved against the functions of IniText and of this module.
 */
module IniStore {
  import opened Buffer
  import opened IniText

  // ---------------------------------------------------------------------
  // Swap-with-last removal
  // ---------------------------------------------------------------------

  function SwapRemove<T>(s: seq<T>, i: nat): (r: seq<T>)
    requires i < |s|
    ensures |r| == |s| - 1
  {
    s[i := s[|s| - 1]][..|s| - 1]
  }

  lemma Regrouped<T>(a: seq<T>, x: T, b: seq<T>, y: T)
    ensures multiset((a + [x]) + (b + [y])) == multiset((a + [y]) + b) + multiset{x}
  {
    assert multiset(a + [x]) == multiset(a) + multiset{x};
    assert multiset(a + [y]) == multiset(a) + multiset{y};
    assert multiset(b + [y]) == multiset(b) + multiset{y};
  }

  lemma SwapRemoveCount<T>(s: seq<T>, i: nat)
    requires i < |s|
    ensures multiset(s) == multiset(SwapRemove(s, i)) + multiset{s[i]}
  {
    var last := |s| - 1;
    if i == last {
      assert s == SwapRemove(s, i) + [s[i]];
    } else {
      var a, b := s[..i], s[i + 1..last];
      assert s == (a + [s[i]]) + (b + [s[last]]);
      assert SwapRemove(s, i) == (a + [s[last]]) + b;
      Regrouped(a, s[i], b, s[last]);
    }
  }

  /** The backwards loop of ini_section_remove from index `p` down. */
  function DropFrom(ps: seq<Property>, p: int, section: int): (r: seq<Property>)
    requires -1 <= p < |ps|
    decreases p
  {
    if p < 0 then ps
    else if ps[p].section == section then DropFrom(SwapRemove(ps, p), p - 1, section)
    else DropFrom(ps, p - 1, section)
  }

  function Renumber(ps: seq<Property>, from: int, to: int): (r: seq<Property>)
    ensures |r| == |ps|
  {
    seq(|ps|, i requires 0 <= i < |ps| => Renumbered(ps[i], from, to))
  }

  /** What ini_section_remove makes of a document. */
  function SectionRemoved(d: Document, section: int): Document {
    if 0 <= section < |d.sections| then
      Document(SwapRemove(d.sections, section),
               Renumber(DropFrom(d.properties, |d.properties| - 1, section), |d.sections| - 1, section))
    else d
  }

  /** Elements moved into a hole were looked at before, so nothing is skipped. */
  lemma {:induction false} DropFromCount(ps: seq<Property>, p: int, section: int, q: Property)
    requires -1 <= p < |ps|
    requires forall i :: p < i < |ps| ==> ps[i].section != section
    ensures multiset(DropFrom(ps, p, section))[q] == if q.section == section then 0 else multiset(ps)[q]
    decreases p
  {
    if p < 0 {
      if q.section == section {
        assert q !in ps;
      }
    } else if ps[p].section == section {
      SwapRemoveCount(ps, p);
      DropFromCount(SwapRemove(ps, p), p - 1, section, q);
    } else {
      DropFromCount(ps, p - 1, section, q);
    }
  }

  function Renumbered(p: Property, from: int, to: int): Property {
    if p.section == from then p.(section := to) else p
  }

  /** How often `q` is in the renumbered list, as long as nothing had the new number before. */
  lemma {:induction false} RenumberCount(ps: seq<Property>, from: int, to: int, q: Property)
    requires from != to && forall p :: p in ps ==> p.section != to
    ensures multiset(Renumber(ps, from, to))[q] ==
              if q.section == from then 0
              else if q.section == to then multiset(ps)[q.(section := from)]
              else multiset(ps)[q]
  {
    var r := Renumber(ps, from, to);
    if ps == [] {
      assert r == [];
    } else {
      var last := |ps| - 1;
      var front := ps[..last];
      RenumberCount(front, from, to, q);
      assert r[..last] == Renumber(front, from, to);
      assert multiset(ps) == multiset(front) + multiset{ps[last]} by { assert ps == front + [ps[last]]; }
      assert multiset(r) == multiset(r[..last]) + multiset{r[last]} by { assert r == r[..last] + [r[last]]; }
      assert ps[last] in ps;
    }
  }

  lemma RenumberSame(ps: seq<Property>, k: int)
    ensures Renumber(ps, k, k) == ps
  { }

  /** The section that ends up at index `k` once `section` is gone: the last one fills the hole. */
  function Source(d: Document, section: int, k: int): int {
    if k == section then |d.sections| - 1 else k
  }

  lemma DropFromMembers(ps: seq<Property>, section: int, p: Property)
    requires p in DropFrom(ps, |ps| - 1, section)
    ensures p.section != section && p in ps
  {
    DropFromCount(ps, |ps| - 1, section, p);
    assert multiset(DropFrom(ps, |ps| - 1, section))[p] > 0;
  }

  lemma SectionRemovedValid(d: Document, section: int)
    requires Valid(d) && 0 <= section < |d.sections|
    ensures Valid(SectionRemoved(d, section))
  {
    var last := |d.sections| - 1;
    var ps := DropFrom(d.properties, |d.properties| - 1, section);
    forall p | p in Renumber(ps, last, section)
      ensures 0 <= p.section < last
    {
      var i :| 0 <= i < |ps| && p == Renumber(ps, last, section)[i];
      DropFromMembers(d.properties, section, ps[i]);
    }
  }

  /**
   Removing a section takes away exactly its properties: every other section keeps its
   name and its properties.
   */
  lemma SectionRemovedKeeps(d: Document, section: int, k: int, name: string, value: string)
    requires Valid(d) && 0 <= section < |d.sections| && 0 <= k < |d.sections| - 1
    ensures var r := SectionRemoved(d, section);
      && |r.sections| == |d.sections| - 1
      && r.sections[k] == d.sections[Source(d, section, k)]
      && multiset(r.properties)[Property(k, name, value)]
         == multiset(d.properties)[Property(Source(d, section, k), name, value)]
  {
    var last := |d.sections| - 1;
    var ps := DropFrom(d.properties, |d.properties| - 1, section);
    forall p | p in ps
      ensures p.section != section
    {
      DropFromMembers(d.properties, section, p);
    }
    if section == last {
      RenumberSame(ps, last);
    } else {
      RenumberCount(ps, last, section, Property(k, name, value));
    }
    DropFromCount(d.properties, |d.properties| - 1, section, Property(Source(d, section, k), name, value));
  }

  // ---------------------------------------------------------------------
  // Properties by position within their section
  // ---------------------------------------------------------------------

  /** How many properties of `section` come before index `i`. */
  function Rank(ps: seq<Property>, section: int, i: nat): nat
    requires i <= |ps|
  {
    |OfSection(ps[..i], section)|
  }

  /** The index of the property with rank `k` in `section`, or -1. */
  function Select(ps: seq<Property>, section: int, k: int): (i: int)
    ensures -1 <= i < |ps|
  {
    if ps == [] then -1
    else if ps[0].section == section && k == 0 then 0
    else
      var i := Select(ps[1..], section, if ps[0].section == section then k - 1 else k);
      if i == -1 then -1 else i + 1
  }

  lemma {:induction false} SelectFinds(ps: seq<Property>, section: int, k: int)
    ensures var i := Select(ps, section, k);
      && (i != -1 <==> 0 <= k < |OfSection(ps, section)|)
      && (i != -1 ==> ps[i].section == section && Rank(ps, section, i) == k && ps[i] == OfSection(ps, section)[k])
  {
    if ps != [] && !(ps[0].section == section && k == 0) {
      var k' := if ps[0].section == section then k - 1 else k;
      SelectFinds(ps[1..], section, k');
      var i := Select(ps[1..], section, k');
      if i != -1 {
        RankStep(ps, section, i + 1);
      }
    }
  }

  lemma RankStep(ps: seq<Property>, section: int, i: nat)
    requires 0 < i <= |ps|
    ensures Rank(ps, section, i) == Rank(ps[1..], section, i - 1) + if ps[0].section == section then 1 else 0
  {
    assert ps[..i][1..] == ps[1..][..i - 1];
  }

  lemma RankNext(ps: seq<Property>, section: int, i: nat)
    requires i < |ps|
    ensures Rank(ps, section, i + 1) == Rank(ps, section, i) + if ps[i].section == section then 1 else 0
  {
    assert ps[..i + 1] == ps[..i] + [ps[i]];
    OfSectionAppend(ps[..i], [ps[i]], section);
    assert [ps[i]][1..] == [];
  }

  lemma {:induction false} SelectRank(ps: seq<Property>, section: int, i: nat)
    requires i < |ps| && ps[i].section == section
    ensures Select(ps, section, Rank(ps, section, i)) == i
  {
    if i > 0 {
      RankStep(ps, section, i);
      SelectRank(ps[1..], section, i - 1);
    }
  }

  function PropertyRemoved(d: Document, section: int, property: int): Document {
    if 0 <= section < |d.sections| && Select(d.properties, section, property) != -1 then
      d.(properties := SwapRemove(d.properties, Select(d.properties, section, property)))
    else d
  }

  /** Exactly the addressed property is gone. */
  lemma PropertyRemovedKeeps(d: Document, section: int, property: int)
    requires Valid(d) && 0 <= section < |d.sections| && 0 <= property < |OfSection(d.properties, section)|
    ensures var r := PropertyRemoved(d, section, property);
      && Valid(r) && r.sections == d.sections
      && multiset(d.properties) == multiset(r.properties) + multiset{OfSection(d.properties, section)[property]}
  {
    SelectFinds(d.properties, section, property);
    var i := Select(d.properties, section, property);
    var r := SwapRemove(d.properties, i);
    SwapRemoveCount(d.properties, i);
    forall p | p in r
      ensures p in d.properties
    {
      assert p in multiset(r);
      assert p in multiset(d.properties);
    }
  }

  /** A section or a property that is not there is not removed. */
  lemma NothingRemoved(d: Document, section: int, property: int)
    requires section < 0 || section >= |d.sections| ||
             property < 0 || property >= |OfSection(d.properties, section)|
    ensures PropertyRemoved(d, section, property) == d
    ensures section < 0 || section >= |d.sections| ==> SectionRemoved(d, section) == d
  {
    SelectFinds(d.properties, section, property);
  }

  // ---------------------------------------------------------------------
  // Names without regard to case
  // ---------------------------------------------------------------------

  function Lower(c: char): char {
    if 'A' <= c <= 'Z' then c + ' ' else c
  }

  /** strncasecmp gives zero on strings of this length. */
  predicate Matches(name: string, other: string) {
    |name| == |other| && forall i :: 0 <= i < |name| ==> Lower(name[i]) == Lower(other[i])
  }

  const CAPITALS: string := "ABCDEFGHIJKLMNOPQRSTUVWXYZ"
  const SMALL: string := "abcdefghijklmnopqrstuvwxyz"

  /** The `k`-th letter, once as a capital and once not. */
  ghost predicate CasePair(a: char, b: char, k: int) {
    0 <= k < 26 && ((a == CAPITALS[k] && b == SMALL[k]) || (a == SMALL[k] && b == CAPITALS[k]))
  }

  /** The same character, or a letter of the alphabet and its capital. */
  ghost predicate SameLetter(a: char, b: char) {
    a == b || exists k :: CasePair(a, b, k)
  }

  lemma LettersAre(k: nat)
    requires k < 26
    ensures CAPITALS[k] as int == 'A' as int + k && SMALL[k] as int == 'a' as int + k
  { }

  lemma PairLowers(a: char, b: char, k: int)
    requires CasePair(a, b, k)
    ensures Lower(a) == Lower(b)
  {
    LettersAre(k);
  }

  lemma LowerPairs(a: char, b: char) returns (k: int)
    requires a != b && Lower(a) == Lower(b)
    ensures CasePair(a, b, k)
  {
    k := (if 'A' <= a <= 'Z' then a else b) as int - 'A' as int;
    LettersAre(k);
  }

  lemma LowerIsSameLetter(a: char, b: char)
    ensures Lower(a) == Lower(b) <==> SameLetter(a, b)
  {
    if a != b && Lower(a) == Lower(b) {
      var k := LowerPairs(a, b);
    } else if k :| CasePair(a, b, k) {
      PairLowers(a, b, k);
    }
  }

  /** Texts match exactly when they differ in nothing but the case of letters. */
  lemma MatchesIsSameLetters(name: string, other: string)
    ensures Matches(name, other) <==>
            |name| == |other| && forall i :: 0 <= i < |name| ==> SameLetter(name[i], other[i])
  {
    forall i | 0 <= i < |name| == |other|
      ensures Lower(name[i]) == Lower(other[i]) <==> SameLetter(name[i], other[i])
    {
      LowerIsSameLetter(name[i], other[i]);
    }
  }

  lemma {:induction false} BlanksSkipped(data: string, from: nat, end: nat)
    requires from <= end <= |data| && forall i :: from <= i < end ==> data[i] != NUL && Blank(data[i])
    ensures Items(data, from) == Items(data, end)
    decreases end
  {
    if from < end {
      BlanksSkipped(data, from, end - 1);
      ItemsStep(data, end - 1, Found([], end));
    }
  }

  lemma {:induction false} LinesNext(ps: seq<Property>, section: int, i: nat)
    requires i < |ps|
    ensures Lines(ps[..i + 1], section)
         == Lines(ps[..i], section) + if ps[i].section == section then Line(ps[i]) else ""
  {
    if i == 0 {
      assert ps[..1][1..] == [];
    } else {
      assert ps[..i + 1][1..] == ps[1..][..i] && ps[..i][1..] == ps[1..][..i - 1];
      LinesNext(ps[1..], section, i - 1);
    }
  }

  lemma PassBuilt(d: Document, data: string, i: nat, f: Found)
    requires i < |data| && data[i] != NUL && f == Pass(data, i)
    ensures Build(d, Items(data, i)) == Build(Build(d, f.items), Items(data, f.next))
  {
    ItemsStep(data, i, f);
    BuildAppend(d, f.items, Items(data, f.next));
  }

  lemma BuildOne(d: Document, item: Item)
    ensures Build(d, [item]) == Extend(d, item)
  { }

  /** The source stores an empty value as one character of an empty string. */
  lemma NulIsEmpty()
    ensures Taken([NUL], 0, 1) == ""
  { }

  lemma ValueTaken(data: string, v: nat, z: nat)
    requires v <= |data| && v < z <= Span(data, v, LineEnd)
    ensures Taken(data, v, z - v) == data[v..z]
  {
    SpanScanned(data, v, LineEnd);
    SpanAtLeast(data, v, z, TextEnd);
  }

  // ---------------------------------------------------------------------
  // The structure
  // ---------------------------------------------------------------------

  lemma TextStep(d: Document, s: nat, text: string, next: string)
    requires s < |d.sections| && text == Text(d, s)
    requires next == Closed(text + Header(d.sections[s]) + Lines(d.properties, s))
    ensures next == Text(d, s + 1)
  { }

  class Ini {
    var sections: seq<string>
    var properties: seq<Property>

    function Contents(): Document
      reads this
    {
      Document(sections, properties)
    }

    constructor ()
      ensures Contents() == EMPTY
    {
      sections, properties := [""], [];
    }

    /** A pointer argument of the source is a text and an index into it. */
    method SectionAdd(name: string, from: nat, length: int) returns (index: int)
      requires from <= |name| && from + length <= |name|
      modifies this
      ensures Contents() == Extend(old(Contents()), Section(Taken(name, from, length)))
      ensures index == |old(sections)|
      ensures Valid(old(Contents())) ==> Valid(Contents())
    {
      index := |sections|;
      sections := sections + [Taken(name, from, length)];
    }

    method PropertyAdd(section: int, name: string, nameFrom: nat, nameLength: int,
                       value: string, valueFrom: nat, valueLength: int)
      requires nameFrom <= |name| && nameFrom + nameLength <= |name|
      requires valueFrom <= |value| && valueFrom + valueLength <= |value|
      modifies this
      ensures sections == old(sections)
      ensures properties == old(properties) +
                if 0 <= section < |sections|
                then [Property(section, Taken(name, nameFrom, nameLength), Taken(value, valueFrom, valueLength))]
                else []
      ensures Valid(old(Contents())) ==> Valid(Contents())
    {
      if 0 <= section < |sections| {
        var property := Property(section, Taken(name, nameFrom, nameLength), Taken(value, valueFrom, valueLength));
        properties := properties + [property];
      }
    }

    method SectionRemove(section: int)
      modifies this
      ensures Contents() == SectionRemoved(old(Contents()), section)
      ensures Valid(old(Contents())) ==> Valid(Contents())
    {
      ghost var d := Contents();
      if 0 <= section < |sections| {
        var p := |properties| - 1;
        while p >= 0
          invariant -1 <= p < |properties|
          invariant sections == d.sections
          invariant DropFrom(properties, p, section) == DropFrom(d.properties, |d.properties| - 1, section)
        {
          if properties[p].section == section {
            properties := SwapRemove(properties, p);
          }
          p := p - 1;
        }
        sections := SwapRemove(sections, section);
        ghost var kept := properties;
        p := 0;
        while p < |properties|
          invariant 0 <= p <= |properties| == |kept|
          invariant sections == SwapRemove(d.sections, section)
          invariant forall i :: 0 <= i < p ==> properties[i] == Renumber(kept, |sections|, section)[i]
          invariant forall i :: p <= i < |kept| ==> properties[i] == kept[i]
        {
          if properties[p].section == |sections| {
            properties := properties[p := properties[p].(section := section)];
          }
          p := p + 1;
        }
        assert properties == Renumber(kept, |sections|, section);
        if Valid(d) {
          SectionRemovedValid(d, section);
        }
      }
    }

    method PropertyIndex(section: int, property: int) returns (index: int)
      ensures index == if 0 <= section < |sections| then Select(properties, section, property) else -1
    {
      if 0 <= section < |sections| {
        var p := 0;
        var i := 0;
        while i < |properties|
          invariant 0 <= i <= |properties| && p == Rank(properties, section, i)
          invariant p <= property || property < 0
        {
          RankNext(properties, section, i);
          if properties[i].section == section {
            if p == property {
              SelectRank(properties, section, i);
              return i;
            }
            p := p + 1;
          }
          i := i + 1;
        }
        assert properties[..i] == properties;
        SelectFinds(properties, section, property);
      }
      return -1;
    }

    method PropertyRemove(section: int, property: int)
      modifies this
      ensures Contents() == PropertyRemoved(old(Contents()), section, property)
    {
      var p := PropertyIndex(section, property);
      if p != -1 {
        properties := SwapRemove(properties, p);
      }
    }

    method PropertyCount(section: int) returns (count: int)
      ensures count == |OfSection(properties, section)|
    {
      count := 0;
      for i := 0 to |properties|
        invariant count == Rank(properties, section, i)
      {
        RankNext(properties, section, i);
        if properties[i].section == section {
          count := count + 1;
        }
      }
      assert properties[..|properties|] == properties;
    }

    /** The first section of that name, or -1. */
    method FindSection(name: string, length: int) returns (index: int)
      requires length <= |name|
      ensures var key := name[..if length <= 0 then Span(name, 0, TextEnd) else length];
        && -1 <= index < |sections|
        && (index != -1 ==> Matches(key, sections[index]))
        && (forall k :: 0 <= k < (if index == -1 then |sections| else index) ==> !Matches(key, sections[k]))
    {
      var key := name[..if length <= 0 then Span(name, 0, TextEnd) else length];
      for i := 0 to |sections|
        invariant forall k :: 0 <= k < i ==> !Matches(key, sections[k])
      {
        if Matches(key, sections[i]) {
          return i;
        }
      }
      return -1;
    }

    /** The rank within the section of the first property of that name, or -1. */
    method FindProperty(section: int, name: string, length: int) returns (rank: int)
      requires length <= |name|
      ensures 0 <= section < |sections| || rank == -1
      ensures var key := name[..if length <= 0 then Span(name, 0, TextEnd) else length];
        var ps := OfSection(properties, section);
        && -1 <= rank < |ps|
        && (rank != -1 ==> Matches(key, ps[rank].name))
        && (0 <= section < |sections| ==>
              forall k :: 0 <= k < (if rank == -1 then |ps| else rank) ==> !Matches(key, ps[k].name))
    {
      var key := name[..if length <= 0 then Span(name, 0, TextEnd) else length];
      if 0 <= section < |sections| {
        ghost var ps := OfSection(properties, section);
        var c := 0;
        var i := 0;
        while i < |properties|
          invariant 0 <= i <= |properties|
          invariant c == Rank(properties, section, i) <= |ps|
          invariant forall k :: 0 <= k < c ==> !Matches(key, ps[k].name)
        {
          RankNext(properties, section, i);
          if properties[i].section == section {
            SelectRank(properties, section, i);
            SelectFinds(properties, section, c);
            if Matches(key, properties[i].name) {
              return c;
            }
            c := c + 1;
          }
          i := i + 1;
        }
        assert properties[..i] == properties;
      }
      return -1;
    }

    /** ini_load. The scan pointer of the source is the index `p`. */
    static method Load(data: string) returns (ini: Ini)
      ensures fresh(ini) && ini.Contents() == IniText.Load(data)
      ensures Valid(ini.Contents())
    {
      ini := new Ini();
      var p := 0;
      var s := 0;
      while p < |data| && data[p] != NUL
        invariant 0 <= p <= |data| && fresh(ini)
        invariant s == |ini.sections| - 1 && s >= 0 && Valid(ini.Contents())
        invariant Build(ini.Contents(), Items(data, p)) == IniText.Load(data)
        decreases |data| - p
      {
        p := SkipBlanks(data, p);
        if p == |data| || data[p] == NUL {
          break;
        }
        p, s := ini.LoadPass(data, p, s);
      }
    }

    static method SkipBlanks(data: string, from: nat) returns (p: nat)
      requires from <= |data|
      ensures from <= p <= |data| && Items(data, p) == Items(data, from)
      ensures p < |data| && data[p] != NUL ==> !Blank(data[p])
    {
      p := from;
      while p < |data| && data[p] != NUL && Blank(data[p])
        invariant from <= p <= |data|
        invariant forall i :: from <= i < p ==> data[i] != NUL && Blank(data[i])
      {
        p := p + 1;
      }
      BlanksSkipped(data, from, p);
    }

    /** One pass of the loop, at a character that is not blank: a comment, a section or a property. */
    method LoadPass(data: string, from: nat, current: int) returns (p: nat, s: int)
      requires from < |data| && data[from] != NUL && !Blank(data[from])
      requires current == |sections| - 1 && current >= 0
      modifies this
      ensures from < p <= |data| && s == |sections| - 1 && s >= 0
      ensures Build(Contents(), Items(data, p)) == Build(old(Contents()), Items(data, from))
      ensures Valid(old(Contents())) ==> Valid(Contents())
    {
      s := current;
      PassBuilt(Contents(), data, from, Pass(data, from));
      if data[from] == ';' {
        p := ScanTo(data, from, LineEnd);
      } else if data[from] == '[' {
        p, s := LoadSection(data, from, s);
      } else {
        p := LoadProperty(data, from, s);
      }
    }

    method LoadSection(data: string, from: nat, current: int) returns (p: nat, s: int)
      requires from < |data| && current == |sections| - 1
      modifies this
      ensures p == SectionPass(data, from).next
      ensures Contents() == Build(old(Contents()), SectionPass(data, from).items)
      ensures s == |sections| - 1 && |sections| >= |old(sections)|
      ensures Valid(old(Contents())) ==> Valid(Contents())
    {
      s := current;
      var start := from + 1;
      p := ScanTo(data, start, SectionEnd);
      if p < |data| && data[p] == ']' {
        BuildOne(Contents(), Section(Taken(data, start, p - start)));
        s := SectionAdd(data, start, p - start);
        p := p + 1;
      }
    }

    method LoadProperty(data: string, from: nat, s: int) returns (p: nat)
      requires from < |data| && data[from] != NUL && data[from] != '\n' && s == |sections| - 1 && s >= 0
      modifies this
      ensures p == EntryPass(data, from).next
      ensures Contents() == Build(old(Contents()), EntryPass(data, from).items) && sections == old(sections)
      ensures Valid(old(Contents())) ==> Valid(Contents())
    {
      p := ScanTo(data, from, NameEnd);
      if p < |data| && data[p] == '=' {
        var l := p - from;
        var start := SkipMargin(data, p + 1);
        p := ScanTo(data, start, LineEnd);
        p := TrimBack(data, start, p);
        assert EntryPass(data, from) == Found([Entry(Taken(data, from, l), data[start..p])], p);
        BuildOne(Contents(), Entry(Taken(data, from, l), data[start..p]));
        LoadValue(data, from, l, start, p, s);
      }
    }

    /** Adds what a line says: an empty value is passed as an empty string. */
    method LoadValue(data: string, from: nat, l: int, start: nat, end: nat, s: int)
      requires from <= |data| && from + l <= |data| && start <= end <= |data|
      requires end <= Span(data, start, LineEnd)
      requires s == |sections| - 1 && s >= 0
      modifies this
      ensures Contents() == Extend(old(Contents()), Entry(Taken(data, from, l), data[start..end]))
      ensures sections == old(sections) && (Valid(old(Contents())) ==> Valid(Contents()))
    {
      if end == start {
        NulIsEmpty();
        assert data[start..end] == "";
        PropertyAdd(s, data, from, l, [NUL], 0, 1);
      } else {
        ValueTaken(data, start, end);
        PropertyAdd(s, data, from, l, data, start, end - start);
      }
    }

    static method ScanTo(data: string, from: nat, stop: Stop) returns (p: nat)
      requires from <= |data|
      ensures p == Span(data, from, stop)
    {
      p := from;
      while p < |data| && data[p] != NUL && !Halts(stop, data[p])
        invariant from <= p <= |data| && Span(data, p, stop) == Span(data, from, stop)
      {
        p := p + 1;
      }
    }

    static method SkipMargin(data: string, from: nat) returns (p: nat)
      requires from <= |data|
      ensures p == Margin(data, from)
    {
      p := from;
      while p < |data| && data[p] != NUL && Blank(data[p]) && data[p] != '\n'
        invariant from <= p <= |data| && Margin(data, p) == Margin(data, from)
      {
        p := p + 1;
      }
    }

    /**
     The loop that moves back over the blanks at the end of a value. The source decrements
     before it looks, so the scan may step in front of the value and is moved on by one.
     */
    static method TrimBack(data: string, start: nat, end: nat) returns (p: int)
      requires 0 < start <= end <= |data|
      ensures p == TrimEnd(data, start, end)
    {
      p := end;
      while p >= start
        invariant start - 1 <= p <= end
        invariant TrimEnd(data, start, end) == if p >= start then TrimEnd(data, start, p) else start
      {
        p := p - 1;
        if !Blank(data[p]) {
          break;
        }
      }
      p := p + 1;
    }

    /**
     ini_save: the size of the text with its terminator, whether or not there is a buffer.
     A buffer receives as much of it as fits and is otherwise left alone.
     */
    method Save(buffer: array?<char>, size: int) returns (pos: int)
      requires buffer != null ==> size <= buffer.Length
      modifies buffer
      ensures pos == |IniText.Save(Contents())| + 1
      ensures buffer != null ==> Shows(buffer[..], size, IniText.Save(Contents()) + [NUL], old(buffer[..]))
    {
      ghost var before := if buffer == null then [] else buffer[..];
      pos := SaveSections(buffer, size, before);
      pos := Put(buffer, size, pos, NUL, IniText.Save(Contents()), before);
    }

    method SaveSections(buffer: array?<char>, size: int, ghost before: seq<char>) returns (pos: int)
      requires buffer != null ==> size <= buffer.Length && before == buffer[..]
      modifies buffer
      ensures pos == |IniText.Save(Contents())|
      ensures buffer != null ==> Shows(buffer[..], size, IniText.Save(Contents()), before)
    {
      ghost var text := Text(Contents(), 0);
      pos := 0;
      var s := 0;
      while s < |sections|
        invariant 0 <= s <= |sections| && text == Text(Contents(), s) && pos == |text|
        invariant buffer != null ==> Shows(buffer[..], size, text, before)
      {
        ghost var next := Closed(text + Header(sections[s]) + Lines(properties, s));
        TextStep(Contents(), s, text, next);
        pos := SaveSection(buffer, size, pos, s, text, before);
        text := next;
        s := s + 1;
      }
    }

    method SaveSection(buffer: array?<char>, size: int, pos: int, s: nat, ghost text: string, ghost before: seq<char>)
      returns (next: int)
      requires s < |sections|
      requires pos == |text| && (buffer != null ==> size <= buffer.Length && Shows(buffer[..], size, text, before))
      modifies buffer
      ensures var t := Closed(text + Header(sections[s]) + Lines(properties, s));
        next == |t| && (buffer != null ==> Shows(buffer[..], size, t, before))
    {
      next := SaveHeader(buffer, size, pos, sections[s], text, before);
      ghost var t := text + Header(sections[s]);
      next := SaveLines(buffer, size, next, s, t, before);
      t := t + Lines(properties, s);
      if next > 0 {
        next := Put(buffer, size, next, '\n', t, before);
      }
    }

    static method Put(buffer: array?<char>, size: int, pos: int, c: char, ghost text: string, ghost before: seq<char>)
      returns (next: int)
      requires pos == |text| && (buffer != null ==> size <= buffer.Length && Shows(buffer[..], size, text, before))
      modifies buffer
      ensures next == |text + [c]|
      ensures buffer != null ==> Shows(buffer[..], size, text + [c], before)
    {
      if buffer != null && pos < size {
        buffer[pos] := c;
      }
      next := pos + 1;
    }

    static method PutString(
        buffer: array?<char>, size: int, pos: int, n: string, ghost text: string, ghost before: seq<char>)
      returns (next: int)
      requires pos == |text| && (buffer != null ==> size <= buffer.Length && Shows(buffer[..], size, text, before))
      modifies buffer
      ensures next == |text + n|
      ensures buffer != null ==> Shows(buffer[..], size, text + n, before)
    {
      next := pos;
      assert text + n[..0] == text;
      for i := 0 to |n|
        invariant next == |text + n[..i]|
        invariant buffer != null ==> Shows(buffer[..], size, text + n[..i], before)
      {
        next := Put(buffer, size, next, n[i], text + n[..i], before);
        assert text + n[..i] + [n[i]] == text + n[..i + 1];
      }
      assert n[..|n|] == n;
    }

    static method SaveHeader(
        buffer: array?<char>, size: int, pos: int, name: string, ghost text: string, ghost before: seq<char>)
      returns (next: int)
      requires pos == |text| && (buffer != null ==> size <= buffer.Length && Shows(buffer[..], size, text, before))
      modifies buffer
      ensures next == |text + Header(name)|
      ensures buffer != null ==> Shows(buffer[..], size, text + Header(name), before)
    {
      next := pos;
      if |name| > 0 {
        next := Put(buffer, size, next, '[', text, before);
        next := PutString(buffer, size, next, name, text + "[", before);
        next := Put(buffer, size, next, ']', text + "[" + name, before);
        next := Put(buffer, size, next, '\n', text + "[" + name + "]", before);
        assert text + "[" + name + "]" + "\n" == text + Header(name);
      } else {
        assert text + "" == text;
      }
    }

    method SaveLines(
        buffer: array?<char>, size: int, pos: int, section: int, ghost text: string, ghost before: seq<char>)
      returns (next: int)
      requires pos == |text| && (buffer != null ==> size <= buffer.Length && Shows(buffer[..], size, text, before))
      modifies buffer
      ensures next == |text + Lines(properties, section)|
      ensures buffer != null ==> Shows(buffer[..], size, text + Lines(properties, section), before)
    {
      next := pos;
      assert text + "" == text;
      for p := 0 to |properties|
        invariant next == |text + Lines(properties[..p], section)|
        invariant buffer != null ==> Shows(buffer[..], size, text + Lines(properties[..p], section), before)
      {
        ghost var t := text + Lines(properties[..p], section);
        LinesNext(properties, section, p);
        if properties[p].section == section {
          next := SaveLine(buffer, size, next, properties[p], t, before);
          assert t + Line(properties[p]) == text + Lines(properties[..p + 1], section);
        }
      }
      assert properties[..|properties|] == properties;
    }

    static method SaveLine(
        buffer: array?<char>, size: int, pos: int, p: Property, ghost text: string, ghost before: seq<char>)
      returns (next: int)
      requires pos == |text| && (buffer != null ==> size <= buffer.Length && Shows(buffer[..], size, text, before))
      modifies buffer
      ensures next == |text + Line(p)|
      ensures buffer != null ==> Shows(buffer[..], size, text + Line(p), before)
    {
      next := PutString(buffer, size, pos, p.name, text, before);
      next := Put(buffer, size, next, '=', text + p.name, before);
      next := PutString(buffer, size, next, p.value, text + p.name + "=", before);
      next := Put(buffer, size, next, '\n', text + p.name + "=" + p.value, before);
      assert text + p.name + "=" + p.value + "\n" == text + Line(p);
    }
  }

  lemma ShownIsTerminated(now: string, text: string, before: string)
    requires Shows(now, |now|, text + [NUL], before) && |text| < |now|
    ensures Terminated(now, text)
  { }

  /**
   Through any buffer that is long enough, whatever was in it: saving and loading gives an object with
   the same contents exactly when the contents are well formed.
   */
  method SaveAndLoad(ini: Ini, buffer: array<char>) returns (copy: Ini)
    requires Valid(ini.Contents()) && CStrings(ini.Contents())
    requires |IniText.Save(ini.Contents())| < buffer.Length
    modifies buffer
    ensures fresh(copy) && ini.Contents() == old(ini.Contents())
    ensures SameContents(copy.Contents(), ini.Contents()) <==> WellFormed(ini.Contents())
  {
    ghost var before := buffer[..];
    var size := ini.Save(buffer, buffer.Length);
    ShownIsTerminated(buffer[..], IniText.Save(ini.Contents()), before);
    LoadTerminated(buffer[..], IniText.Save(ini.Contents()));
    RoundTrip(ini.Contents());
    copy := Ini.Load(buffer[..]);
  }
}
