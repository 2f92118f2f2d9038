/**
 The text format of ini.h: the hand-written scanner of ini_load and the printer of
 ini_save, as functions on strings, and the theorem that says exactly which documents
 survive saving and loading.

 Strings are C strings: a NUL character, or the end of the sequence, ends them. `char`
 is signed on the kernel's main target, so bytes from 128 up compare below ' ' and count
 as blank.
 */
module IniText {

  datatype Property = Property(section: int, name: string, value: string)

  /** What ini_t holds. */
  datatype Document = Document(sections: seq<string>, properties: seq<Property>)

  /** What the scanner finds, in order. */
  datatype Item = Section(name: string) | Entry(name: string, value: string)

  const NUL: char := '\0'

  predicate Blank(c: char) {
    c <= ' ' || c >= '\U{80}'
  }

  // ---------------------------------------------------------------------
  // Scanning
  // ---------------------------------------------------------------------

  /** Where a scan ends, besides the end of the text. */
  datatype Stop = TextEnd | LineEnd | SectionEnd | NameEnd

  predicate Halts(stop: Stop, c: char) {
    match stop
    case TextEnd => false
    case LineEnd => c == '\n'
    case SectionEnd => c == ']' || c == '\n'
    case NameEnd => c == '=' || c == '\n'
  }

  function At(s: string, i: nat): char {
    if i < |s| then s[i] else NUL
  }

  /** The first index from `i` on that halts the scan, or the end of the text. */
  function Span(s: string, i: nat, stop: Stop): (j: nat)
    requires i <= |s|
    ensures i <= j <= |s|
    decreases |s| - i
  {
    if i == |s| || s[i] == NUL || Halts(stop, s[i]) then i else Span(s, i + 1, stop)
  }

  /** The first index from `i` on that is not blank, within the line. */
  function Margin(s: string, i: nat): (j: nat)
    requires i <= |s|
    ensures i <= j <= |s|
    decreases |s| - i
  {
    if i == |s| || s[i] == NUL || s[i] == '\n' || !Blank(s[i]) then i else Margin(s, i + 1)
  }

  /** `hi` moved back over blanks, at most to `lo`. */
  function TrimEnd(s: string, lo: nat, hi: nat): (r: nat)
    requires lo <= hi <= |s|
    ensures lo <= r <= hi
    decreases hi
  {
    if lo < hi && Blank(s[hi - 1]) then TrimEnd(s, lo, hi - 1) else hi
  }

  /** The C string that a pointer and a length stand for; a length of zero asks for strlen. */
  function Taken(s: string, from: nat, length: int): string
    requires from <= |s| && from + length <= |s|
  {
    var end := Span(s, from, TextEnd);
    s[from..if length <= 0 || end < from + length then end else from + length]
  }

  /** What one pass of the scanning loop finds, and where the next one starts. */
  datatype Found = Found(items: seq<Item>, next: nat)

  function Pass(s: string, i: nat): (f: Found)
    requires i < |s| && s[i] != NUL
    ensures i < f.next <= |s|
  {
    if Blank(s[i]) then Found([], i + 1)
    else if s[i] == ';' then Found([], Span(s, i, LineEnd))
    else if s[i] == '[' then SectionPass(s, i)
    else EntryPass(s, i)
  }

  function SectionPass(s: string, i: nat): (f: Found)
    requires i < |s|
    ensures i < f.next <= |s|
  {
    var e := Span(s, i + 1, SectionEnd);
    if At(s, e) == ']' then Found([Section(Taken(s, i + 1, e - i - 1))], e + 1) else Found([], e)
  }

  function EntryPass(s: string, i: nat): (f: Found)
    requires i < |s| && s[i] != NUL && s[i] != '\n'
    ensures i < f.next <= |s|
  {
    var e := Span(s, i, NameEnd);
    if At(s, e) == '=' then
      var v := Margin(s, e + 1);
      var z := TrimEnd(s, v, Span(s, v, LineEnd));
      Found([Entry(Taken(s, i, e - i), s[v..z])], z)
    else Found([], e)
  }

  /** The items of a text from index `i` on. */
  function Items(s: string, i: nat): seq<Item>
    requires i <= |s|
    decreases |s| - i
  {
    if i == |s| || s[i] == NUL then [] else Pass(s, i).items + Items(s, Pass(s, i).next)
  }

  /** Adds one item: a section becomes the current one, an entry joins it. */
  function Extend(d: Document, item: Item): Document {
    match item
    case Section(name) => d.(sections := d.sections + [name])
    case Entry(name, value) =>
      d.(properties := d.properties + [Property(|d.sections| - 1, name, value)])
  }

  function Build(d: Document, items: seq<Item>): Document
    decreases |items|
  {
    if items == [] then d else Build(Extend(d, items[0]), items[1..])
  }

  const EMPTY: Document := Document([""], [])

  function Load(text: string): Document {
    Build(EMPTY, Items(text, 0))
  }

  // ---------------------------------------------------------------------
  // Printing
  // ---------------------------------------------------------------------

  function Header(name: string): string {
    if name == "" then "" else "[" + name + "]\n"
  }

  function Line(p: Property): string {
    p.name + "=" + p.value + "\n"
  }

  /** The lines of the properties of one section. */
  function Lines(properties: seq<Property>, section: int): string {
    if properties == [] then ""
    else (if properties[0].section == section then Line(properties[0]) else "") + Lines(properties[1..], section)
  }

  /** The text of the first `n` sections; a line break ends each, once there is any text. */
  function Text(d: Document, n: nat): string
    requires n <= |d.sections|
  {
    if n == 0 then ""
    else Closed(Text(d, n - 1) + Header(d.sections[n - 1]) + Lines(d.properties, n - 1))
  }

  function Closed(t: string): string {
    if t == "" then "" else t + "\n"
  }

  function Save(d: Document): string {
    Text(d, |d.sections|)
  }

  // ---------------------------------------------------------------------
  // What a document says
  // ---------------------------------------------------------------------

  /** The properties of a section, in order. */
  function OfSection(properties: seq<Property>, section: int): seq<Property> {
    if properties == [] then []
    else (if properties[0].section == section then [properties[0]] else []) + OfSection(properties[1..], section)
  }

  /** Every property belongs to a section. */
  predicate Valid(d: Document) {
    forall p :: p in d.properties ==> 0 <= p.section < |d.sections|
  }

  /** Same section names in order, and the same properties in order in each section. */
  predicate SameContents(d: Document, e: Document) {
    d.sections == e.sections &&
    forall k :: 0 <= k < |d.sections| ==> OfSection(d.properties, k) == OfSection(e.properties, k)
  }

  /** The properties sorted by section, each section's own order kept. */
  function Grouped(properties: seq<Property>, n: nat): seq<Property> {
    if n == 0 then [] else Grouped(properties, n - 1) + OfSection(properties, n - 1)
  }

  predicate NoNul(s: string) {
    forall i :: 0 <= i < |s| ==> s[i] != NUL
  }

  predicate CStrings(d: Document) {
    (forall k :: 0 <= k < |d.sections| ==> NoNul(d.sections[k])) &&
    (forall p :: p in d.properties ==> NoNul(p.name) && NoNul(p.value))
  }

  predicate Lacks(s: string, stop: Stop) {
    forall i :: 0 <= i < |s| ==> !Halts(stop, s[i])
  }

  predicate GoodSection(name: string) {
    name != "" && Lacks(name, SectionEnd)
  }

  predicate GoodName(name: string) {
    name != "" && !Blank(name[0]) && name[0] != ';' && name[0] != '[' && Lacks(name, NameEnd)
  }

  predicate GoodValue(value: string) {
    Lacks(value, LineEnd) && (value != "" ==> !Blank(value[0]) && !Blank(value[|value| - 1]))
  }

  /** The documents that the text format can express. */
  predicate WellFormed(d: Document) {
    && d.sections != [] && d.sections[0] == ""
    && (forall k :: 0 < k < |d.sections| ==> GoodSection(d.sections[k]))
    && (forall p :: p in d.properties ==> GoodName(p.name) && GoodValue(p.value))
  }

  // ---------------------------------------------------------------------
  // Reading back one line
  // ---------------------------------------------------------------------

  /** `a` stands at index `i` of `s`. */
  ghost predicate Occurs(s: string, i: nat, a: string) {
    i + |a| <= |s| && forall k :: 0 <= k < |a| ==> s[i + k] == a[k]
  }

  lemma OccursParts(s: string, i: nat, a: string, b: string)
    requires Occurs(s, i, a + b)
    ensures Occurs(s, i, a) && Occurs(s, i + |a|, b)
  {
    assert forall k :: 0 <= k < |a| ==> (a + b)[k] == a[k];
    assert forall k :: 0 <= k < |b| ==> (a + b)[|a| + k] == b[k] && s[i + (|a| + k)] == (a + b)[|a| + k];
  }

  lemma OccursSlice(s: string, i: nat, a: string)
    requires Occurs(s, i, a)
    ensures s[i..i + |a|] == a
  { }

  lemma {:induction false} SpanIs(s: string, i: nat, j: nat, stop: Stop)
    requires i <= j <= |s| && (j == |s| || s[j] == NUL || Halts(stop, s[j]))
    requires forall k :: i <= k < j ==> s[k] != NUL && !Halts(stop, s[k])
    ensures Span(s, i, stop) == j
    decreases j - i
  {
    if i < j {
      SpanIs(s, i + 1, j, stop);
    }
  }

  lemma {:induction false} SpanAtLeast(s: string, i: nat, j: nat, stop: Stop)
    requires i <= j <= |s| && forall k :: i <= k < j ==> s[k] != NUL && !Halts(stop, s[k])
    ensures Span(s, i, stop) >= j
    decreases j - i
  {
    if i < j {
      SpanAtLeast(s, i + 1, j, stop);
    }
  }

  lemma SpanOver(s: string, i: nat, a: string, stop: Stop)
    requires Occurs(s, i, a) && NoNul(a) && Lacks(a, stop)
    requires i + |a| < |s| && Halts(stop, s[i + |a|])
    ensures Span(s, i, stop) == i + |a|
  {
    forall k | i <= k < i + |a|
      ensures s[k] != NUL && !Halts(stop, s[k])
    {
      assert s[k] == a[k - i];
    }
    SpanIs(s, i, i + |a|, stop);
  }

  lemma TakenOver(s: string, i: nat, a: string)
    requires Occurs(s, i, a) && NoNul(a) && a != ""
    ensures Taken(s, i, |a|) == a
  {
    forall k | i <= k < i + |a|
      ensures s[k] != NUL
    {
      assert s[k] == a[k - i];
    }
    SpanAtLeast(s, i, i + |a|, TextEnd);
    OccursSlice(s, i, a);
  }

  /** A line for a property, at `i`; its value starts at `v` and the line break is at `z`. */
  lemma EntryFound(s: string, i: nat, v: nat, z: nat, name: string, value: string)
    requires GoodName(name) && NoNul(name) && Occurs(s, i, name) && v == i + |name| + 1 <= |s| && s[v - 1] == '='
    requires GoodValue(value) && NoNul(value) && Occurs(s, v, value) && z == v + |value| < |s| && s[z] == '\n'
    ensures Pass(s, i) == Found([Entry(name, value)], z)
  {
    assert s[i] == name[0];
    SpanOver(s, i, name, NameEnd);
    SpanOver(s, v, value, LineEnd);
    TakenOver(s, i, name);
    OccursSlice(s, v, value);
    if value != "" {
      assert s[v] == value[0] && s[z - 1] == value[|value| - 1];
    }
  }

  lemma ItemsStep(s: string, i: nat, f: Found)
    requires i < |s| && s[i] != NUL && Pass(s, i) == f
    ensures Items(s, i) == f.items + Items(s, f.next)
  { }

  lemma BreakSkipped(s: string, i: nat)
    requires i < |s| && s[i] == '\n'
    ensures Items(s, i) == Items(s, i + 1)
  { }

  lemma LineParts(s: string, i: nat, p: Property)
    requires Occurs(s, i, Line(p))
    ensures var v := i + |p.name| + 1;
      && Occurs(s, i, p.name) && s[v - 1] == '=' && Occurs(s, v, p.value) && s[v + |p.value|] == '\n'
  {
    var v := i + |p.name| + 1;
    OccursParts(s, i, p.name + "=" + p.value, "\n");
    OccursParts(s, i, p.name + "=", p.value);
    OccursParts(s, i, p.name, "=");
    assert s[v - 1] == "="[0] && s[v + |p.value|] == "\n"[0];
  }

  lemma EntryLine(s: string, i: nat, p: Property)
    requires GoodName(p.name) && GoodValue(p.value) && NoNul(p.name) && NoNul(p.value) && Occurs(s, i, Line(p))
    ensures Items(s, i) == [Entry(p.name, p.value)] + Items(s, i + |Line(p)|)
  {
    var v := i + |p.name| + 1;
    var z := v + |p.value|;
    LineParts(s, i, p);
    EntryFound(s, i, v, z, p.name, p.value);
    assert s[i] == p.name[0];
    ItemThenBreak(s, i, Entry(p.name, p.value), z);
  }

  lemma ItemThenBreak(s: string, i: nat, item: Item, z: nat)
    requires i < |s| && s[i] != NUL && Pass(s, i) == Found([item], z) && z < |s| && s[z] == '\n'
    ensures Items(s, i) == [item] + Items(s, z + 1)
  {
    ItemsStep(s, i, Found([item], z));
    BreakSkipped(s, z);
  }

  lemma SectionFound(s: string, i: nat, e: nat, name: string)
    requires GoodSection(name) && NoNul(name) && i < |s| && s[i] == '[' && Occurs(s, i + 1, name)
    requires e == i + 1 + |name| < |s| && s[e] == ']'
    ensures Pass(s, i) == Found([Section(name)], e + 1)
  {
    SpanOver(s, i + 1, name, SectionEnd);
    TakenOver(s, i + 1, name);
  }

  lemma HeaderParts(s: string, i: nat, name: string)
    requires name != "" && Occurs(s, i, Header(name))
    ensures var e := i + 1 + |name|; s[i] == '[' && Occurs(s, i + 1, name) && s[e] == ']' && s[e + 1] == '\n'
  {
    var e := i + 1 + |name|;
    OccursParts(s, i, "[" + name, "]\n");
    OccursParts(s, i, "[", name);
    assert s[i] == "["[0] && s[e] == "]\n"[0] && s[e + 1] == "]\n"[1];
  }

  lemma HeaderLine(s: string, i: nat, name: string)
    requires GoodSection(name) && NoNul(name) && Occurs(s, i, Header(name))
    ensures Items(s, i) == [Section(name)] + Items(s, i + |Header(name)|)
  {
    var e := i + 1 + |name|;
    HeaderParts(s, i, name);
    SectionFound(s, i, e, name);
    ItemsStep(s, i, Found([Section(name)], e + 1));
    BreakSkipped(s, e + 1);
  }

  // ---------------------------------------------------------------------
  // Reading back a whole document
  // ---------------------------------------------------------------------

  /** `a` reads as `items` wherever it stands. */
  ghost predicate Reads(a: string, items: seq<Item>) {
    forall s: string, i: nat :: Occurs(s, i, a) ==> Items(s, i) == items + Items(s, i + |a|)
  }

  lemma ReadsAppend(a: string, i: seq<Item>, b: string, j: seq<Item>)
    requires Reads(a, i) && Reads(b, j)
    ensures Reads(a + b, i + j)
  {
    forall s: string, k: nat | Occurs(s, k, a + b)
      ensures Items(s, k) == i + j + Items(s, k + |a + b|)
    {
      OccursParts(s, k, a, b);
      Joined(Items(s, k), i, Items(s, k + |a|), j, Items(s, k + |a| + |b|));
    }
  }

  lemma Joined(x: seq<Item>, i: seq<Item>, y: seq<Item>, j: seq<Item>, z: seq<Item>)
    requires x == i + y && y == j + z
    ensures x == i + j + z
  { }

  lemma ReadsNothing()
    ensures Reads("", [])
  { }

  lemma ReadsBreak()
    ensures Reads("\n", [])
  {
    forall s: string, i: nat | Occurs(s, i, "\n")
      ensures Items(s, i) == [] + Items(s, i + 1)
    {
      assert s[i] == "\n"[0];
    }
  }

  function Entries(ps: seq<Property>): seq<Item> {
    seq(|ps|, i requires 0 <= i < |ps| => Entry(ps[i].name, ps[i].value))
  }

  function ItemsUpTo(d: Document, n: nat): seq<Item>
    requires n <= |d.sections|
  {
    if n == 0 then []
    else
      ItemsUpTo(d, n - 1) + (if n == 1 then [] else [Section(d.sections[n - 1])]) +
      Entries(OfSection(d.properties, n - 1))
  }

  lemma {:induction false} LinesRead(ps: seq<Property>, section: int)
    requires forall p :: p in ps ==> GoodName(p.name) && GoodValue(p.value) && NoNul(p.name) && NoNul(p.value)
    ensures Reads(Lines(ps, section), Entries(OfSection(ps, section)))
  {
    if ps == [] {
      ReadsNothing();
    } else {
      var p, rest := ps[0], ps[1..];
      LinesRead(rest, section);
      if p.section == section {
        LineRead(p);
        ReadsAppend(Line(p), [Entry(p.name, p.value)], Lines(rest, section), Entries(OfSection(rest, section)));
        assert Entries([p] + OfSection(rest, section)) == [Entry(p.name, p.value)] + Entries(OfSection(rest, section));
      } else {
        assert Lines(ps, section) == Lines(rest, section);
        assert OfSection(ps, section) == OfSection(rest, section);
      }
    }
  }

  lemma LineRead(p: Property)
    requires GoodName(p.name) && GoodValue(p.value) && NoNul(p.name) && NoNul(p.value)
    ensures Reads(Line(p), [Entry(p.name, p.value)])
  {
    forall s: string, i: nat | Occurs(s, i, Line(p))
      ensures Items(s, i) == [Entry(p.name, p.value)] + Items(s, i + |Line(p)|)
    {
      EntryLine(s, i, p);
    }
  }

  lemma HeaderRead(d: Document, n: nat)
    requires WellFormed(d) && CStrings(d) && n < |d.sections|
    ensures Reads(Header(d.sections[n]), if n == 0 then [] else [Section(d.sections[n])])
  {
    if n == 0 {
      ReadsNothing();
    } else {
      var name := d.sections[n];
      forall s: string, i: nat | Occurs(s, i, Header(name))
        ensures Items(s, i) == [Section(name)] + Items(s, i + |Header(name)|)
      {
        HeaderLine(s, i, name);
      }
    }
  }

  lemma ClosedRead(t: string, items: seq<Item>)
    requires Reads(t, items)
    ensures Reads(Closed(t), items)
  {
    if t != "" {
      ReadsBreak();
      ReadsAppend(t, items, "\n", []);
      assert items + [] == items;
    }
  }

  lemma SectionRead(text: string, i: seq<Item>, header: string, j: seq<Item>, lines: string, k: seq<Item>)
    requires Reads(text, i) && Reads(header, j) && Reads(lines, k)
    ensures Reads(Closed(text + header + lines), i + j + k)
  {
    ReadsAppend(text, i, header, j);
    ReadsAppend(text + header, i + j, lines, k);
    ClosedRead(text + header + lines, i + j + k);
  }

  lemma PiecesRead(d: Document, k: nat)
    requires WellFormed(d) && CStrings(d) && k < |d.sections|
    ensures Reads(Header(d.sections[k]), if k == 0 then [] else [Section(d.sections[k])])
    ensures Reads(Lines(d.properties, k), Entries(OfSection(d.properties, k)))
  {
    HeaderRead(d, k);
    LinesRead(d.properties, k);
  }

  lemma SectionAdded(d: Document, k: nat)
    requires WellFormed(d) && CStrings(d) && k < |d.sections| && Reads(Text(d, k), ItemsUpTo(d, k))
    ensures Reads(Text(d, k + 1), ItemsUpTo(d, k + 1))
  {
    var head: seq<Item> := if k == 0 then [] else [Section(d.sections[k])];
    PiecesRead(d, k);
    SectionRead(Text(d, k), ItemsUpTo(d, k), Header(d.sections[k]), head,
                Lines(d.properties, k), Entries(OfSection(d.properties, k)));
  }

  lemma {:induction false} TextRead(d: Document, n: nat)
    requires WellFormed(d) && CStrings(d) && n <= |d.sections|
    ensures Reads(Text(d, n), ItemsUpTo(d, n))
  {
    if n == 0 {
      ReadsNothing();
    } else {
      TextRead(d, n - 1);
      SectionAdded(d, n - 1);
    }
  }

  lemma ReadsWhole(text: string, items: seq<Item>)
    requires Reads(text, items)
    ensures Items(text, 0) == items
  {
    assert Occurs(text, 0, text);
    assert Items(text, |text|) == [];
  }

  lemma {:induction false} BuildAppend(d: Document, a: seq<Item>, b: seq<Item>)
    ensures Build(d, a + b) == Build(Build(d, a), b)
    decreases |a|
  {
    if a == [] {
      assert a + b == b;
    } else {
      assert (a + b)[1..] == a[1..] + b;
      BuildAppend(Extend(d, a[0]), a[1..], b);
    }
  }

  lemma {:induction false} BuildEntries(d: Document, ps: seq<Property>)
    requires forall p :: p in ps ==> p.section == |d.sections| - 1
    ensures Build(d, Entries(ps)) == d.(properties := d.properties + ps)
    decreases |ps|
  {
    if ps == [] {
      assert d.properties + ps == d.properties;
    } else {
      assert Entries(ps)[1..] == Entries(ps[1..]);
      BuildEntries(Extend(d, Entries(ps)[0]), ps[1..]);
      assert ps == [ps[0]] + ps[1..];
      assert d.properties + ps == d.properties + [ps[0]] + ps[1..];
    }
  }

  lemma {:induction false} OfSectionIsThere(ps: seq<Property>, k: int)
    ensures forall p :: p in OfSection(ps, k) ==> p.section == k && p in ps
  {
    if ps != [] {
      OfSectionIsThere(ps[1..], k);
    }
  }

  lemma {:induction false} BuildItems(d: Document, n: nat)
    requires d.sections != [] && d.sections[0] == "" && 0 < n <= |d.sections|
    ensures Build(EMPTY, ItemsUpTo(d, n)) == Document(d.sections[..n], Grouped(d.properties, n))
  {
    var k := n - 1;
    var entries := OfSection(d.properties, k);
    OfSectionIsThere(d.properties, k);
    if k == 0 {
      assert ItemsUpTo(d, 0) == [];
      assert ItemsUpTo(d, 1) == Entries(entries);
      BuildEntries(EMPTY, entries);
      assert d.sections[..1] == [""];
    } else {
      var name := Section(d.sections[k]);
      var before := Document(d.sections[..k], Grouped(d.properties, k));
      BuildItems(d, k);
      BuildAppend(EMPTY, ItemsUpTo(d, k) + [name], Entries(entries));
      BuildAppend(EMPTY, ItemsUpTo(d, k), [name]);
      assert [name][1..] == [];
      assert Build(before, [name]) == Extend(before, name);
      assert d.sections[..k] + [d.sections[k]] == d.sections[..n];
      BuildEntries(Extend(before, name), entries);
    }
  }

  /** Loading the saved text of a well-formed document gives it back, its properties sorted by section. */
  lemma LoadSave(d: Document)
    requires WellFormed(d) && CStrings(d)
    ensures Load(Save(d)) == Document(d.sections, Grouped(d.properties, |d.sections|))
  {
    var n := |d.sections|;
    TextRead(d, n);
    ReadsWhole(Text(d, n), ItemsUpTo(d, n));
    BuildItems(d, n);
    assert d.sections[..n] == d.sections;
  }

  lemma {:induction false} OfSectionAppend(a: seq<Property>, b: seq<Property>, k: int)
    ensures OfSection(a + b, k) == OfSection(a, k) + OfSection(b, k)
  {
    if a == [] {
      assert a + b == b;
    } else {
      var first := if a[0].section == k then [a[0]] else [];
      var c := a + b;
      assert c[0] == a[0] && c[1..] == a[1..] + b;
      OfSectionAppend(a[1..], b, k);
      assert OfSection(c, k) == first + (OfSection(a[1..], k) + OfSection(b, k));
      assert OfSection(a, k) == first + OfSection(a[1..], k);
    }
  }

  lemma {:induction false} OfSectionTwice(ps: seq<Property>, j: int, k: int)
    ensures OfSection(OfSection(ps, j), k) == if j == k then OfSection(ps, j) else []
  {
    if ps != [] {
      OfSectionTwice(ps[1..], j, k);
      if ps[0].section == j {
        OfSectionAppend([ps[0]], OfSection(ps[1..], j), k);
        assert [ps[0]][1..] == [];
      } else {
        assert OfSection(ps, j) == OfSection(ps[1..], j);
      }
    }
  }

  lemma GroupedStep(ps: seq<Property>, n: nat, k: int)
    requires n > 0
    ensures OfSection(Grouped(ps, n), k)
         == OfSection(Grouped(ps, n - 1), k) + if k == n - 1 then OfSection(ps, k) else []
  {
    var before, own := Grouped(ps, n - 1), OfSection(ps, n - 1);
    assert Grouped(ps, n) == before + own;
    OfSectionAppend(before, own, k);
    OfSectionTwice(ps, n - 1, k);
  }

  lemma {:induction false} NotGrouped(ps: seq<Property>, n: nat, k: int)
    requires n <= k
    ensures OfSection(Grouped(ps, n), k) == []
  {
    if n > 0 {
      NotGrouped(ps, n - 1, k);
      GroupedStep(ps, n, k);
    }
  }

  lemma {:induction false} OfSectionGrouped(ps: seq<Property>, n: nat, k: nat)
    requires k < n
    ensures OfSection(Grouped(ps, n), k) == OfSection(ps, k)
  {
    var before := OfSection(Grouped(ps, n - 1), k);
    GroupedStep(ps, n, k);
    if k < n - 1 {
      OfSectionGrouped(ps, n - 1, k);
      assert before + [] == before;
    } else {
      NotGrouped(ps, k, k);
      assert [] + OfSection(ps, k) == OfSection(ps, k);
    }
  }

  // ---------------------------------------------------------------------
  // Only well-formed documents come back
  // ---------------------------------------------------------------------

  lemma {:induction false} SpanScanned(s: string, i: nat, stop: Stop)
    requires i <= |s|
    ensures var j := Span(s, i, stop);
      && (j == |s| || s[j] == NUL || Halts(stop, s[j]))
      && (forall k :: i <= k < j ==> s[k] != NUL && !Halts(stop, s[k]))
    decreases |s| - i
  {
    if !(i == |s| || s[i] == NUL || Halts(stop, s[i])) {
      SpanScanned(s, i + 1, stop);
    }
  }

  lemma {:induction false} MarginScanned(s: string, i: nat)
    requires i <= |s|
    ensures var j := Margin(s, i); j == |s| || s[j] == NUL || s[j] == '\n' || !Blank(s[j])
    decreases |s| - i
  {
    if !(i == |s| || s[i] == NUL || s[i] == '\n' || !Blank(s[i])) {
      MarginScanned(s, i + 1);
    }
  }

  lemma {:induction false} TrimEndTrimmed(s: string, lo: nat, hi: nat)
    requires lo <= hi <= |s|
    ensures var r := TrimEnd(s, lo, hi); r == lo || !Blank(s[r - 1])
    decreases hi
  {
    if lo < hi && Blank(s[hi - 1]) {
      TrimEndTrimmed(s, lo, hi - 1);
    }
  }

  predicate Suffix(n: string, s: string) {
    |n| <= |s| && n == s[|s| - |n|..]
  }

  /** A name that swallowed the rest of the text, which is what an empty name or section name gives. */
  predicate Runaway(name: string, first: char, s: string) {
    name != "" && name[0] == first && Suffix(name, s)
  }

  predicate Loaded(item: Item, s: string) {
    match item
    case Section(name) => GoodSection(name) || Runaway(name, ']', s)
    case Entry(name, value) => GoodValue(value) && (GoodName(name) || Runaway(name, '=', s))
  }

  /** A name of length zero is taken to be the rest of the text. */
  lemma TakenRest(s: string, i: nat)
    requires i <= |s| && NoNul(s)
    ensures Taken(s, i, 0) == s[i..] && Suffix(s[i..], s)
  {
    SpanIs(s, i, |s|, TextEnd);
  }

  lemma TakenPart(s: string, i: nat, j: nat)
    requires i < j <= |s| && NoNul(s)
    ensures Taken(s, i, j - i) == s[i..j]
  {
    SpanIs(s, i, |s|, TextEnd);
  }

  lemma ValueIsGood(s: string, v: nat, z: nat)
    requires v <= |s| && NoNul(s) && (v == |s| || s[v] == '\n' || !Blank(s[v]))
    requires z == TrimEnd(s, v, Span(s, v, LineEnd))
    ensures GoodValue(s[v..z])
  {
    SpanScanned(s, v, LineEnd);
    TrimEndTrimmed(s, v, Span(s, v, LineEnd));
    GoodPart(s, v, z);
  }

  lemma GoodPart(s: string, v: nat, z: nat)
    requires v <= z <= |s| && forall k :: v <= k < z ==> s[k] != NUL && !Halts(LineEnd, s[k])
    requires v < z ==> !Blank(s[v]) && !Blank(s[z - 1])
    ensures GoodValue(s[v..z])
  {
    var value := s[v..z];
    forall k | 0 <= k < |value|
      ensures value[k] != NUL && !Halts(LineEnd, value[k])
    {
      assert value[k] == s[v + k];
    }
  }

  lemma SectionPassLoaded(s: string, i: nat)
    requires i < |s| && NoNul(s)
    ensures forall item :: item in SectionPass(s, i).items ==> Loaded(item, s)
  {
    var e := Span(s, i + 1, SectionEnd);
    SpanScanned(s, i + 1, SectionEnd);
    if At(s, e) == ']' {
      if e == i + 1 {
        TakenRest(s, e);
        assert Runaway(s[e..], ']', s);
      } else {
        TakenPart(s, i + 1, e);
        assert GoodSection(s[i + 1..e]);
      }
    }
  }

  lemma EntryPassLoaded(s: string, i: nat)
    requires i < |s| && NoNul(s) && !Blank(s[i]) && s[i] != ';' && s[i] != '['
    ensures forall item :: item in EntryPass(s, i).items ==> Loaded(item, s)
  {
    var e := Span(s, i, NameEnd);
    SpanScanned(s, i, NameEnd);
    if At(s, e) == '=' {
      var v := Margin(s, e + 1);
      MarginScanned(s, e + 1);
      ValueIsGood(s, v, TrimEnd(s, v, Span(s, v, LineEnd)));
      if e == i {
        TakenRest(s, i);
        assert Runaway(s[i..], '=', s);
      } else {
        TakenPart(s, i, e);
        assert GoodName(s[i..e]);
      }
    }
  }

  lemma {:induction false} ItemsLoaded(s: string, i: nat)
    requires NoNul(s) && i <= |s|
    ensures forall item :: item in Items(s, i) ==> Loaded(item, s)
    decreases |s| - i
  {
    if i < |s| {
      if !Blank(s[i]) && s[i] == '[' {
        SectionPassLoaded(s, i);
      } else if !Blank(s[i]) && s[i] != ';' {
        EntryPassLoaded(s, i);
      }
      ItemsLoaded(s, Pass(s, i).next);
    }
  }

  /** `q` is the start of a line. */
  predicate LineStart(s: string, q: nat) {
    q <= |s| && (q == 0 || s[q - 1] == '\n')
  }

  lemma {:induction false} SpanWithin(s: string, i: nat, j: nat, stop: Stop)
    requires i <= j < |s| && Halts(stop, s[j])
    ensures Span(s, i, stop) <= j
    decreases j - i
  {
    if i < j {
      SpanWithin(s, i + 1, j, stop);
    }
  }

  lemma {:induction false} MarginWithin(s: string, i: nat, j: nat)
    requires i <= j < |s| && s[j] == '\n'
    ensures Margin(s, i) <= j
    decreases j - i
  {
    if i < j {
      MarginWithin(s, i + 1, j);
    }
  }

  /** A pass does not run past the start of a line. */
  lemma PassWithin(s: string, i: nat, q: nat)
    requires i < q && LineStart(s, q) && NoNul(s)
    ensures Pass(s, i).next <= q
  {
    if !Blank(s[i]) {
      if s[i] == ';' {
        SpanWithin(s, i, q - 1, LineEnd);
      } else if s[i] == '[' {
        SpanWithin(s, i + 1, q - 1, SectionEnd);
      } else {
        SpanWithin(s, i, q - 1, NameEnd);
        var e := Span(s, i, NameEnd);
        if At(s, e) == '=' {
          MarginWithin(s, e + 1, q - 1);
          SpanWithin(s, Margin(s, e + 1), q - 1, LineEnd);
        }
      }
    }
  }

  /** The scanner starts afresh on every line. */
  lemma {:induction false} LineIsRead(s: string, i: nat, q: nat)
    requires i <= q && LineStart(s, q) && NoNul(s)
    ensures forall item :: item in Items(s, q) ==> item in Items(s, i)
    decreases q - i
  {
    if i < q {
      PassWithin(s, i, q);
      LineIsRead(s, Pass(s, i).next, q);
    }
  }

  predicate Ended(a: string) {
    a == "" || a[|a| - 1] == '\n'
  }

  lemma {:induction false} LinesEnded(ps: seq<Property>, k: int)
    ensures Ended(Lines(ps, k))
  {
    if ps != [] {
      LinesEnded(ps[1..], k);
    }
  }

  lemma {:induction false} TextEnded(d: Document, n: nat)
    requires n <= |d.sections|
    ensures Ended(Text(d, n))
  { }

  /** `x` stands at the start of a line of `t`. */
  ghost predicate Contains(t: string, x: string) {
    exists a: string, b: string :: Ended(a) && t == a + x + b
  }

  lemma ContainsMore(t: string, x: string, y: string)
    requires Contains(t, x)
    ensures Contains(t + y, x)
  {
    var a: string, b: string :| Ended(a) && t == a + x + b;
    assert t + y == a + x + (b + y);
  }

  lemma ContainsAfter(t: string, x: string)
    requires Ended(t)
    ensures Contains(t + x, x)
  {
    assert t + x == t + x + "";
  }

  lemma ContainsWithin(t: string, x: string, y: string)
    requires Ended(t) && Contains(x, y)
    ensures Contains(t + x, y)
  {
    var a: string, b: string :| Ended(a) && x == a + y + b;
    assert t + x == (t + a) + y + b;
    assert Ended(t + a);
  }

  lemma HeaderEnded(name: string)
    ensures Ended(Header(name))
  { }

  lemma EndedAppend(a: string, b: string)
    requires Ended(a) && Ended(b)
    ensures Ended(a + b)
  { }

  lemma {:induction false} LinePrinted(ps: seq<Property>, p: Property)
    requires p in ps
    ensures Contains(Lines(ps, p.section), Line(p))
  {
    var rest := Lines(ps[1..], p.section);
    if ps[0] == p {
      ContainsAfter("", Line(p));
      assert "" + Line(p) == Line(p);
      ContainsMore(Line(p), Line(p), rest);
    } else {
      assert p in ps[1..];
      LinePrinted(ps[1..], p);
      ContainsWithin(if ps[0].section == p.section then Line(ps[0]) else "", rest, Line(p));
    }
  }

  lemma PrintedLast(t: string, head: string, lines: string, x: string)
    requires Ended(t) && Ended(head) && (x == head || Contains(lines, x))
    ensures Contains(t + head + lines, x)
  {
    if x == head {
      ContainsAfter(t, head);
      ContainsMore(t + head, x, lines);
    } else {
      EndedAppend(t, head);
      ContainsWithin(t + head, lines, x);
    }
  }

  lemma PrintedBefore(t: string, head: string, lines: string, x: string)
    requires Contains(t, x)
    ensures Contains(t + head + lines, x)
  {
    ContainsMore(t, x, head);
    ContainsMore(t + head, x, lines);
  }

  lemma PrintedClosed(t: string, x: string)
    requires Contains(t, x)
    ensures Contains(Closed(t), x)
  {
    ContainsMore(t, x, "\n");
  }

  /** Whatever starts a line in a section's header or lines starts a line of the text. */
  lemma SectionPrinted(d: Document, n: nat, k: nat, x: string)
    requires k < n <= |d.sections|
    requires x == Header(d.sections[k]) || Contains(Lines(d.properties, k), x)
    ensures Contains(Text(d, n), x)
  {
    LastSectionPrinted(d, k + 1, x);
    StaysPrinted(d, k + 1, n, x);
  }

  lemma {:induction false} StaysPrinted(d: Document, m: nat, n: nat, x: string)
    requires m <= n <= |d.sections| && Contains(Text(d, m), x)
    ensures Contains(Text(d, n), x)
  {
    if m < n {
      StaysPrinted(d, m, n - 1, x);
      EarlierPrinted(d, n, x);
    }
  }

  lemma EarlierPrinted(d: Document, n: nat, x: string)
    requires 0 < n <= |d.sections| && Contains(Text(d, n - 1), x)
    ensures Contains(Text(d, n), x)
  {
    var t, head, lines := Text(d, n - 1), Header(d.sections[n - 1]), Lines(d.properties, n - 1);
    PrintedBefore(t, head, lines, x);
    PrintedClosed(t + head + lines, x);
  }

  lemma LastSectionPrinted(d: Document, n: nat, x: string)
    requires 0 < n <= |d.sections|
    requires x == Header(d.sections[n - 1]) || Contains(Lines(d.properties, n - 1), x)
    ensures Contains(Text(d, n), x)
  {
    var t, head, lines := Text(d, n - 1), Header(d.sections[n - 1]), Lines(d.properties, n - 1);
    TextEnded(d, n - 1);
    HeaderEnded(d.sections[n - 1]);
    PrintedLast(t, head, lines, x);
    PrintedClosed(t + head + lines, x);
  }

  lemma NoNulAppend(a: string, b: string)
    requires NoNul(a) && NoNul(b)
    ensures NoNul(a + b)
  { }

  lemma NoNulClosed(t: string)
    requires NoNul(t)
    ensures NoNul(Closed(t))
  { }

  lemma {:induction false} LinesNoNul(ps: seq<Property>, k: int)
    requires forall p :: p in ps ==> NoNul(p.name) && NoNul(p.value)
    ensures NoNul(Lines(ps, k))
  {
    if ps != [] {
      LinesNoNul(ps[1..], k);
    }
  }

  lemma HeaderNoNul(name: string)
    requires NoNul(name)
    ensures NoNul(Header(name))
  { }

  lemma {:induction false} TextNoNul(d: Document, n: nat)
    requires CStrings(d) && n <= |d.sections|
    ensures NoNul(Text(d, n))
  {
    if n > 0 {
      var t, head, lines := Text(d, n - 1), Header(d.sections[n - 1]), Lines(d.properties, n - 1);
      TextNoNul(d, n - 1);
      HeaderNoNul(d.sections[n - 1]);
      LinesNoNul(d.properties, n - 1);
      NoNulAppend(t, head);
      NoNulAppend(t + head, lines);
      NoNulClosed(t + head + lines);
    }
  }

  /** Where the parts of a built document come from, and where its items go. */
  lemma {:induction false} BuildOrigin(e: Document, items: seq<Item>)
    requires e.sections != []
    ensures var d := Build(e, items);
      && e.sections <= d.sections && e.properties <= d.properties
      && (forall k :: |e.sections| <= k < |d.sections| ==> Section(d.sections[k]) in items)
      && (forall p :: p in d.properties ==> p in e.properties || Entry(p.name, p.value) in items)
    decreases |items|
  {
    if items != [] {
      BuildOrigin(Extend(e, items[0]), items[1..]);
    }
  }

  lemma {:induction false} SectionKept(e: Document, items: seq<Item>, name: string) returns (k: nat)
    requires Section(name) in items && e.sections != []
    ensures |e.sections| <= k < |Build(e, items).sections| && Build(e, items).sections[k] == name
    decreases |items|
  {
    var e' := Extend(e, items[0]);
    BuildOrigin(e', items[1..]);
    if items[0] == Section(name) {
      k := |e.sections|;
    } else {
      k := SectionKept(e', items[1..], name);
    }
  }

  lemma {:induction false} EntryKept(e: Document, items: seq<Item>, name: string, value: string) returns (p: Property)
    requires Entry(name, value) in items && e.sections != []
    ensures p in Build(e, items).properties && p.name == name && 0 <= p.section < |Build(e, items).sections|
    decreases |items|
  {
    var e' := Extend(e, items[0]);
    BuildOrigin(e', items[1..]);
    if items[0] == Entry(name, value) {
      p := Property(|e.sections| - 1, name, value);
      assert p in e'.properties;
    } else {
      p := EntryKept(e', items[1..], name, value);
    }
  }

  lemma {:induction false} OfSectionHas(ps: seq<Property>, p: Property)
    requires p in ps
    ensures p in OfSection(ps, p.section)
  {
    if ps[0] != p {
      assert p in ps[1..];
      OfSectionHas(ps[1..], p);
    }
  }

  /** A property of one document is a property of any document with the same contents. */
  lemma SharedProperty(d: Document, e: Document, p: Property)
    requires SameContents(d, e) && p in d.properties && 0 <= p.section < |d.sections|
    ensures p in e.properties
  {
    OfSectionHas(d.properties, p);
    OfSectionIsThere(e.properties, p.section);
  }

  ghost predicate Restored(d: Document) {
    SameContents(Load(Save(d)), d)
  }

  lemma EmptyNameRunsAway(s: string, i: nat)
    requires i < |s| && s[i] == '=' && NoNul(s)
    ensures exists value: string :: Entry(s[i..], value) in Items(s, i)
  {
    TakenRest(s, i);
    var f := EntryPass(s, i);
    assert Pass(s, i) == f && Span(s, i, NameEnd) == i;
    assert f.items[0].name == s[i..];
    assert Entry(s[i..], f.items[0].value) in f.items;
  }

  lemma EmptySectionRunsAway(s: string, i: nat)
    requires i + 1 < |s| && s[i] == '[' && s[i + 1] == ']' && NoNul(s)
    ensures Section(s[i + 1..]) in Items(s, i)
  {
    TakenRest(s, i + 1);
    assert Pass(s, i).items == [Section(s[i + 1..])];
  }

  /** Where a line of the text starts, and how much text there is from there on. */
  lemma LinePosition(text: string, x: string) returns (q: nat)
    requires Contains(text, x)
    ensures LineStart(text, q) && Occurs(text, q, x)
  {
    var a: string, b: string :| Ended(a) && text == a + x + b;
    q := |a|;
    assert a != "" ==> text[q - 1] == a[|a| - 1];
    assert forall k :: 0 <= k < |x| ==> text[q + k] == x[k];
  }

  /** A runaway name, once printed, is read back as a longer one. */
  lemma RereadName(text: string, p: Property) returns (longer: string, value: string)
    requires p.name != "" && p.name[0] == '=' && Contains(text, Line(p)) && NoNul(text)
    ensures |longer| > |p.name| && Runaway(longer, '=', text) && Entry(longer, value) in Items(text, 0)
  {
    var q := LinePosition(text, Line(p));
    assert text[q] == Line(p)[0] == '=';
    LineIsRead(text, 0, q);
    EmptyNameRunsAway(text, q);
    longer := text[q..];
    value :| Entry(longer, value) in Items(text, q);
  }

  lemma RereadSection(text: string, name: string) returns (longer: string)
    requires name != "" && name[0] == ']' && Contains(text, Header(name)) && NoNul(text)
    ensures |longer| > |name| && Runaway(longer, ']', text) && Section(longer) in Items(text, 0)
  {
    var q := LinePosition(text, Header(name));
    assert text[q] == Header(name)[0] == '[' && text[q + 1] == Header(name)[1] == ']';
    LineIsRead(text, 0, q);
    EmptySectionRunsAway(text, q);
    longer := text[q + 1..];
  }

  lemma {:induction false} EntryNotRunaway(d: Document, p: Property)
    requires Valid(d) && CStrings(d) && Restored(d) && p in d.properties
    ensures !Runaway(p.name, '=', Save(d))
    decreases |Save(d)| - |p.name|
  {
    var text := Save(d);
    if Runaway(p.name, '=', text) {
      LinePrinted(d.properties, p);
      SectionPrinted(d, |d.sections|, p.section, Line(p));
      TextNoNul(d, |d.sections|);
      var longer, value := RereadName(text, p);
      var q := EntryKept(EMPTY, Items(text, 0), longer, value);
      SharedProperty(Load(text), d, q);
      EntryNotRunaway(d, q);
    }
  }

  lemma {:induction false} SectionNotRunaway(d: Document, k: nat)
    requires CStrings(d) && Restored(d) && k < |d.sections|
    ensures !Runaway(d.sections[k], ']', Save(d))
    decreases |Save(d)| - |d.sections[k]|
  {
    var text := Save(d);
    if Runaway(d.sections[k], ']', text) {
      SectionPrinted(d, |d.sections|, k, Header(d.sections[k]));
      TextNoNul(d, |d.sections|);
      var longer := RereadSection(text, d.sections[k]);
      var j := SectionKept(EMPTY, Items(text, 0), longer);
      SectionNotRunaway(d, j);
    }
  }

  lemma RestoredSection(d: Document, k: nat)
    requires Valid(d) && CStrings(d) && Restored(d) && 0 < k < |d.sections|
    ensures GoodSection(d.sections[k])
  {
    var text := Save(d);
    TextNoNul(d, |d.sections|);
    ItemsLoaded(text, 0);
    BuildOrigin(EMPTY, Items(text, 0));
    assert Section(d.sections[k]) in Items(text, 0);
    SectionNotRunaway(d, k);
  }

  lemma RestoredProperty(d: Document, p: Property)
    requires Valid(d) && CStrings(d) && Restored(d) && p in d.properties
    ensures GoodName(p.name) && GoodValue(p.value)
  {
    RestoredItem(d, p);
    EntryNotRunaway(d, p);
  }

  /** A property that came back was an item of the text. */
  lemma RestoredItem(d: Document, p: Property)
    requires Valid(d) && CStrings(d) && Restored(d) && p in d.properties
    ensures Loaded(Entry(p.name, p.value), Save(d))
  {
    TextNoNul(d, |d.sections|);
    SharedProperty(d, Load(Save(d)), p);
    LoadedProperty(Save(d), p);
  }

  lemma LoadedProperty(text: string, p: Property)
    requires NoNul(text) && p in Load(text).properties
    ensures Loaded(Entry(p.name, p.value), text)
  {
    ItemsLoaded(text, 0);
    BuildOrigin(EMPTY, Items(text, 0));
  }

  lemma RestoredIsWellFormed(d: Document)
    requires Valid(d) && CStrings(d) && Restored(d)
    ensures WellFormed(d)
  {
    BuildOrigin(EMPTY, Items(Save(d), 0));
    forall k | 0 < k < |d.sections|
      ensures GoodSection(d.sections[k])
    {
      RestoredSection(d, k);
    }
    forall p | p in d.properties
      ensures GoodName(p.name) && GoodValue(p.value)
    {
      RestoredProperty(d, p);
    }
  }

  /** A document comes back from ini_save and ini_load exactly when the format can express it. */
  lemma RoundTrip(d: Document)
    requires Valid(d) && CStrings(d)
    ensures Restored(d) <==> WellFormed(d)
  {
    if WellFormed(d) {
      LoadSave(d);
      forall k | 0 <= k < |d.sections|
        ensures OfSection(Load(Save(d)).properties, k) == OfSection(d.properties, k)
      {
        OfSectionGrouped(d.properties, |d.sections|, k);
      }
    }
    if Restored(d) {
      RestoredIsWellFormed(d);
    }
  }

  /** A property without a name is printed but does not come back: its line is read as one long name. */
  lemma EmptyNameLost(value: string)
    requires NoNul(value)
    ensures !Restored(Document([""], [Property(0, "", value)]))
  {
    var p := Property(0, "", value);
    var d := Document([""], [p]);
    assert p in d.properties;
    RoundTrip(d);
  }

  // ---------------------------------------------------------------------
  // What follows the terminator does not matter
  // ---------------------------------------------------------------------

  /** The text `t`, its terminator, and anything after that. */
  ghost predicate Terminated(s: string, t: string) {
    |t| < |s| && s[|t|] == NUL && forall k :: 0 <= k < |t| ==> s[k] == t[k]
  }

  lemma {:induction false} SpanTerminated(s: string, t: string, i: nat, stop: Stop)
    requires Terminated(s, t) && i <= |t|
    ensures Span(s, i, stop) == Span(t, i, stop)
    decreases |t| - i
  {
    if i < |t| && t[i] != NUL && !Halts(stop, t[i]) {
      SpanTerminated(s, t, i + 1, stop);
    }
  }

  lemma {:induction false} MarginTerminated(s: string, t: string, i: nat)
    requires Terminated(s, t) && i <= |t|
    ensures Margin(s, i) == Margin(t, i)
    decreases |t| - i
  {
    if i < |t| && t[i] != NUL && t[i] != '\n' && Blank(t[i]) {
      MarginTerminated(s, t, i + 1);
    }
  }

  lemma {:induction false} TrimEndTerminated(s: string, t: string, lo: nat, hi: nat)
    requires Terminated(s, t) && lo <= hi <= |t|
    ensures TrimEnd(s, lo, hi) == TrimEnd(t, lo, hi)
    decreases hi
  {
    if lo < hi && Blank(t[hi - 1]) {
      TrimEndTerminated(s, t, lo, hi - 1);
    }
  }

  lemma PartTerminated(s: string, t: string, i: nat, j: nat)
    requires Terminated(s, t) && i <= j <= |t|
    ensures s[i..j] == t[i..j]
  { }

  lemma TakenTerminated(s: string, t: string, from: nat, length: int)
    requires Terminated(s, t) && from <= |t| && from + length <= |t|
    ensures Taken(s, from, length) == Taken(t, from, length)
  {
    var end := Span(t, from, TextEnd);
    SpanTerminated(s, t, from, TextEnd);
    PartTerminated(s, t, from, if length <= 0 || end < from + length then end else from + length);
  }

  lemma EntryPassTerminated(s: string, t: string, i: nat)
    requires Terminated(s, t) && i < |t| && t[i] != NUL && t[i] != '\n'
    ensures EntryPass(s, i) == EntryPass(t, i)
  {
    var e := Span(t, i, NameEnd);
    SpanTerminated(s, t, i, NameEnd);
    TakenTerminated(s, t, i, e - i);
    if At(t, e) == '=' {
      var v := Margin(t, e + 1);
      MarginTerminated(s, t, e + 1);
      SpanTerminated(s, t, v, LineEnd);
      TrimEndTerminated(s, t, v, Span(t, v, LineEnd));
      PartTerminated(s, t, v, TrimEnd(t, v, Span(t, v, LineEnd)));
    }
  }

  lemma PassTerminated(s: string, t: string, i: nat)
    requires Terminated(s, t) && i < |t| && t[i] != NUL
    ensures Pass(s, i) == Pass(t, i)
  {
    SpanTerminated(s, t, i, LineEnd);
    if t[i] == '[' {
      SpanTerminated(s, t, i + 1, SectionEnd);
      TakenTerminated(s, t, i + 1, Span(t, i + 1, SectionEnd) - i - 1);
    } else if t[i] != '\n' {
      EntryPassTerminated(s, t, i);
    }
  }

  lemma {:induction false} ItemsTerminated(s: string, t: string, i: nat)
    requires Terminated(s, t) && i <= |t|
    ensures Items(s, i) == Items(t, i)
    decreases |t| - i
  {
    if i < |t| && t[i] != NUL {
      PassTerminated(s, t, i);
      ItemsTerminated(s, t, Pass(t, i).next);
    }
  }

  /** Loading stops at the terminator. */
  lemma LoadTerminated(s: string, t: string)
    requires Terminated(s, t)
    ensures Load(s) == Load(t)
  {
    ItemsTerminated(s, t, 0);
  }
}
