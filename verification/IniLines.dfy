/**
 What the scanner of ini_load makes of any text, said line by line: comments, blank lines,
 sections, properties, and lines that are none of these.
 */
module IniLines {
  import opened IniText

  /** A character is a signed byte: blank is every number up to that of a space, below zero included. */
  lemma BlankIsSigned(c: char, n: int)
    requires c as int < 256 && -128 <= n < 128 && (n - c as int) % 256 == 0
    ensures Blank(c) <==> n <= 32
  { }

  // ---------------------------------------------------------------------
  // What a line says
  // ---------------------------------------------------------------------

  /** The first place of a character between `i` and `z`, or `z`. */
  function FirstOf(s: string, c: char, i: nat, z: nat): (e: nat)
    requires i <= z <= |s|
    ensures i <= e <= z && (e < z ==> s[e] == c)
    decreases z - i
  {
    if i == z || s[i] == c then i else FirstOf(s, c, i + 1, z)
  }

  lemma {:induction false} NoneBefore(s: string, c: char, i: nat, z: nat)
    requires i <= z <= |s|
    ensures forall k :: i <= k < FirstOf(s, c, i, z) ==> s[k] != c
    decreases z - i
  {
    if i < z && s[i] != c {
      NoneBefore(s, c, i + 1, z);
    }
  }

  /** The text between `i` and `z` without the blanks around it. */
  function Trimmed(s: string, i: nat, z: nat): string
    requires i <= z <= |s|
    decreases z - i
  {
    if i < z && Blank(s[i]) then Trimmed(s, i + 1, z)
    else if i < z && Blank(s[z - 1]) then Trimmed(s, i, z - 1)
    else s[i..z]
  }

  /**
   The items of a line of the text, from `i` to its end `z`: nothing on an empty line or a comment, a
   section up to its bracket and then what follows that, and the name and the trimmed value around an
   equals sign. An empty name is taken for all of the text from there on.
   */
  function LineItems(s: string, i: nat, z: nat): seq<Item>
    requires i <= z <= |s|
    decreases z - i
  {
    if i == z || s[i] == ';' then []
    else if Blank(s[i]) then LineItems(s, i + 1, z)
    else if s[i] == '[' then
      var e := FirstOf(s, ']', i + 1, z);
      if e == z then [] else [Section(if e == i + 1 then s[e..] else s[i + 1..e])] + LineItems(s, e + 1, z)
    else
      var e := FirstOf(s, '=', i, z);
      if e == z then [] else [Entry(if e == i then s[e..] else s[i..e], Trimmed(s, e + 1, z))]
  }

  /** What the lines from `b` on say, one after the other, when `line` tells it of each. */
  function LineByLine(s: string, b: nat, line: (nat, nat) -> seq<Item>): seq<Item>
    requires b <= |s|
    decreases |s| - b
  {
    var z := FirstOf(s, '\n', b, |s|);
    line(b, z) + if z == |s| then [] else LineByLine(s, z + 1, line)
  }

  function LineOf(s: string): (nat, nat) -> seq<Item> {
    (i: nat, z: nat) => if i <= z <= |s| then LineItems(s, i, z) else []
  }

  /** The items of all lines of a text. */
  function TextItems(s: string): seq<Item> {
    LineByLine(s, 0, LineOf(s))
  }

  // ---------------------------------------------------------------------
  // The scanner finds just that
  // ---------------------------------------------------------------------

  /** From `i` to `z` is the rest of a line. */
  ghost predicate InLine(s: string, i: nat, z: nat) {
    && i <= z <= |s| && (z == |s| || s[z] == '\n') && NoNul(s)
    && forall k :: i <= k < z ==> s[k] != '\n'
  }

  lemma SpanToFirst(s: string, i: nat, z: nat, c: char, stop: Stop)
    requires InLine(s, i, z) && forall x :: Halts(stop, x) <==> x == c || x == '\n'
    ensures Span(s, i, stop) == FirstOf(s, c, i, z)
  {
    NoneBefore(s, c, i, z);
    SpanIs(s, i, FirstOf(s, c, i, z), stop);
  }

  lemma TakenIs(s: string, i: nat, e: nat)
    requires i <= e <= |s| && NoNul(s)
    ensures Taken(s, i, e - i) == if e == i then s[e..] else s[i..e]
  {
    SpanIs(s, i, |s|, TextEnd);
  }

  /** The value of a property, as the scanner finds it. */
  lemma {:induction false} ValueIs(s: string, j: nat, z: nat)
    requires InLine(s, j, z)
    ensures var v := Margin(s, j); v <= z && s[v..TrimEnd(s, v, z)] == Trimmed(s, j, z)
    decreases z - j
  {
    if j < z && Blank(s[j]) {
      ValueIs(s, j + 1, z);
    } else {
      EndIs(s, j, z);
    }
  }

  lemma {:induction false} EndIs(s: string, v: nat, z: nat)
    requires v <= z <= |s| && (v < z ==> !Blank(s[v]))
    ensures s[v..TrimEnd(s, v, z)] == Trimmed(s, v, z)
    decreases z
  {
    if v < z && Blank(s[z - 1]) {
      EndIs(s, v, z - 1);
    }
  }

  lemma {:induction false} TrimBlank(s: string, v: nat, z: nat, k: nat)
    requires v <= z <= |s| && TrimEnd(s, v, z) <= k < z
    ensures Blank(s[k])
    decreases z
  {
    if k < z - 1 {
      TrimBlank(s, v, z - 1, k);
    }
  }

  lemma SectionPassIs(s: string, i: nat, z: nat, e: nat, name: string)
    requires InLine(s, i, z) && i < z && s[i] == '[' && e == FirstOf(s, ']', i + 1, z)
    requires name == if e == i + 1 then s[e..] else s[i + 1..e]
    ensures Pass(s, i) == if e == z then Found([], z) else Found([Section(name)], e + 1)
  {
    SpanToFirst(s, i + 1, z, ']', SectionEnd);
    TakenIs(s, i + 1, e);
  }

  lemma ValueEnds(s: string, j: nat, z: nat, v: nat, next: nat)
    requires InLine(s, j, z) && v == Margin(s, j) <= z && next == TrimEnd(s, v, z)
    ensures Span(s, v, LineEnd) == z && forall k :: next <= k < z ==> Blank(s[k])
  {
    SpanIs(s, v, z, LineEnd);
    forall k | next <= k < z
      ensures Blank(s[k])
    {
      TrimBlank(s, v, z, k);
    }
  }

  lemma EntryPassIs(s: string, i: nat, z: nat, e: nat, name: string, value: string) returns (next: nat)
    requires InLine(s, i, z) && i < z && !Blank(s[i]) && s[i] != ';' && s[i] != '[' && e == FirstOf(s, '=', i, z) < z
    requires name == (if e == i then s[e..] else s[i..e]) && value == Trimmed(s, e + 1, z)
    ensures next <= z && Pass(s, i) == Found([Entry(name, value)], next)
    ensures forall k :: next <= k < z ==> Blank(s[k])
  {
    SpanToFirst(s, i, z, '=', NameEnd);
    TakenIs(s, i, e);
    var v := Margin(s, e + 1);
    ValueIs(s, e + 1, z);
    next := TrimEnd(s, v, z);
    ValueEnds(s, e + 1, z, v, next);
    EntryPassParts(s, i, e, v, z, next, name, value);
  }

  lemma EntryPassParts(s: string, i: nat, e: nat, v: nat, z: nat, next: nat, name: string, value: string)
    requires i < |s| && s[i] != NUL && !Blank(s[i]) && s[i] != ';' && s[i] != '['
    requires e == Span(s, i, NameEnd) < |s| && s[e] == '=' && name == Taken(s, i, e - i)
    requires v == Margin(s, e + 1) && z == Span(s, v, LineEnd) && next == TrimEnd(s, v, z) && value == s[v..next]
    ensures Pass(s, i) == Found([Entry(name, value)], next)
  { }

  lemma OtherPassIs(s: string, i: nat, z: nat)
    requires InLine(s, i, z) && i < z && !Blank(s[i]) && s[i] != '['
    requires s[i] == ';' || FirstOf(s, '=', i, z) == z
    ensures Pass(s, i) == Found([], z)
  {
    if s[i] == ';' {
      SpanIs(s, i, z, LineEnd);
    } else {
      SpanToFirst(s, i, z, '=', NameEnd);
    }
  }

  /** `found` gives the items from every place on: those of a pass, and then those from where it ends. */
  ghost predicate Scans(s: string, found: nat -> seq<Item>) {
    && NoNul(s) && found(|s|) == []
    && forall i {:trigger Steps(s, found, i)} :: 0 <= i < |s| ==> Steps(s, found, i)
  }

  ghost predicate Steps(s: string, found: nat -> seq<Item>, i: nat) {
    i < |s| && s[i] != NUL && found(i) == Pass(s, i).items + found(Pass(s, i).next)
  }

  /** The items from `i` on are `items` and then those from `z` on. */
  ghost predicate Gives(found: nat -> seq<Item>, i: nat, z: nat, items: seq<Item>) {
    found(i) == items + found(z)
  }

  lemma GivesBoth(found: nat -> seq<Item>, i: nat, j: nat, z: nat, a: seq<Item>, b: seq<Item>, items: seq<Item>)
    requires Gives(found, i, j, a) && Gives(found, j, z, b) && items == a + b
    ensures Gives(found, i, z, items)
  { }

  lemma PassGives(s: string, found: nat -> seq<Item>, i: nat, f: Found)
    requires Scans(s, found) && i < |s| && s[i] != NUL && Pass(s, i) == f
    ensures Gives(found, i, f.next, f.items)
  {
    assert Steps(s, found, i);
  }

  lemma BlankGives(s: string, found: nat -> seq<Item>, i: nat)
    requires Scans(s, found) && i < |s| && Blank(s[i])
    ensures Gives(found, i, i + 1, [])
  {
    PassGives(s, found, i, Found([], i + 1));
  }

  lemma {:induction false} BlanksGive(s: string, found: nat -> seq<Item>, i: nat, z: nat)
    requires Scans(s, found) && i <= z <= |s| && forall k :: i <= k < z ==> Blank(s[k])
    ensures Gives(found, i, z, [])
    decreases z - i
  {
    if i < z {
      BlankGives(s, found, i);
      BlanksGive(s, found, i + 1, z);
    }
  }

  lemma SectionGives(s: string, found: nat -> seq<Item>, i: nat, z: nat, e: nat)
    requires Scans(s, found) && InLine(s, i, z) && i < z && s[i] == '[' && e == FirstOf(s, ']', i + 1, z) < z
    ensures Gives(found, i, e + 1, [Section(if e == i + 1 then s[e..] else s[i + 1..e])])
  {
    var name := if e == i + 1 then s[e..] else s[i + 1..e];
    SectionPassIs(s, i, z, e, name);
    PassGives(s, found, i, Found([Section(name)], e + 1));
  }

  lemma EntryGives(s: string, found: nat -> seq<Item>, i: nat, z: nat, e: nat, name: string, value: string)
    requires Scans(s, found) && InLine(s, i, z) && i < z && !Blank(s[i]) && s[i] != ';' && s[i] != '['
    requires e == FirstOf(s, '=', i, z) < z
    requires name == (if e == i then s[e..] else s[i..e]) && value == Trimmed(s, e + 1, z)
    ensures Gives(found, i, z, [Entry(name, value)])
  {
    var next := EntryPassIs(s, i, z, e, name, value);
    PassGives(s, found, i, Found([Entry(name, value)], next));
    BlanksGive(s, found, next, z);
  }

  /** A comment, a section that is not closed, and a line without an equals sign give nothing. */
  lemma NothingGives(s: string, found: nat -> seq<Item>, i: nat, z: nat)
    requires Scans(s, found) && InLine(s, i, z) && i < z && !Blank(s[i])
    requires s[i] == ';' || FirstOf(s, if s[i] == '[' then ']' else '=', if s[i] == '[' then i + 1 else i, z) == z
    ensures Gives(found, i, z, [])
  {
    if s[i] == '[' {
      SectionPassIs(s, i, z, z, if z == i + 1 then s[z..] else s[i + 1..z]);
    } else {
      OtherPassIs(s, i, z);
    }
    PassGives(s, found, i, Found([], z));
  }

  lemma {:induction false} LineGives(s: string, found: nat -> seq<Item>, i: nat, z: nat, items: seq<Item>)
    requires Scans(s, found) && InLine(s, i, z) && items == LineItems(s, i, z)
    ensures Gives(found, i, z, items)
    decreases z - i
  {
    if i < z && Blank(s[i]) {
      BlankGives(s, found, i);
      LineGives(s, found, i + 1, z, items);
    } else if i < z && s[i] == '[' && FirstOf(s, ']', i + 1, z) < z {
      var e := FirstOf(s, ']', i + 1, z);
      LineGives(s, found, e + 1, z, LineItems(s, e + 1, z));
      SectionLineGives(s, found, i, z, e, LineItems(s, e + 1, z), items);
    } else {
      LastGives(s, found, i, z, items);
    }
  }

  /** What ends a line: nothing, something that is passed over, or an entry. */
  lemma LastGives(s: string, found: nat -> seq<Item>, i: nat, z: nat, items: seq<Item>)
    requires Scans(s, found) && InLine(s, i, z) && items == LineItems(s, i, z)
    requires i < z ==> !Blank(s[i]) && (s[i] == '[' ==> FirstOf(s, ']', i + 1, z) == z)
    ensures Gives(found, i, z, items)
  {
    if i < z {
      if s[i] == ';' || s[i] == '[' {
        NothingGives(s, found, i, z);
      } else {
        EntryLineGives(s, found, i, z, items);
      }
    }
  }

  lemma SectionLineGives(
    s: string, found: nat -> seq<Item>, i: nat, z: nat, e: nat, more: seq<Item>, items: seq<Item>)
    requires Scans(s, found) && InLine(s, i, z) && i < z && s[i] == '[' && e == FirstOf(s, ']', i + 1, z) < z
    requires Gives(found, e + 1, z, more) && items == [Section(if e == i + 1 then s[e..] else s[i + 1..e])] + more
    ensures Gives(found, i, z, items)
  {
    SectionGives(s, found, i, z, e);
  }

  lemma EntryLineGives(s: string, found: nat -> seq<Item>, i: nat, z: nat, items: seq<Item>)
    requires Scans(s, found) && InLine(s, i, z) && i < z && items == LineItems(s, i, z)
    requires !Blank(s[i]) && s[i] != ';' && s[i] != '['
    ensures Gives(found, i, z, items)
  {
    var e := FirstOf(s, '=', i, z);
    if e == z {
      NothingGives(s, found, i, z);
    } else {
      EntryGives(s, found, i, z, e, items[0].name, items[0].value);
    }
  }

  lemma FirstLine(s: string, b: nat)
    requires NoNul(s) && b <= |s|
    ensures InLine(s, b, FirstOf(s, '\n', b, |s|))
  {
    NoneBefore(s, '\n', b, |s|);
  }

  /** Each line gives what `line` tells of it. */
  ghost predicate Tells(s: string, found: nat -> seq<Item>, line: (nat, nat) -> seq<Item>) {
    forall i, z {:trigger line(i, z)} :: InLine(s, i, z) ==> Gives(found, i, z, line(i, z))
  }

  lemma {:induction false} LinesGive(
    s: string, found: nat -> seq<Item>, line: (nat, nat) -> seq<Item>, b: nat, items: seq<Item>)
    requires Scans(s, found) && Tells(s, found, line) && b <= |s| && items == LineByLine(s, b, line)
    ensures Gives(found, b, |s|, items)
    decreases |s| - b
  {
    var z := FirstOf(s, '\n', b, |s|);
    FirstLine(s, b);
    if z < |s| {
      var more := LineByLine(s, z + 1, line);
      BlankGives(s, found, z);
      LinesGive(s, found, line, z + 1, more);
      GivesBoth(found, b, z, |s|, line(b, z), more, items);
    }
  }

  lemma {:induction false} ItemsScan(s: string)
    requires NoNul(s)
    ensures Scans(s, (i: nat) => if i <= |s| then Items(s, i) else [])
  {
    var found := (i: nat) => if i <= |s| then Items(s, i) else [];
    forall i | 0 <= i < |s|
      ensures Steps(s, found, i)
    {
      ItemsStep(s, i, Pass(s, i));
    }
  }

  /** Loading a text is adding what its lines say, one line after the other. */
  lemma LoadIsLines(text: string)
    requires NoNul(text)
    ensures Load(text) == Build(EMPTY, TextItems(text))
  {
    ItemsScan(text);
    var found := (i: nat) => if i <= |text| then Items(text, i) else [];
    TextGives(text, found, TextItems(text));
    assert found(0) == Items(text, 0);
  }

  lemma TextGives(s: string, found: nat -> seq<Item>, items: seq<Item>)
    requires Scans(s, found) && items == TextItems(s)
    ensures found(0) == items
  {
    LineOfTells(s, found, LineOf(s));
    LinesGive(s, found, LineOf(s), 0, items);
    assert items + [] == items;
  }

  lemma LineOfTells(s: string, found: nat -> seq<Item>, line: (nat, nat) -> seq<Item>)
    requires Scans(s, found) && line == LineOf(s)
    ensures Tells(s, found, line)
  {
    forall i: nat, z: nat | InLine(s, i, z)
      ensures Gives(found, i, z, line(i, z))
    {
      LineGives(s, found, i, z, line(i, z));
    }
  }

  /** In any text, a line that begins with a semicolon, blanks before it or not, is passed over. */
  lemma CommentSkipped(s: string, b: nat, i: nat, z: nat)
    requires b <= i && InLine(s, i, z) && i < z < |s| && s[i] == ';' && forall k :: b <= k < i ==> Blank(s[k])
    ensures Items(s, b) == Items(s, z + 1)
  {
    ItemsScan(s);
    var found := (i: nat) => if i <= |s| then Items(s, i) else [];
    CommentGives(s, found, b, i, z);
    assert found(b) == Items(s, b) && found(z + 1) == Items(s, z + 1);
  }

  lemma CommentGives(s: string, found: nat -> seq<Item>, b: nat, i: nat, z: nat)
    requires Scans(s, found) && b <= i && InLine(s, i, z) && i < z < |s| && s[i] == ';'
    requires forall k :: b <= k < i ==> Blank(s[k])
    ensures found(b) == found(z + 1)
  {
    BlanksGive(s, found, b, i);
    NothingGives(s, found, i, z);
    BlankGives(s, found, z);
  }

  /** Nothing is loaded from a comment. */
  lemma CommentIgnored(c: string, t: string, s: string)
    requires s == ";" + c + "\n" + t && NoNul(s) && '\n' !in c
    ensures Load(s) == Build(EMPTY, Items(s, |c| + 2))
  {
    var z := |c| + 1;
    assert forall k :: 0 < k < z ==> s[k] == c[k - 1];
    CommentSkipped(s, 0, 0, z);
  }

  // ---------------------------------------------------------------------
  // What is printed
  // ---------------------------------------------------------------------

  /** The lines of some properties, one after the other. */
  function Printed(ps: seq<Property>): string {
    if ps == [] then "" else ps[0].name + "=" + ps[0].value + "\n" + Printed(ps[1..])
  }

  lemma {:induction false} LinesArePrinted(ps: seq<Property>, section: int)
    ensures Lines(ps, section) == Printed(OfSection(ps, section))
  {
    if ps != [] {
      LinesArePrinted(ps[1..], section);
      var rest := OfSection(ps[1..], section);
      if ps[0].section == section {
        assert ([ps[0]] + rest)[1..] == rest;
      } else {
        assert [] + rest == rest;
      }
    }
  }

  /** A section more: its name in brackets unless it has none, its properties, and an empty line after any text. */
  lemma SectionPrinted(d: Document, n: nat)
    requires n < |d.sections|
    ensures var name := d.sections[n];
            var header := if name == "" then "" else "[" + name + "]\n";
            var text := Text(d, n) + header + Printed(OfSection(d.properties, n));
            Text(d, n + 1) == if text == "" then "" else text + "\n"
  {
    LinesArePrinted(d.properties, n);
  }

  /** A document with one property outside any section and one inside. */
  lemma SavedText(a: string, b: string, s: string, c: string, v: string, text: string)
    requires s != "" && text == Save(Document(["", s], [Property(0, a, b), Property(1, c, v)]))
    ensures text == a + "=" + b + "\n\n[" + s + "]\n" + c + "=" + v + "\n\n"
  {
    var first, second := Property(0, a, b), Property(1, c, v);
    var d := Document(["", s], [first, second]);
    BothSections(d.properties, first, second);
    PrintedNext(d, 0, "", "", a + "=" + b + "\n", Text(d, 1));
    PrintedNext(d, 1, Text(d, 1), "[" + s + "]\n", c + "=" + v + "\n", text);
    SavedPieces(a + "=" + b, s, c + "=" + v, Text(d, 1), text);
    assert c + "=" + v + "\n\n" == (c + "=" + v) + "\n\n";
  }

  lemma PrintedNext(d: Document, n: nat, before: string, header: string, lines: string, after: string)
    requires n < |d.sections| && before == Text(d, n) && after == Text(d, n + 1) && lines != ""
    requires header == (if d.sections[n] == "" then "" else "[" + d.sections[n] + "]\n")
    requires lines == Printed(OfSection(d.properties, n))
    ensures after == before + header + lines + "\n"
  {
    SectionPrinted(d, n);
  }

  lemma SavedPieces(x: string, s: string, z: string, first: string, second: string)
    requires first == "" + "" + (x + "\n") + "\n"
    requires second == first + ("[" + s + "]\n") + (z + "\n") + "\n"
    ensures second == x + "\n\n[" + s + "]\n" + z + "\n\n"
  { }

  lemma BothSections(ps: seq<Property>, first: Property, second: Property)
    requires ps == [first, second] && first.section == 0 && second.section == 1
    ensures Printed(OfSection(ps, 0)) == first.name + "=" + first.value + "\n"
    ensures Printed(OfSection(ps, 1)) == second.name + "=" + second.value + "\n"
  {
    assert ps[1..] == [second];
    OnlyOne(first);
    OnlyOne(second);
    assert OfSection(ps, 0) == [first] + OfSection([second], 0) == [first];
    assert OfSection(ps, 1) == [] + OfSection([second], 1) == [second];
  }

  lemma OnlyOne(p: Property)
    ensures Printed([p]) == p.name + "=" + p.value + "\n"
    ensures forall k :: OfSection([p], k) == if p.section == k then [p] else []
  {
    assert |[p][1..]| == 0 && Printed([p][1..]) == "";
    forall k
      ensures OfSection([p], k) == if p.section == k then [p] else []
    {
      assert OfSection([p][1..], k) == [];
    }
  }
}
