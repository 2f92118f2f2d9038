/**
 The symbol resolver: symbols are sorted by selection in place, symbols at zero dropped, the
 rest appended to a table; an address is looked up from the end of the table.
 */
module Symbols {

  const WORD: nat := 0x1_0000_0000_0000_0000
  const UNKNOWN: string := "<unknown>"

  datatype Symbol = Symbol(address: nat, name: string)

  // ---------------------------------------------------------------------
  // Sorting
  // ---------------------------------------------------------------------

  ghost predicate Sorted(s: seq<Symbol>) {
    forall i, j :: 0 <= i < j < |s| ==> s[i].address <= s[j].address
  }

  /** Nothing in the first part is above anything in the second. */
  ghost predicate Below(s: seq<Symbol>, i: nat)
    requires i <= |s|
  {
    forall j, k :: 0 <= j < i <= k < |s| ==> s[j].address <= s[k].address
  }

  ghost function Swapped(s: seq<Symbol>, i: nat, m: nat): (r: seq<Symbol>)
    requires i < |s| && m < |s|
    ensures |r| == |s|
  {
    s[i := s[m]][m := s[i]]
  }

  lemma SwappedSame(s: seq<Symbol>, i: nat, m: nat)
    requires i < |s| && m < |s|
    ensures multiset(Swapped(s, i, m)) == multiset(s)
  { }

  /** One more minimum in place. */
  lemma SelectStep(s: seq<Symbol>, i: nat, m: nat)
    requires i <= m < |s| && Sorted(s[..i]) && Below(s, i)
    requires forall k :: i <= k < |s| ==> s[m].address <= s[k].address
    ensures var r := Swapped(s, i, m); Sorted(r[..i + 1]) && Below(r, i + 1)
  { }

  method FindMinimum(a: array<Symbol>, i: nat) returns (m: nat)
    requires i < a.Length
    ensures i <= m < a.Length && forall k :: i <= k < a.Length ==> a[m].address <= a[k].address
    ensures forall k :: i <= k < m ==> a[m].address < a[k].address
  {
    m := i;
    var index := i + 1;
    while index < a.Length
      invariant i < index <= a.Length && i <= m < index
      invariant forall k :: i <= k < index ==> a[m].address <= a[k].address
      invariant forall k :: i <= k < m ==> a[m].address < a[k].address
    {
      if a[index].address < a[m].address {
        m := index;
      }
      index := index + 1;
    }
  }

  method Swap(a: array<Symbol>, i: nat, m: nat)
    requires i < a.Length && m < a.Length
    modifies a
    ensures a[..] == Swapped(old(a[..]), i, m)
  {
    a[i], a[m] := a[m], a[i];
  }

  method SelectionSort(a: array<Symbol>)
    requires a.Length > 0
    modifies a
    ensures Sorted(a[..]) && multiset(a[..]) == multiset(old(a[..]))
  {
    var i: nat := 0;
    while i < a.Length - 1
      invariant i <= a.Length - 1
      invariant Sorted(a[..][..i]) && Below(a[..], i)
      invariant multiset(a[..]) == multiset(old(a[..]))
    {
      var m := FindMinimum(a, i);
      SelectStep(a[..], i, m);
      SwappedSame(a[..], i, m);
      Swap(a, i, m);
      i := i + 1;
    }
    LastInPlace(a[..], i);
  }

  lemma LastInPlace(s: seq<Symbol>, i: nat)
    requires |s| == i + 1 && Sorted(s[..i]) && Below(s, i)
    ensures Sorted(s)
  { }

  // ---------------------------------------------------------------------
  // Looking up
  // ---------------------------------------------------------------------

  predicate Candidate(s: Symbol, address: nat) {
    0 < s.address <= address
  }

  /** What a resolver should answer: a symbol with the greatest address up to the one asked for. */
  ghost predicate Nearest(table: seq<Symbol>, address: nat, i: nat) {
    && i < |table| && Candidate(table[i], address)
    && forall j :: 0 <= j < |table| && Candidate(table[j], address) ==> table[j].address <= table[i].address
  }

  /** The last candidate among the first `n`, or minus one. */
  function LastCandidate(table: seq<Symbol>, address: nat, n: nat): (i: int)
    requires n <= |table|
    ensures -1 <= i < n
    ensures i >= 0 ==> Candidate(table[i], address)
    ensures forall j :: i < j < n ==> !Candidate(table[j], address)
  {
    if n == 0 then -1
    else if Candidate(table[n - 1], address) then n - 1
    else LastCandidate(table, address, n - 1)
  }

  /** The answer for this address is right. */
  ghost predicate RightAt(table: seq<Symbol>, address: nat) {
    var i := LastCandidate(table, address, |table|);
    i >= 0 ==> Nearest(table, address, i)
  }

  /** No symbol is followed by a lower one, unless another at its own address comes later still. */
  ghost predicate Tame(table: seq<Symbol>) {
    forall i, j {:trigger Again(table, i, j)} ::
      0 <= i < j < |table| && 0 < table[j].address < table[i].address ==> Again(table, i, j)
  }

  /** After the `j`-th symbol there is one at the address of the `i`-th. */
  ghost predicate Again(table: seq<Symbol>, i: nat, j: nat)
    requires i < |table|
  {
    exists k :: j < k < |table| && table[k].address == table[i].address
  }

  lemma TameIsRight(table: seq<Symbol>, address: nat)
    requires Tame(table)
    ensures RightAt(table, address)
  {
    var i := LastCandidate(table, address, |table|);
    forall j | 0 <= j < |table| && Candidate(table[j], address) && i >= 0
      ensures table[j].address <= table[i].address
    {
      if table[j].address > table[i].address {
        assert Again(table, j, i);
      }
    }
  }

  lemma RightIsTame(table: seq<Symbol>, i: nat, j: nat)
    requires i < j < |table| && 0 < table[j].address < table[i].address
    requires RightAt(table, table[i].address)
    ensures Again(table, i, j)
  { }

  /** GetSymbol answers right for every address exactly when the table is tame. */
  lemma RightEverywhere(table: seq<Symbol>)
    ensures (forall address: nat :: RightAt(table, address)) <==> Tame(table)
  {
    if Tame(table) {
      forall address: nat
        ensures RightAt(table, address)
      {
        TameIsRight(table, address);
      }
    }
    if forall address: nat :: RightAt(table, address) {
      forall i, j | 0 <= i < j < |table| && 0 < table[j].address < table[i].address
        ensures Again(table, i, j)
      {
        assert RightAt(table, table[i].address);
        RightIsTame(table, i, j);
      }
    }
  }

  lemma SortedIsTame(table: seq<Symbol>)
    requires Sorted(table)
    ensures Tame(table)
  { }

  /** Two images appended one after the other: the second below the first hides its symbols. */
  lemma HiddenSymbol()
    ensures !RightAt([Symbol(20, "upper"), Symbol(10, "lower")], 25)
  {
    var table := [Symbol(20, "upper"), Symbol(10, "lower")];
    assert LastCandidate(table, 25, 2) == 1;
    assert Candidate(table[0], 25);
  }

  // ---------------------------------------------------------------------
  // The resolver
  // ---------------------------------------------------------------------

  /** The symbols shifted to where the image was loaded. */
  function Shifted(s: seq<Symbol>, base: nat): (r: seq<Symbol>)
    ensures |r| == |s| && forall i :: 0 <= i < |s| ==> r[i] == Symbol((s[i].address + base) % WORD, s[i].name)
  {
    seq(|s|, i requires 0 <= i < |s| => Symbol((s[i].address + base) % WORD, s[i].name))
  }

  lemma {:induction false} NonZero(s: seq<Symbol>, k: nat)
    requires k <= |s| && (forall i :: 0 <= i < k ==> s[i].address == 0) && forall i :: k <= i < |s| ==> s[i].address > 0
    ensures forall x :: multiset(s[k..])[x] == if x.address == 0 then 0 else multiset(s)[x]
  {
    assert s == s[..k] + s[k..];
    assert multiset(s) == multiset(s[..k]) + multiset(s[k..]);
    forall x
      ensures multiset(s[k..])[x] == if x.address == 0 then 0 else multiset(s)[x]
    {
      if x.address == 0 {
        assert x !in s[k..];
      } else {
        assert x !in s[..k];
      }
    }
  }

  lemma ShiftedNext(s: seq<Symbol>, from: nat, i: nat, base: nat)
    requires from <= i < |s|
    ensures Shifted(s[from..i + 1], base) ==
            Shifted(s[from..i], base) + [Symbol((s[i].address + base) % WORD, s[i].name)]
  { }

  lemma KeepsNonzero(was: seq<Symbol>, now: seq<Symbol>)
    requires multiset(was) == multiset(now) && exists i :: 0 <= i < |was| && was[i].address > 0
    ensures exists i :: 0 <= i < |now| && now[i].address > 0
  {
    var i :| 0 <= i < |was| && was[i].address > 0;
    assert was[i] in multiset(now);
  }

  /** The table after a first load is ascending, so every address is resolved right. */
  lemma FirstLoadIsRight(part: seq<Symbol>, base: nat, address: nat)
    requires Sorted(part) && forall i :: 0 <= i < |part| ==> part[i].address + base < WORD
    ensures Sorted(Shifted(part, base)) && RightAt(Shifted(part, base), address)
  {
    var table := Shifted(part, base);
    forall i | 0 <= i < |part|
      ensures table[i].address == part[i].address + base
    {
      SmallMod(part[i].address + base);
    }
    SortedIsTame(table);
    TameIsRight(table, address);
  }

  lemma SmallMod(x: nat)
    requires x < WORD
    ensures x % WORD == x
  { }

  /** The symbols in ascending order, and the first that is not at zero. */
  method SortAndSkip(symbols: array<Symbol>) returns (first: nat)
    requires exists i :: 0 <= i < symbols.Length && symbols[i].address > 0
    modifies symbols
    ensures first < symbols.Length && Sorted(symbols[first..])
    ensures forall x :: multiset(symbols[first..])[x] == if x.address == 0 then 0 else multiset(old(symbols[..]))[x]
  {
    ghost var was := symbols[..];
    SelectionSort(symbols);
    KeepsNonzero(was, symbols[..]);
    first := SkipZeros(symbols);
    NonZero(symbols[..], first);
    SortedTail(symbols[..], first);
    assert symbols[..][first..] == symbols[first..];
  }

  lemma SortedTail(s: seq<Symbol>, k: nat)
    requires Sorted(s) && k <= |s|
    ensures Sorted(s[k..])
  { }

  method SkipZeros(symbols: array<Symbol>) returns (first: nat)
    requires Sorted(symbols[..]) && exists i :: 0 <= i < symbols.Length && symbols[i].address > 0
    ensures first < symbols.Length
    ensures forall i :: 0 <= i < first ==> symbols[i].address == 0
    ensures forall i :: first <= i < symbols.Length ==> symbols[i].address > 0
  {
    ghost var w :| 0 <= w < symbols.Length && symbols[w].address > 0;
    first := 0;
    while symbols[first].address == 0
      invariant first <= w && forall i :: 0 <= i < first ==> symbols[i].address == 0
      decreases w - first
    {
      first := first + 1;
    }
    assert forall i :: first <= i < symbols.Length ==> symbols[..][first].address <= symbols[..][i].address;
  }

  /** The nonzero symbols, each as often as it is there, in ascending order. */
  ghost predicate Ascending(symbols: seq<Symbol>, part: seq<Symbol>) {
    Sorted(part) && forall x :: multiset(part)[x] == if x.address == 0 then 0 else multiset(symbols)[x]
  }

  class Resolver {
    var symTable: seq<Symbol>
    var tableExists: bool

    constructor ()
      ensures symTable == [] && !tableExists
    {
      symTable, tableExists := [], false;
    }

    /**
     Sorts the symbols, drops those at zero, and appends the others at their loaded
     addresses: the new part is the ascending rearrangement of the nonzero symbols.
     */
    method AppendSymbols(symbols: array<Symbol>, base: nat) returns (ghost part: seq<Symbol>)
      requires exists i :: 0 <= i < symbols.Length && symbols[i].address > 0
      modifies this, symbols
      ensures symTable == old(symTable) + Shifted(part, base) && tableExists
      ensures Ascending(old(symbols[..]), part) && |part| > 0
    {
      var first := SortAndSkip(symbols);
      part := symbols[first..];
      Append(symbols, first, base);
    }

    method Append(symbols: array<Symbol>, first: nat, base: nat)
      requires first < symbols.Length
      modifies this
      ensures symTable == old(symTable) + Shifted(symbols[first..], base) && tableExists
    {
      var i := first;
      while i < symbols.Length
        invariant first <= i <= symbols.Length && (i > first ==> tableExists)
        invariant symTable == old(symTable) + Shifted(symbols[first..i], base)
      {
        ShiftedNext(symbols[..], first, i, base);
        assert symbols[..][first..i] == symbols[first..i] && symbols[..][first..i + 1] == symbols[first..i + 1];
        symTable := symTable + [Symbol((symbols[i].address + base) % WORD, symbols[i].name)];
        tableExists := true;
        i := i + 1;
      }
    }

    /** Scans the table from its end. */
    method GetSymbol(address: nat) returns (name: string)
      ensures var i := LastCandidate(symTable, address, |symTable|);
              name == if tableExists && i >= 0 then symTable[i].name else UNKNOWN
    {
      if !tableExists {
        return UNKNOWN;
      }
      var n := |symTable|;
      while n > 0
        invariant 0 <= n <= |symTable|
        invariant LastCandidate(symTable, address, n) == LastCandidate(symTable, address, |symTable|)
      {
        n := n - 1;
        if 0 < symTable[n].address <= address {
          return symTable[n].name;
        }
      }
      name := UNKNOWN;
    }
  }

  // ---------------------------------------------------------------------
  // From the symbols of the images to the answer
  // ---------------------------------------------------------------------

  /** A symbol of an image loaded at that base lies at or below the address. */
  ghost predicate Reaches(s: Symbol, base: nat, address: nat) {
    s.address > 0 && s.address + base <= address
  }

  ghost predicate Covers(symbols: seq<Symbol>, base: nat, address: nat) {
    exists s :: s in symbols && Reaches(s, base, address)
  }

  /** Of an image's symbols at or below the address it is the nearest. */
  ghost predicate Closest(symbols: seq<Symbol>, base: nat, address: nat, s: Symbol) {
    s in symbols && Reaches(s, base, address) &&
    forall t :: t in symbols && Reaches(t, base, address) ==> t.address <= s.address
  }

  /** The name of a nearest symbol. */
  ghost predicate Names(symbols: seq<Symbol>, base: nat, address: nat, name: string) {
    exists s :: Closest(symbols, base, address, s) && s.name == name
  }

  /** No symbol wraps around when the image is loaded there. */
  ghost predicate Loads(symbols: seq<Symbol>, base: nat) {
    forall s :: s in symbols ==> s.address + base < 0x1_0000_0000_0000_0000
  }

  lemma PartOf(symbols: seq<Symbol>, part: seq<Symbol>, x: Symbol)
    requires Ascending(symbols, part)
    ensures x in part <==> x in symbols && x.address > 0
  {
    assert x in part <==> multiset(part)[x] > 0;
    assert x in symbols <==> multiset(symbols)[x] > 0;
  }

  lemma ShiftedReaches(symbols: seq<Symbol>, part: seq<Symbol>, base: nat, address: nat, j: nat)
    requires Ascending(symbols, part) && Loads(symbols, base) && j < |part|
    ensures part[j] in symbols && (Candidate(Shifted(part, base)[j], address) <==> Reaches(part[j], base, address))
  {
    PartOf(symbols, part, part[j]);
    SmallMod(part[j].address + base);
  }

  /** Candidates of the table are the symbols that reach the address. */
  ghost predicate Follows(table: seq<Symbol>, part: seq<Symbol>, base: nat, address: nat) {
    |table| == |part| && forall j :: 0 <= j < |part| ==>
      (Candidate(table[j], address) <==> Reaches(part[j], base, address)) && table[j].name == part[j].name
  }

  lemma ShiftedFollows(symbols: seq<Symbol>, part: seq<Symbol>, base: nat, address: nat)
    requires Ascending(symbols, part) && Loads(symbols, base)
    ensures Follows(Shifted(part, base), part, base, address)
  {
    forall j | 0 <= j < |part|
      ensures Candidate(Shifted(part, base)[j], address) <==> Reaches(part[j], base, address)
    {
      ShiftedReaches(symbols, part, base, address, j);
    }
  }

  /** The last candidate, if there is one, is a nearest symbol. */
  ghost predicate FoundIn(symbols: seq<Symbol>, table: seq<Symbol>, base: nat, address: nat) {
    var i := LastCandidate(table, address, |table|);
    (i >= 0 <==> Covers(symbols, base, address)) && (i >= 0 ==> Names(symbols, base, address, table[i].name))
  }

  /** A symbol that reaches the address is not above the last candidate. */
  lemma LastIsHighest(part: seq<Symbol>, table: seq<Symbol>, base: nat, address: nat, j: nat, i: int)
    requires Sorted(part) && Follows(table, part, base, address) && j < |part| && Reaches(part[j], base, address)
    requires i == LastCandidate(table, address, |table|)
    ensures i >= 0 && part[j].address <= part[i].address
  {
    assert Candidate(table[j], address);
  }

  lemma PartIndex(symbols: seq<Symbol>, part: seq<Symbol>, t: Symbol) returns (j: nat)
    requires Ascending(symbols, part) && t in symbols && t.address > 0
    ensures j < |part| && part[j] == t
  {
    PartOf(symbols, part, t);
    j :| j < |part| && part[j] == t;
  }

  /** In the part of the table that an image fills, the last candidate is its nearest symbol. */
  lemma LastIsClosest(symbols: seq<Symbol>, part: seq<Symbol>, table: seq<Symbol>, base: nat, address: nat)
    requires Ascending(symbols, part) && Follows(table, part, base, address)
    ensures FoundIn(symbols, table, base, address)
  {
    var i := LastCandidate(table, address, |table|);
    forall t | t in symbols && Reaches(t, base, address)
      ensures i >= 0 && t.address <= part[i].address
    {
      var j := PartIndex(symbols, part, t);
      LastIsHighest(part, table, base, address, j, i);
    }
    if i >= 0 {
      LastIsNamed(symbols, part, table, base, address, i);
    }
  }

  lemma LastIsNamed(symbols: seq<Symbol>, part: seq<Symbol>, table: seq<Symbol>, base: nat, address: nat, i: nat)
    requires Ascending(symbols, part) && Follows(table, part, base, address)
    requires i < |part| && Candidate(table[i], address)
    requires forall t :: t in symbols && Reaches(t, base, address) ==> t.address <= part[i].address
    ensures Covers(symbols, base, address) && Names(symbols, base, address, table[i].name)
  {
    PartOf(symbols, part, part[i]);
    assert Closest(symbols, base, address, part[i]);
  }

  lemma PartFinds(symbols: seq<Symbol>, part: seq<Symbol>, base: nat, address: nat)
    requires Ascending(symbols, part) && Loads(symbols, base)
    ensures FoundIn(symbols, Shifted(part, base), base, address)
  {
    ShiftedFollows(symbols, part, base, address);
    LastIsClosest(symbols, part, Shifted(part, base), base, address);
  }

  lemma {:induction false} LastOfBoth(a: seq<Symbol>, b: seq<Symbol>, address: nat, n: nat)
    requires n <= |b|
    ensures var i := LastCandidate(b, address, n);
            LastCandidate(a + b, address, |a| + n) == if i >= 0 then |a| + i else LastCandidate(a, address, |a|)
  {
    if n > 0 {
      LastOfBoth(a, b, address, n - 1);
    } else {
      LastOfFirst(a, b, address, |a|);
    }
  }

  lemma {:induction false} LastOfFirst(a: seq<Symbol>, b: seq<Symbol>, address: nat, n: nat)
    requires n <= |a|
    ensures LastCandidate(a + b, address, n) == LastCandidate(a, address, n)
  {
    if n > 0 {
      LastOfFirst(a, b, address, n - 1);
    }
  }

  /** One more image. */
  method Load(resolver: Resolver, symbols: array<Symbol>, base: nat, ghost address: nat)
    returns (ghost table: seq<Symbol>)
    requires Loads(symbols[..], base) && exists i :: 0 <= i < symbols.Length && symbols[i].address > 0
    modifies resolver, symbols
    ensures resolver.symTable == old(resolver.symTable) + table && resolver.tableExists
    ensures FoundIn(old(symbols[..]), table, base, address)
  {
    ghost var was := symbols[..];
    ghost var part := resolver.AppendSymbols(symbols, base);
    table := Shifted(part, base);
    PartFinds(was, part, base, address);
  }

  /** After one load an address resolves to the nearest of the image's symbols. */
  method ResolveOne(symbols: array<Symbol>, base: nat, address: nat) returns (name: string)
    requires Loads(symbols[..], base) && exists i :: 0 <= i < symbols.Length && symbols[i].address > 0
    modifies symbols
    ensures if Covers(old(symbols[..]), base, address) then Names(old(symbols[..]), base, address, name)
            else name == UNKNOWN
  {
    var resolver := new Resolver();
    ghost var table := Load(resolver, symbols, base, address);
    assert resolver.symTable == table;
    name := resolver.GetSymbol(address);
  }

  /** The second image answers what it covers, else the first. */
  ghost predicate AnsweredByTwo(
    first: seq<Symbol>, firstBase: nat, second: seq<Symbol>, secondBase: nat, address: nat, name: string) {
    if Covers(second, secondBase, address) then Names(second, secondBase, address, name)
    else if Covers(first, firstBase, address) then Names(first, firstBase, address, name)
    else name == UNKNOWN
  }

  lemma LastOfTwo(
    first: seq<Symbol>, x: seq<Symbol>, firstBase: nat,
    second: seq<Symbol>, y: seq<Symbol>, secondBase: nat, address: nat)
    requires FoundIn(first, x, firstBase, address) && FoundIn(second, y, secondBase, address)
    ensures var i := LastCandidate(x + y, address, |x + y|);
            AnsweredByTwo(first, firstBase, second, secondBase, address, if i >= 0 then (x + y)[i].name else UNKNOWN)
  {
    LastOfBoth(x, y, address, |y|);
  }

  /** After two loads the second answers whatever it covers, however near a symbol of the first may be. */
  method ResolveTwo(first: array<Symbol>, firstBase: nat, second: array<Symbol>, secondBase: nat, address: nat)
    returns (name: string)
    requires first != second && Loads(first[..], firstBase) && Loads(second[..], secondBase)
    requires exists i :: 0 <= i < first.Length && first[i].address > 0
    requires exists i :: 0 <= i < second.Length && second[i].address > 0
    modifies first, second
    ensures AnsweredByTwo(old(first[..]), firstBase, old(second[..]), secondBase, address, name)
  {
    ghost var was, next := first[..], second[..];
    var resolver := new Resolver();
    ghost var x := Load(resolver, first, firstBase, address);
    assert second[..] == next;
    ghost var y := Load(resolver, second, secondBase, address);
    assert resolver.symTable == x + y;
    LastOfTwo(was, x, firstBase, next, y, secondBase, address);
    name := resolver.GetSymbol(address);
  }

  /** So a second image below the first hides the first one's symbols. */
  method HidesSymbol() returns (name: string)
    ensures name == "lower" && !RightAt([Symbol(20, "upper"), Symbol(10, "lower")], 25)
  {
    HiddenSymbol();
    var upper := new Symbol[1][Symbol(20, "upper")];
    var lower := new Symbol[1][Symbol(10, "lower")];
    assert upper[0].address == 20 && lower[0] in lower[..];
    assert Reaches(lower[0], 0, 25);
    name := ResolveTwo(upper, 0, lower, 0, 25);
  }
}
