/**
 The kernel's open-addressing hash map: twenty slots, linear probing, and a dummy node
 that marks deleted slots. Keys are non-negative; a negative key would index outside the
 table.
 */
module HashMap {

  const CAPACITY: nat := 20
  const ERROR: int := -0x8A50

  /** A null pointer, the dummy node, or a node. */
  datatype Slot = Never | Deleted | Live(key: int, value: int)

  type Table = s: seq<Slot> | |s| == CAPACITY witness seq(CAPACITY, _ => Never)

  function HashCode(key: nat): (i: nat)
    ensures i < CAPACITY
  {
    key % CAPACITY
  }

  /** The `k`-th slot on the probe path of a key. */
  function Probe(key: nat, k: nat): (i: nat)
    ensures i < CAPACITY
  {
    (HashCode(key) + k) % CAPACITY
  }

  predicate Holds(t: Table, i: nat, key: nat)
    requires i < CAPACITY
  {
    t[i].Live? && t[i].key == key
  }

  // ---------------------------------------------------------------------
  // Probing
  // ---------------------------------------------------------------------

  /** Where AddNode stops, after `k` slots that it passes over: a free slot or the key. */
  predicate AddStops(t: Table, key: nat, k: nat) {
    !t[Probe(key, k)].Live? || t[Probe(key, k)].key == key
  }

  /** Where Get and DeleteNode stop: a slot that was never used, or the key. */
  predicate FindStops(t: Table, key: nat, k: nat) {
    t[Probe(key, k)].Never? || Holds(t, Probe(key, k), key)
  }

  /** The first probe from `k` on, if any, at which the loop of AddNode stops. */
  function AddAt(t: Table, key: nat, k: nat): (r: nat)
    requires k <= CAPACITY
    ensures k <= r <= CAPACITY
    ensures r < CAPACITY ==> AddStops(t, key, r)
    ensures forall j :: k <= j < r ==> !AddStops(t, key, j)
    decreases CAPACITY - k
  {
    if k == CAPACITY || AddStops(t, key, k) then k else AddAt(t, key, k + 1)
  }

  function FindAt(t: Table, key: nat, k: nat): (r: nat)
    requires k <= CAPACITY
    ensures k <= r <= CAPACITY
    ensures r < CAPACITY ==> FindStops(t, key, r)
    ensures forall j :: k <= j < r ==> !FindStops(t, key, j)
    decreases CAPACITY - k
  {
    if k == CAPACITY || FindStops(t, key, k) then k else FindAt(t, key, k + 1)
  }

  /** Twenty probes visit every slot. */
  lemma ProbeReaches(key: nat, i: nat) returns (k: nat)
    requires i < CAPACITY
    ensures k < CAPACITY && Probe(key, k) == i
  {
    k := (i + CAPACITY - HashCode(key)) % CAPACITY;
  }

  lemma ProbeInjective(key: nat, j: nat, k: nat)
    requires j < CAPACITY && k < CAPACITY && Probe(key, j) == Probe(key, k)
    ensures j == k
  { }

  // ---------------------------------------------------------------------
  // The finite map a table stands for
  // ---------------------------------------------------------------------

  /** Each key sits in one slot, and no slot before it on its probe path was never used. */
  ghost predicate Coherent(t: Table) {
    && (forall i :: 0 <= i < CAPACITY && t[i].Live? ==> t[i].key >= 0)
    && (forall i, j :: 0 <= i < j < CAPACITY && t[i].Live? && t[j].Live? ==> t[i].key != t[j].key)
    && (forall key: nat, k: nat :: k < CAPACITY && Holds(t, Probe(key, k), key) ==> Reached(t, key, k))
  }

  ghost predicate Reached(t: Table, key: nat, k: nat) {
    forall j: nat :: j < k ==> !t[Probe(key, j)].Never?
  }

  /** The slot of a key, seen from the table. */
  ghost predicate Has(t: Table, key: int, value: int) {
    exists i :: 0 <= i < CAPACITY && t[i] == Live(key, value)
  }

  ghost function Map(t: Table): (m: map<int, int>)
    requires Coherent(t)
    ensures forall key, value :: (key in m && m[key] == value) <==> Has(t, key, value)
  {
    map i | 0 <= i < CAPACITY && t[i].Live? :: t[i].key := t[i].value
  }

  lemma HasAt(t: Table, i: nat)
    requires i < CAPACITY && t[i].Live?
    ensures Has(t, t[i].key, t[i].value)
  { }

  lemma MapUnique(t: Table, m: map<int, int>)
    requires Coherent(t) && forall key, value :: (key in m && m[key] == value) <==> Has(t, key, value)
    ensures m == Map(t)
  {
    forall key
      ensures key in m <==> key in Map(t)
      ensures key in m ==> m[key] == Map(t)[key]
    {
      if key in m {
        assert Has(t, key, m[key]);
      }
      if key in Map(t) {
        assert Has(t, key, Map(t)[key]);
      }
    }
  }

  function CountLive(t: seq<Slot>): nat {
    if t == [] then 0 else (if t[0].Live? then 1 else 0) + CountLive(t[1..])
  }

  lemma {:induction false} CountLiveUpdate(t: seq<Slot>, i: nat, slot: Slot)
    requires i < |t|
    ensures CountLive(t[i := slot]) + (if t[i].Live? then 1 else 0) == CountLive(t) + if slot.Live? then 1 else 0
  {
    if i == 0 {
      assert t[i := slot][1..] == t[1..];
    } else {
      assert t[i := slot][1..] == t[1..][i - 1 := slot];
      CountLiveUpdate(t[1..], i - 1, slot);
    }
  }

  ghost function KeysOf(t: seq<Slot>): set<int> {
    set i | 0 <= i < |t| && t[i].Live? :: t[i].key
  }

  lemma KeysStep(t: seq<Slot>)
    requires t != []
    ensures KeysOf(t) == KeysOf(t[1..]) + if t[0].Live? then {t[0].key} else {}
  {
    var rest := t[1..];
    assert forall i :: 0 < i < |t| ==> t[i] == rest[i - 1];
  }

  /** The number of nodes is the number of keys. */
  lemma {:induction false} CountLiveKeys(t: seq<Slot>)
    requires forall i, j :: 0 <= i < j < |t| && t[i].Live? && t[j].Live? ==> t[i].key != t[j].key
    ensures CountLive(t) == |KeysOf(t)|
  {
    if t == [] {
      assert KeysOf(t) == {};
    } else {
      KeysStep(t);
      CountLiveKeys(t[1..]);
      if t[0].Live? {
        assert t[0].key !in KeysOf(t[1..]);
      }
    }
  }

  lemma SizeIsKeys(t: Table)
    requires Coherent(t)
    ensures CountLive(t) == |Map(t)|
  {
    CountLiveKeys(t);
    forall key
      ensures key in KeysOf(t) <==> key in Map(t)
    {
      if key in KeysOf(t) {
        var i :| 0 <= i < |t| && t[i].Live? && t[i].key == key;
        assert Has(t, key, t[i].value);
      }
      if key in Map(t) {
        assert Has(t, key, Map(t)[key]);
      }
    }
    assert KeysOf(t) == Map(t).Keys;
  }

  // ---------------------------------------------------------------------
  // Operations on tables
  // ---------------------------------------------------------------------

  /** The key sits behind a deleted slot of its probe path. */
  ghost predicate Shadowed(t: Table, key: nat) {
    exists j: nat, k: nat :: j < k < CAPACITY && t[Probe(key, j)].Deleted? && Holds(t, Probe(key, k), key)
  }

  function Added(t: Table, key: nat, value: int): Table
    requires AddAt(t, key, 0) < CAPACITY
  {
    t[Probe(key, AddAt(t, key, 0)) := Live(key, value)]
  }

  function Found(t: Table, key: nat): int {
    var k := FindAt(t, key, 0);
    if k < CAPACITY && t[Probe(key, k)].Live? then t[Probe(key, k)].value else ERROR
  }

  function Removed(t: Table, key: nat): Table {
    var k := FindAt(t, key, 0);
    if k < CAPACITY && t[Probe(key, k)].Live? then t[Probe(key, k) := Deleted] else t
  }

  /** In a valid table the search for a key that is there ends at it. */
  lemma FindsKey(t: Table, key: nat, i: nat)
    requires Coherent(t) && i < CAPACITY && Holds(t, i, key)
    ensures FindAt(t, key, 0) < CAPACITY && Probe(key, FindAt(t, key, 0)) == i
  {
    var k := ProbeReaches(key, i);
    assert Reached(t, key, k);
    var r := FindAt(t, key, 0);
    assert FindStops(t, key, k);
    assert r <= k;
    assert !t[Probe(key, r)].Never?;
  }

  /** Get answers like the finite map. */
  lemma FoundIsLookup(t: Table, key: nat)
    requires Coherent(t)
    ensures Found(t, key) == if key in Map(t) then Map(t)[key] else -0x8A50
  {
    var k := FindAt(t, key, 0);
    if key in Map(t) {
      assert Has(t, key, Map(t)[key]);
      var i :| 0 <= i < CAPACITY && t[i] == Live(key, Map(t)[key]);
      FindsKey(t, key, i);
    } else if k < CAPACITY && Holds(t, Probe(key, k), key) {
      var i := Probe(key, k);
      HasAt(t, i);
      assert false;
    }
  }

  lemma DeletedValid(t: Table, i: nat)
    requires Coherent(t) && i < CAPACITY
    ensures Coherent(t[i := Deleted])
  { }

  lemma DeletedMap(t: Table, i: nat)
    requires Coherent(t) && i < CAPACITY && t[i].Live? && Coherent(t[i := Deleted])
    ensures Map(t[i := Deleted]) == Map(t) - {t[i].key}
  {
    var t' := t[i := Deleted];
    var m := Map(t) - {t[i].key};
    forall key, value
      ensures (key in m && m[key] == value) <==> Has(t', key, value)
    {
      if Has(t', key, value) {
        var j :| 0 <= j < CAPACITY && t'[j] == Live(key, value);
        HasAt(t, j);
      }
      if Has(t, key, value) && key != t[i].key {
        var j :| 0 <= j < CAPACITY && t[j] == Live(key, value);
        HasAt(t', j);
      }
    }
    MapUnique(t', m);
  }

  /** DeleteNode takes the key out of the map and out of nothing else. */
  lemma RemovedIsRemove(t: Table, key: nat)
    requires Coherent(t)
    ensures Coherent(Removed(t, key)) && Map(Removed(t, key)) == Map(t) - {key}
  {
    var k := FindAt(t, key, 0);
    if k < CAPACITY && t[Probe(key, k)].Live? {
      DeletedValid(t, Probe(key, k));
      DeletedMap(t, Probe(key, k));
    } else {
      if key in Map(t) {
        assert Has(t, key, Map(t)[key]);
        var i :| 0 <= i < CAPACITY && t[i] == Live(key, Map(t)[key]);
        FindsKey(t, key, i);
        assert false;
      }
      assert Map(t) - {key} == Map(t);
    }
  }

  // AddNode.

  /** In a valid table that does not shadow the key, a slot AddNode leaves alone is not the key's. */
  lemma AddedElsewhere(t: Table, key: nat, i: nat)
    requires Coherent(t) && AddAt(t, key, 0) < CAPACITY && !Shadowed(t, key)
    requires i < CAPACITY && Holds(t, i, key)
    ensures i == Probe(key, AddAt(t, key, 0))
  {
    var r := AddAt(t, key, 0);
    var k := ProbeReaches(key, i);
    assert Reached(t, key, k);
    assert AddStops(t, key, k);
    assert r <= k;
    if r < k {
      assert !t[Probe(key, r)].Deleted?;
      assert !t[Probe(key, r)].Never?;
    }
  }

  lemma AddedValid(t: Table, key: nat, value: int)
    requires Coherent(t) && AddAt(t, key, 0) < CAPACITY && !Shadowed(t, key)
    ensures Coherent(Added(t, key, value))
  {
    var t', r := Added(t, key, value), AddAt(t, key, 0);
    var i := Probe(key, r);
    forall j | 0 <= j < CAPACITY && j != i && t[j].Live?
      ensures t[j].key != key
    {
      if t[j].key == key {
        AddedElsewhere(t, key, j);
      }
    }
    forall key': nat, k: nat | k < CAPACITY && Holds(t', Probe(key', k), key')
      ensures Reached(t', key', k)
    {
      if Probe(key', k) == i {
        ProbeInjective(key, k, r);
        forall j: nat | j < k
          ensures !t'[Probe(key', j)].Never?
        {
          assert !AddStops(t, key, j);
        }
      } else {
        assert Reached(t, key', k);
      }
    }
  }

  lemma AddedMap(t: Table, key: nat, value: int)
    requires Coherent(t) && AddAt(t, key, 0) < CAPACITY && !Shadowed(t, key)
    requires Coherent(Added(t, key, value))
    ensures Map(Added(t, key, value)) == Map(t)[key := value]
  {
    var t', i := Added(t, key, value), Probe(key, AddAt(t, key, 0));
    var m := Map(t)[key := value];
    HasAt(t', i);
    forall key', value'
      ensures (key' in m && m[key'] == value') <==> Has(t', key', value')
    {
      if Has(t', key', value') {
        var j :| 0 <= j < CAPACITY && t'[j] == Live(key', value');
        if j != i {
          HasAt(t, j);
        }
      }
      if Has(t, key', value') && key' != key {
        var j :| 0 <= j < CAPACITY && t[j] == Live(key', value');
        HasAt(t', j);
      }
    }
    MapUnique(t', m);
  }

  /** A shadowed key ends up in two slots. */
  lemma ShadowedTwice(t: Table, key: nat, value: int)
    requires Coherent(t) && Shadowed(t, key) && AddAt(t, key, 0) < CAPACITY
    ensures !Coherent(Added(t, key, value))
  {
    var j: nat, k: nat :| j < k < CAPACITY && t[Probe(key, j)].Deleted? && Holds(t, Probe(key, k), key);
    var r := AddAt(t, key, 0);
    assert AddStops(t, key, j);
    assert r <= j;
    if Probe(key, r) == Probe(key, k) {
      ProbeInjective(key, r, k);
    }
    assert Holds(Added(t, key, value), Probe(key, r), key);
    assert Holds(Added(t, key, value), Probe(key, k), key);
  }

  /** AddNode is a map update exactly when the key does not sit behind a deleted slot. */
  lemma AddedIsUpdate(t: Table, key: nat, value: int)
    requires Coherent(t) && AddAt(t, key, 0) < CAPACITY
    ensures !Shadowed(t, key) <==>
            Coherent(Added(t, key, value)) && Map(Added(t, key, value)) == Map(t)[key := value]
  {
    if Shadowed(t, key) {
      ShadowedTwice(t, key, value);
    } else {
      AddedValid(t, key, value);
      AddedMap(t, key, value);
    }
  }

  /** What the missed entry costs: deleting the key again brings the whole old table back. */
  lemma ShadowedSurvives(t: Table, key: nat, value: int)
    requires Coherent(t) && Shadowed(t, key) && AddAt(t, key, 0) < CAPACITY
    ensures Removed(Added(t, key, value), key) == t
  {
    var j: nat, k: nat :| j < k < CAPACITY && t[Probe(key, j)].Deleted? && Holds(t, Probe(key, k), key);
    var t', r := Added(t, key, value), AddAt(t, key, 0);
    var i := Probe(key, r);
    assert AddStops(t, key, j);
    assert r <= j;
    assert i != Probe(key, k) by {
      if i == Probe(key, k) {
        ProbeInjective(key, r, k);
      }
    }
    assert Reached(t, key, k);
    assert t[i].Deleted?;
    AddedIsFound(t, key, value);
  }

  lemma AddedIsFound(t: Table, key: nat, value: int)
    requires AddAt(t, key, 0) < CAPACITY
    ensures FindAt(Added(t, key, value), key, 0) == AddAt(t, key, 0)
  {
    var t', r := Added(t, key, value), AddAt(t, key, 0);
    var f := FindAt(t', key, 0);
    assert FindStops(t', key, r);
    if f < r {
      assert !AddStops(t, key, f);
      assert FindStops(t', key, f);
      if Probe(key, f) == Probe(key, r) {
        ProbeInjective(key, f, r);
      }
    }
  }

  // ---------------------------------------------------------------------
  // Loops that never end
  // ---------------------------------------------------------------------

  /** The loop stops, and after no more turns than these. */
  predicate Ends(stop: nat, turns: nat) {
    stop < CAPACITY && stop <= turns
  }

  lemma ProbeNext(key: nat, k: nat)
    ensures Probe(key, k + 1) == (Probe(key, k) + 1) % CAPACITY
  { }

  lemma ProbeWraps(key: nat, k: nat)
    ensures Probe(key, k) == Probe(key, k % CAPACITY)
  { }

  lemma {:induction false} AllLive(t: seq<Slot>)
    ensures CountLive(t) <= |t|
    ensures CountLive(t) == |t| <==> forall i :: 0 <= i < |t| ==> t[i].Live?
  {
    if t != [] {
      AllLive(t[1..]);
      assert forall i :: 0 < i < |t| ==> t[i] == t[1..][i - 1];
    }
  }

  lemma AddLoopsForever(t: Table, key: nat)
    ensures AddAt(t, key, 0) == CAPACITY <==> forall k: nat :: !AddStops(t, key, k)
  {
    if AddAt(t, key, 0) == CAPACITY {
      forall k: nat
        ensures !AddStops(t, key, k)
      {
        ProbeWraps(key, k);
        assert !AddStops(t, key, k % CAPACITY);
      }
    }
  }

  lemma FindLoopsForever(t: Table, key: nat)
    ensures FindAt(t, key, 0) == CAPACITY <==> forall k: nat :: !FindStops(t, key, k)
  {
    if FindAt(t, key, 0) == CAPACITY {
      forall k: nat
        ensures !FindStops(t, key, k)
      {
        ProbeWraps(key, k);
        assert !FindStops(t, key, k % CAPACITY);
      }
    }
  }

  lemma Absent(t: Table, key: nat)
    requires Coherent(t)
    ensures key in Map(t) <==> exists i: nat :: i < CAPACITY && Holds(t, i, key)
  {
    if key in Map(t) {
      assert Has(t, key, Map(t)[key]);
      var i :| 0 <= i < CAPACITY && t[i] == Live(key, Map(t)[key]);
      assert Holds(t, i, key);
    }
    if i: nat :| i < CAPACITY && Holds(t, i, key) {
      HasAt(t, i);
    }
  }

  lemma NoStopAnywhere(t: Table, key: nat)
    ensures AddAt(t, key, 0) == CAPACITY <==> forall i: nat :: i < CAPACITY ==> t[i].Live? && !Holds(t, i, key)
  {
    if AddAt(t, key, 0) == CAPACITY {
      forall i: nat | i < CAPACITY
        ensures t[i].Live? && !Holds(t, i, key)
      {
        var k := ProbeReaches(key, i);
        assert !AddStops(t, key, k);
      }
    } else {
      assert AddStops(t, key, AddAt(t, key, 0));
    }
  }

  /** AddNode goes round for ever exactly when the map is full of other keys. */
  lemma AddLoops(t: Table, key: nat)
    requires Coherent(t)
    ensures (forall k: nat :: !AddStops(t, key, k)) <==> |Map(t)| == CAPACITY && key !in Map(t)
  {
    AddLoopsForever(t, key);
    NoStopAnywhere(t, key);
    SizeIsKeys(t);
    AllLive(t);
    Absent(t, key);
  }

  /** DeleteNode goes round for ever exactly when no slot is still unused and the key is absent. */
  lemma FindLoops(t: Table, key: nat)
    requires Coherent(t)
    ensures (forall k: nat :: !FindStops(t, key, k)) <==>
            key !in Map(t) && forall i :: 0 <= i < CAPACITY ==> !t[i].Never?
  {
    FindLoopsForever(t, key);
    Absent(t, key);
    if FindAt(t, key, 0) == CAPACITY {
      forall i: nat | i < CAPACITY
        ensures !t[i].Never? && !Holds(t, i, key)
      {
        var k := ProbeReaches(key, i);
        assert !FindStops(t, key, k);
      }
    } else {
      assert FindStops(t, key, FindAt(t, key, 0));
    }
  }

  // ---------------------------------------------------------------------
  // Runs
  // ---------------------------------------------------------------------

  datatype Op = Add(key: nat, value: int) | Delete(key: nat) | Get(key: nat)

  /** The call comes back, and an addition does not miss the key it replaces. */
  ghost predicate Proper(t: Table, op: Op) {
    match op
    case Add(key, _) => AddAt(t, key, 0) < CAPACITY && !Shadowed(t, key)
    case Delete(key) => FindAt(t, key, 0) < CAPACITY
    case Get(_) => true
  }

  ghost function After(t: Table, op: Op): Table
    requires Proper(t, op)
  {
    match op
    case Add(key, value) => Added(t, key, value)
    case Delete(key) => Removed(t, key)
    case Get(_) => t
  }

  /** Answers of a run; AddNode answers nothing. */
  ghost function Answers(t: Table, ops: seq<Op>): seq<int>
    requires AllProper(t, ops)
    decreases ops
  {
    if ops == [] then [] else
      (if ops[0].Add? then [] else [Found(t, ops[0].key)]) + Answers(After(t, ops[0]), ops[1..])
  }

  ghost predicate AllProper(t: Table, ops: seq<Op>)
    decreases ops
  {
    ops == [] || (Proper(t, ops[0]) && AllProper(After(t, ops[0]), ops[1..]))
  }

  ghost function Final(t: Table, ops: seq<Op>): Table
    requires AllProper(t, ops)
    decreases ops
  {
    if ops == [] then t else Final(After(t, ops[0]), ops[1..])
  }

  // The same run on a finite map.

  ghost function MapAfter(m: map<int, int>, op: Op): map<int, int> {
    match op
    case Add(key, value) => m[key := value]
    case Delete(key) => m - {key}
    case Get(_) => m
  }

  ghost function MapAnswers(m: map<int, int>, ops: seq<Op>): seq<int>
    decreases ops
  {
    if ops == [] then [] else
      (if ops[0].Add? then [] else [if ops[0].key in m then m[ops[0].key] else ERROR]) +
      MapAnswers(MapAfter(m, ops[0]), ops[1..])
  }

  ghost function MapFinal(m: map<int, int>, ops: seq<Op>): map<int, int>
    decreases ops
  {
    if ops == [] then m else MapFinal(MapAfter(m, ops[0]), ops[1..])
  }

  lemma StepIsMapStep(t: Table, op: Op)
    requires Coherent(t) && Proper(t, op)
    ensures Coherent(After(t, op)) && Map(After(t, op)) == MapAfter(Map(t), op)
  {
    match op
    case Add(key, value) => AddedIsUpdate(t, key, value);
    case Delete(key) => RemovedIsRemove(t, key);
    case Get(_) =>
  }

  /** Over any run of proper calls the table answers like a finite map and its size counts the keys. */
  lemma {:induction false} RunIsMapRun(t: Table, ops: seq<Op>)
    requires Coherent(t) && AllProper(t, ops)
    ensures Answers(t, ops) == MapAnswers(Map(t), ops)
    ensures Coherent(Final(t, ops)) && Map(Final(t, ops)) == MapFinal(Map(t), ops)
    ensures CountLive(Final(t, ops)) == |MapFinal(Map(t), ops)|
    decreases ops
  {
    if ops == [] {
      SizeIsKeys(t);
    } else {
      StepIsMapStep(t, ops[0]);
      FoundIsLookup(t, ops[0].key);
      RunIsMapRun(After(t, ops[0]), ops[1..]);
    }
  }

  /** Add 0, add 20, delete 0 leaves 20 shadowed; add 20 again and delete it, and it is still there. */
  lemma StaleEntry(t: Table)
    requires forall i :: 0 <= i < CAPACITY ==> t[i] == Never
    ensures var ops := [Add(0, 7), Add(20, 8), Delete(0)];
            AllProper(t, ops) && Shadowed(Final(t, ops), 20) && AddAt(Final(t, ops), 20, 0) < CAPACITY &&
            Found(Removed(Added(Final(t, ops), 20, 9), 20), 20) == 8
  {
    var t1 := t[0 := Live(0, 7)];
    var t2 := t1[1 := Live(20, 8)];
    var t3 := t2[0 := Deleted];
    assert AddAt(t, 0, 0) == 0 && !Shadowed(t, 0);
    assert Added(t, 0, 7) == t1;
    assert AddAt(t1, 20, 0) == 1 && !Shadowed(t1, 20);
    assert Added(t1, 20, 8) == t2;
    assert FindAt(t2, 0, 0) == 0 && Removed(t2, 0) == t3;
    ThreeSteps(t, Add(0, 7), Add(20, 8), Delete(0), t1, t2, t3);
    assert t3[Probe(20, 0)].Deleted? && Holds(t3, Probe(20, 1), 20);
    assert AddAt(t3, 20, 0) == 0;
    assert FindAt(Added(t3, 20, 9), 20, 0) == 0;
    assert Removed(Added(t3, 20, 9), 20) == t3;
    assert FindAt(t3, 20, 0) == 1;
  }

  lemma ThreeSteps(t: Table, a: Op, b: Op, c: Op, t1: Table, t2: Table, t3: Table)
    requires Proper(t, a) && After(t, a) == t1
    requires Proper(t1, b) && After(t1, b) == t2
    requires Proper(t2, c) && After(t2, c) == t3
    ensures AllProper(t, [a, b, c]) && Final(t, [a, b, c]) == t3
  {
    RunFrom(t2, c, [], t3, t3);
    RunFrom(t1, b, [c], t2, t3);
    RunFrom(t, a, [b, c], t1, t3);
    assert [c] + [] == [c] && [b] + [c] == [b, c] && [a] + [b, c] == [a, b, c];
  }

  /** A run is its first call and the run after it. */
  lemma RunFrom(t: Table, op: Op, rest: seq<Op>, next: Table, end: Table)
    requires Proper(t, op) && After(t, op) == next
    requires AllProper(next, rest) && Final(next, rest) == end
    ensures AllProper(t, [op] + rest) && Final(t, [op] + rest) == end
  {
    var ops := [op] + rest;
    assert ops[0] == op && ops[1..] == rest;
  }

  // A run that fills the table: adding 0 to 19.

  function Filled(n: nat): Table {
    seq(CAPACITY, i => if 0 <= i < n then Live(i, 0) else Never)
  }

  function Additions(from: nat): seq<Op>
    requires from <= CAPACITY
    decreases CAPACITY - from
  {
    if from == CAPACITY then [] else [Add(from, 0)] + Additions(from + 1)
  }

  lemma FillStep(n: nat)
    requires n < CAPACITY
    ensures Proper(Filled(n), Add(n, 0)) && After(Filled(n), Add(n, 0)) == Filled(n + 1)
  {
    var t := Filled(n);
    assert Probe(n, 0) == n && AddStops(t, n, 0);
    assert AddAt(t, n, 0) == 0;
    assert t[n := Live(n, 0)] == Filled(n + 1);
  }

  lemma {:induction false} FillRun(n: nat, t: Table, ops: seq<Op>)
    requires n <= CAPACITY && t == Filled(n) && ops == Additions(n)
    ensures AllProper(t, ops) && Final(t, ops) == Filled(CAPACITY)
    decreases CAPACITY - n
  {
    if n < CAPACITY {
      var next, rest := Filled(n + 1), Additions(n + 1);
      FillStep(n);
      FillRun(n + 1, next, rest);
      RunFrom(t, Add(n, 0), rest, next, Filled(CAPACITY));
    }
  }

  /** After adding twenty keys to a new map, adding or deleting any other key never ends. */
  lemma FullTableLoops(t: Table, key: nat)
    requires (forall i :: 0 <= i < CAPACITY ==> t[i] == Never) && key >= CAPACITY
    ensures AllProper(t, Additions(0))
    ensures forall k: nat :: !AddStops(Final(t, Additions(0)), key, k)
    ensures forall k: nat :: !FindStops(Final(t, Additions(0)), key, k)
  {
    assert t == Filled(0);
    FillRun(0, t, Additions(0));
    FilledLoops(key);
  }

  lemma FilledLoops(key: nat)
    requires key >= CAPACITY
    ensures forall k: nat :: !AddStops(Filled(CAPACITY), key, k)
    ensures forall k: nat :: !FindStops(Filled(CAPACITY), key, k)
  {
    forall k: nat
      ensures !AddStops(Filled(CAPACITY), key, k) && !FindStops(Filled(CAPACITY), key, k)
    {
      FullSlot(Probe(key, k));
    }
  }

  lemma FullSlot(i: nat)
    requires i < CAPACITY
    ensures Filled(CAPACITY)[i] == Live(i, 0)
  { }

  // ---------------------------------------------------------------------
  // The class
  // ---------------------------------------------------------------------

  /** The answer of a call that came back. */
  datatype Answer = Value(value: int) | Going

  class Nodes {
    const slots: array<Slot>
    var size: int

    ghost predicate Valid()
      reads this, slots
    {
      slots.Length == CAPACITY && size == CountLive(slots[..])
    }

    ghost function Contents(): Table
      requires Valid()
      reads this, slots
    {
      slots[..]
    }

    constructor ()
      ensures Valid() && fresh(slots)
      ensures Coherent(Contents()) && Map(Contents()) == map[] && size == 0
    {
      slots := new Slot[CAPACITY](_ => Never);
      size := 0;
      new;
      assert forall i :: 0 <= i < CAPACITY ==> slots[..][i] == Never;
      NoneLive(slots[..]);
      assert Map(slots[..]) == map[] by {
        forall key, value ensures !Has(slots[..], key, value) { }
        MapUnique(slots[..], map[]);
      }
    }

    method Put(index: nat, slot: Slot)
      requires Valid() && index < CAPACITY
      modifies this`size, slots
      ensures Valid() && Contents() == old(Contents())[index := slot]
    {
      CountLiveUpdate(slots[..], index, slot);
      size := size + (if slot.Live? then 1 else 0) - if slots[index].Live? then 1 else 0;
      ghost var t := slots[..];
      slots[index] := slot;
      assert slots[..] == t[index := slot];
    }

    /**
     The loop of AddNode. It may go round for ever, so it is watched for any number of turns:
     either it stops within them or it is still going.
     */
    method ProbeToAdd(key: nat, turns: nat) returns (index: nat, done: bool)
      requires Valid()
      ensures done <==> Ends(AddAt(Contents(), key, 0), turns)
      ensures index < CAPACITY && (done ==> index == Probe(key, AddAt(Contents(), key, 0)))
    {
      index := HashCode(key);
      var k: nat := 0;
      while slots[index].Live? && slots[index].key != key
        invariant k <= turns && index == Probe(key, k)
        invariant forall j :: 0 <= j < k ==> !AddStops(Contents(), key, j)
        decreases turns - k
      {
        assert !AddStops(Contents(), key, k);
        if k == turns {
          NotYetAdded(Contents(), key, k);
          return index, false;
        }
        ProbeNext(key, k);
        index := (index + 1) % CAPACITY;
        k := k + 1;
      }
      AddStopsAt(Contents(), key, k);
      done := true;
    }

    /** A call that is still going has not changed anything. */
    method AddNode(key: nat, value: int, turns: nat) returns (done: bool)
      requires Valid()
      modifies this`size, slots
      ensures Valid() && (done <==> Ends(AddAt(old(Contents()), key, 0), turns))
      ensures Contents() == if done then Added(old(Contents()), key, value) else old(Contents())
    {
      var index: nat;
      index, done := ProbeToAdd(key, turns);
      if done {
        Put(index, Live(key, value));
      }
    }

    /** The value, or nothing when the loop is not done within that many turns. */
    method DeleteNode(key: nat, turns: nat) returns (answer: Answer)
      requires Valid()
      modifies this`size, slots
      ensures Valid()
      ensures answer.Value? <==> Ends(FindAt(old(Contents()), key, 0), turns)
      ensures Contents() == if answer.Value? then Removed(old(Contents()), key) else old(Contents())
      ensures answer.Value? ==> answer.value == Found(old(Contents()), key)
    {
      ghost var t := Contents();
      var index := HashCode(key);
      var k: nat := 0;
      while !slots[index].Never?
        invariant k <= turns && index == Probe(key, k) && Valid() && slots[..] == t
        invariant forall j :: 0 <= j < k ==> !FindStops(t, key, j)
        decreases turns - k
      {
        if slots[index].Live? && slots[index].key == key {
          StopsAt(t, key, k);
          answer := Value(slots[index].value);
          Put(index, Deleted);
          return;
        }
        assert !FindStops(t, key, k);
        if k == turns {
          NotYetFound(t, key, k);
          return Going;
        }
        ProbeNext(key, k);
        index := (index + 1) % CAPACITY;
        k := k + 1;
      }
      StopsAt(t, key, k);
      answer := Value(ERROR);
    }

    method Get(key: nat) returns (value: int)
      requires Valid()
      ensures value == Found(Contents(), key)
    {
      ghost var t := Contents();
      var index := HashCode(key);
      var iterate := 0;
      while !slots[index].Never?
        invariant 0 <= iterate <= CAPACITY + 1 && index == Probe(key, iterate)
        invariant forall j :: 0 <= j < iterate ==> !FindStops(t, key, j)
        decreases CAPACITY + 1 - iterate
      {
        if iterate > CAPACITY {
          assert FindAt(t, key, 0) == CAPACITY;
          return ERROR;
        }
        if slots[index].Live? && slots[index].key == key {
          assert FindStops(t, key, iterate);
          StopsAt(t, key, iterate);
          return slots[index].value;
        }
        assert !FindStops(t, key, iterate);
        ProbeNext(key, iterate);
        index := (index + 1) % CAPACITY;
        iterate := iterate + 1;
      }
      StopsAt(t, key, iterate);
      value := ERROR;
    }

    method Size() returns (n: int)
      requires Valid() && Coherent(Contents())
      ensures n == |Map(Contents())|
    {
      SizeIsKeys(Contents());
      n := size;
    }
  }

  lemma {:induction false} NoneLive(t: seq<Slot>)
    requires forall i :: 0 <= i < |t| ==> !t[i].Live?
    ensures CountLive(t) == 0
  {
    if t != [] {
      NoneLive(t[1..]);
    }
  }

  /** The first stop is within twenty probes. */
  lemma StopsAt(t: Table, key: nat, k: nat)
    requires FindStops(t, key, k) && forall j :: 0 <= j < k ==> !FindStops(t, key, j)
    ensures k < CAPACITY && FindAt(t, key, 0) == k
  {
    ProbeWraps(key, k);
    assert FindStops(t, key, k % CAPACITY);
    assert k % CAPACITY == k;
  }

  lemma AddStopsAt(t: Table, key: nat, k: nat)
    requires AddStops(t, key, k) && forall j :: 0 <= j < k ==> !AddStops(t, key, j)
    ensures k < CAPACITY && AddAt(t, key, 0) == k
  {
    ProbeWraps(key, k);
    assert AddStops(t, key, k % CAPACITY);
    assert k % CAPACITY == k;
  }

  lemma NotYetFound(t: Table, key: nat, k: nat)
    requires forall j :: 0 <= j <= k ==> !FindStops(t, key, j)
    ensures FindAt(t, key, 0) < CAPACITY ==> k < FindAt(t, key, 0)
  { }

  lemma NotYetAdded(t: Table, key: nat, k: nat)
    requires forall j :: 0 <= j <= k ==> !AddStops(t, key, j)
    ensures AddAt(t, key, 0) < CAPACITY ==> k < AddAt(t, key, 0)
  { }
}
