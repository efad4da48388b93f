/** Whole histories of the table: simulation of the plain map, and how slots run out. */
module TableRuns {
  import opened Base
  import opened Codec
  import opened XattrPage
  import opened Layout
  import opened InodeHash
  import opened Probing
  import opened Capacity
  import opened State
  import opened InodeTable
  import opened TableLaws

  ghost function RunTable(t: Table, ops: seq<Op>): Table
    requires t.Valid()
    decreases |ops|
  {
    if ops == [] then t else ApplyKeepsValid(t, ops[0]); RunTable(ApplyTable(t, ops[0]), ops[1..])
  }

  ghost function AnswersTable(t: Table, ops: seq<Op>): seq<Reply>
    requires t.Valid()
    decreases |ops|
  {
    if ops == [] then []
    else ApplyKeepsValid(t, ops[0]); [AnswerTable(t, ops[0])] + AnswersTable(ApplyTable(t, ops[0]), ops[1..])
  }

  /** What the plain map answers when it skips exactly the writes the table drops. */
  ghost function Expected(t: Table, m: InodeMap, ops: seq<Op>): seq<Reply>
    requires t.Valid()
    decreases |ops|
  {
    if ops == [] then []
    else
      var op := NormaliseOp(t.codec, ops[0]);
      ApplyKeepsValid(t, ops[0]);
      [AnswerMap(m, op)]
      + Expected(ApplyTable(t, ops[0]), if Dropped(t, ops[0]) then m else ApplyMap(m, op), ops[1..])
  }

  function NormaliseOps(c: Codec<Xattrs>, ops: seq<Op>): seq<Op> {
    seq(|ops|, i requires 0 <= i < |ops| => NormaliseOp(c, ops[i]))
  }

  ghost predicate Fresh(t: Table) {
    t.Shaped() && Faithful(t.codec) && AllEmpty(t.slots)
  }

  /** The keys a single request tries to write. */
  ghost function KeyWritten(op: Op): set<InodeKey> {
    if op.Chown? || op.Put? then {op.key} else {}
  }

  /** The keys that a history ever tries to write. */
  ghost function KeysWritten(ops: seq<Op>): set<InodeKey> {
    if ops == [] then {}
    else KeyWritten(ops[0]) + KeysWritten(ops[1..])
  }

  /** Exactly the keys of chowns and writes count. */
  lemma {:induction false} KeysWrittenExactly(ops: seq<Op>, k: InodeKey)
    ensures k in KeysWritten(ops) <==> exists i :: 0 <= i < |ops| && (ops[i].Chown? || ops[i].Put?) && ops[i].key == k
    decreases |ops|
  {
    if ops != [] {
      KeysWrittenExactly(ops[1..], k);
      if k in KeysWritten(ops[1..]) {
        var i :| 0 <= i < |ops[1..]| && (ops[1..][i].Chown? || ops[1..][i].Put?) && ops[1..][i].key == k;
        assert ops[i + 1].key == k;
      }
      forall i | 0 < i < |ops|
        ensures ops[i] == ops[1..][i - 1]
      {
      }
    }
  }

  // ----- Simulation -----

  lemma {:induction false} RunSimulates(t: Table, m: InodeMap, ops: seq<Op>)
    requires t.Valid() && Agrees(t, m)
    ensures AnswersTable(t, ops) == Expected(t, m, ops)
    decreases |ops|
  {
    if ops != [] {
      var op := NormaliseOp(t.codec, ops[0]);
      StepSimulates(t, m, ops[0]);
      RunSimulates(ApplyTable(t, ops[0]), if Dropped(t, ops[0]) then m else ApplyMap(m, op), ops[1..]);
    }
  }

  lemma {:induction false} OneAnswerEach(t: Table, ops: seq<Op>)
    requires t.Valid()
    ensures |AnswersTable(t, ops)| == |ops|
    ensures forall i :: 0 <= i < |ops| ==> RunTable(t, ops[..i]).Valid() && AnswersTable(t, ops)[i] == AnswerTable(RunTable(t, ops[..i]), ops[i])
    decreases |ops|
  {
    if ops != [] {
      ApplyKeepsValid(t, ops[0]);
      OneAnswerEach(ApplyTable(t, ops[0]), ops[1..]);
      forall i | 0 <= i < |ops|
        ensures RunTable(t, ops[..i]).Valid() && AnswersTable(t, ops)[i] == AnswerTable(RunTable(t, ops[..i]), ops[i])
      {
        if i > 0 {
          assert ops[..i][0] == ops[0] && ops[..i][1..] == ops[1..][..i - 1];
          assert ops[1..][i - 1] == ops[i];
        } else {
          assert ops[..i] == [];
        }
      }
    }
  }

  /** Any history from a fresh table is answered as the plain map answers it, skipping dropped writes. */
  lemma TableSimulatesMap(t: Table, ops: seq<Op>)
    requires Fresh(t)
    ensures t.Valid() && AnswersTable(t, ops) == Expected(t, map[], ops) && |AnswersTable(t, ops)| == |ops|
  {
    FreshTable(t);
    OneAnswerEach(t, ops);
    RunSimulates(t, map[], ops);
  }

  // ----- Capacity -----

  ghost function Consumed(slots: seq<Slot>): set<nat> {
    set i: nat | 0 <= i < |slots| && slots[i].occupied != SLOT_EMPTY
  }

  ghost predicate Bounded(t: Table, m: Placement, ideal: Placement)
    requires t.Shaped()
  {
    Within(Cells(t.slots), t.home, m, ideal)
  }

  lemma CellsAfterApply(t: Table, op: Op)
    requires t.Valid()
    ensures
      var r := t.Search(op.key);
      Cells(ApplyTable(t, op).slots)
      == if KeyWritten(op) != {} && r.Vacant? then Cells(t.slots)[r.index := Live(op.key)]
         else if op.Remove? && r.Found? then Cells(t.slots)[r.index := Tomb]
         else Cells(t.slots)
  {
    SearchSound(t, op.key);
    var r, u := t.Search(op.key), ApplyTable(t, op);
    if !r.Full? {
      CellsAfterStore(t.slots, r.index, u.slots[r.index]);
      assert Cells(t.slots)[r.index := CellOf(t.slots[r.index])] == Cells(t.slots);
    }
  }

  lemma WriteBounded(t: Table, u: Table, m: Placement, ideal: Placement, op: Op)
    returns (m': Placement, ideal': Placement)
    requires t.Valid() && Bounded(t, m, ideal) && KeyWritten(op) != {} && |ideal.Keys + {op.key}| <= |t.slots|
    requires u == ApplyTable(t, op)
    ensures u.Shaped() && Bounded(u, m', ideal') && ideal'.Keys == ideal.Keys + {op.key}
  {
    CellsAfterApply(t, op);
    m', ideal' := WriteWithin(Cells(t.slots), t.home, m, ideal, op.key, Cells(u.slots));
  }

  lemma WriteWithin(cells: seq<Cell>, home: Home, m: Placement, ideal: Placement, key: InodeKey, after: seq<Cell>)
    returns (m': Placement, ideal': Placement)
    requires Within(cells, home, m, ideal) && |ideal.Keys + {key}| <= |cells|
    requires
      var r := ProbeOf(cells, home, key);
      after == if r.Vacant? then cells[r.index := Live(key)] else cells
    ensures Within(after, home, m', ideal') && ideal'.Keys == ideal.Keys + {key}
  {
    var r := ProbeOf(cells, home, key);
    if r.Vacant? {
      ideal' := InsertStaysWithin(cells, home, m, ideal, key, r.index);
      m' := m[key := r.index];
    } else {
      ideal' := MoreKeysStayWithin(cells, home, m, ideal, key);
      m' := m;
    }
  }

  lemma RemoveBounded(t: Table, u: Table, m: Placement, ideal: Placement, key: InodeKey) returns (m': Placement)
    requires t.Valid() && Bounded(t, m, ideal) && u == ApplyTable(t, Op.Remove(key))
    ensures u.Shaped() && Bounded(u, m', ideal)
  {
    CellsAfterApply(t, Op.Remove(key));
    var r := t.Search(key);
    m' := m;
    if r.Found? {
      FoundExact(Cells(t.slots), t.home, key, r.index);
      RemoveStaysWithin(Cells(t.slots), t.home, m, ideal, r.index);
      m' := m - {key};
    }
  }

  lemma ApplyKeepsLength(t: Table, op: Op)
    requires t.Shaped()
    ensures |ApplyTable(t, op).slots| == |t.slots|
  {
  }

  lemma StepBounded(t: Table, u: Table, m: Placement, ideal: Placement, op: Op)
    returns (m': Placement, ideal': Placement)
    requires t.Valid() && Bounded(t, m, ideal) && |ideal.Keys + KeyWritten(op)| <= |t.slots|
    requires u == ApplyTable(t, op)
    ensures u.Shaped() && Bounded(u, m', ideal') && ideal'.Keys == ideal.Keys + KeyWritten(op)
  {
    if op.Get? {
      m', ideal' := m, ideal;
    } else if op.Remove? {
      m' := RemoveBounded(t, u, m, ideal, op.key);
      ideal' := ideal;
    } else {
      m', ideal' := WriteBounded(t, u, m, ideal, op);
    }
  }

  lemma KeysSplit(ideal: set<InodeKey>, ops: seq<Op>)
    requires ops != []
    ensures (ideal + KeyWritten(ops[0])) + KeysWritten(ops[1..]) == ideal + KeysWritten(ops)
    ensures |ideal + KeyWritten(ops[0])| <= |ideal + KeysWritten(ops)|
  {
    SubsetSize(ideal + KeyWritten(ops[0]), ideal + KeysWritten(ops));
  }

  lemma {:induction false} RunBounded(t: Table, m: Placement, ideal: Placement, ops: seq<Op>)
    returns (m': Placement, ideal': Placement)
    requires t.Valid() && Bounded(t, m, ideal) && |ideal.Keys + KeysWritten(ops)| <= |t.slots|
    ensures RunTable(t, ops).Valid() && Bounded(RunTable(t, ops), m', ideal')
    ensures ideal'.Keys == ideal.Keys + KeysWritten(ops)
    decreases |ops|
  {
    if ops == [] {
      m', ideal' := m, ideal;
    } else {
      KeysSplit(ideal.Keys, ops);
      ApplyKeepsValid(t, ops[0]);
      ApplyKeepsLength(t, ops[0]);
      var u := ApplyTable(t, ops[0]);
      var m1, ideal1 := StepBounded(t, u, m, ideal, ops[0]);
      m', ideal' := RunBounded(u, m1, ideal1, ops[1..]);
    }
  }

  lemma {:induction false} RunKeepsValid(t: Table, ops: seq<Op>)
    requires t.Valid()
    ensures RunTable(t, ops).Valid() && |RunTable(t, ops).slots| == |t.slots|
    ensures RunTable(t, ops).home == t.home && RunTable(t, ops).codec == t.codec
    decreases |ops|
  {
    if ops != [] {
      ApplyKeepsValid(t, ops[0]);
      RunKeepsValid(ApplyTable(t, ops[0]), ops[1..]);
    }
  }

  /**
   Whatever is inserted and removed, and however often, a history from a fresh table never
   consumes more slots than the number of distinct keys it writes.
   */
  lemma ConsumedAtMostKeysWritten(t: Table, ops: seq<Op>)
    requires Fresh(t)
    ensures t.Valid() && |Consumed(RunTable(t, ops).slots)| <= |KeysWritten(ops)|
  {
    FreshTable(t);
    RunKeepsValid(t, ops);
    var u := RunTable(t, ops);
    var cells := Cells(u.slots);
    assert Consumed(u.slots) == NonEmpty(cells);
    if |KeysWritten(ops)| <= |t.slots| {
      FreshWithin(Cells(t.slots), t.home);
      var none: Placement := map[];
      assert none.Keys + KeysWritten(ops) == KeysWritten(ops);
      var m, ideal := RunBounded(t, map[], map[], ops);
      ConsumedAtMostKeys(cells, u.home, m, ideal);
    } else {
      SubsetSize(NonEmpty(cells), Slots(|cells|));
    }
  }

  lemma {:induction false} RunAppend(t: Table, a: seq<Op>, op: Op)
    requires t.Valid()
    ensures RunTable(t, a).Valid() && RunTable(t, a + [op]) == ApplyTable(RunTable(t, a), op)
    decreases |a|
  {
    RunKeepsValid(t, a);
    if a == [] {
      assert a + [op] == [op];
      ApplyKeepsValid(t, op);
      assert RunTable(ApplyTable(t, op), []) == ApplyTable(t, op);
    } else {
      assert (a + [op])[0] == a[0] && (a + [op])[1..] == a[1..] + [op];
      ApplyKeepsValid(t, a[0]);
      RunAppend(ApplyTable(t, a[0]), a[1..], op);
    }
  }

  lemma {:induction false} KeysOfPrefix(a: seq<Op>, b: seq<Op>)
    ensures KeysWritten(a + b) == KeysWritten(a) + KeysWritten(b)
    decreases |a|
  {
    if a == [] {
      assert a + b == b;
    } else {
      assert (a + b)[0] == a[0] && (a + b)[1..] == a[1..] + b;
      KeysOfPrefix(a[1..], b);
    }
  }

  /**
   A request can only be dropped once the history before it has written as many distinct keys
   as there are slots.
   */
  lemma DropNeedsEveryKey(t: Table, before: seq<Op>, op: Op)
    requires Fresh(t)
    requires t.Valid() && RunTable(t, before).Shaped() && Dropped(RunTable(t, before), op)
    ensures |KeysWritten(before)| >= |t.slots|
  {
    RunKeepsValid(t, before);
    var u := RunTable(t, before);
    DroppedExactly(u, op);
    ConsumedAtMostKeysWritten(t, before);
    assert Consumed(u.slots) == Slots(|u.slots|);
  }

  /** A step of a history that writes fewer keys than slots is not dropped. */
  lemma NothingDropped(t: Table, before: seq<Op>, op: Op, after: seq<Op>)
    requires Fresh(t) && |KeysWritten(before + after)| < |t.slots|
    ensures t.Valid() && RunTable(t, before).Valid() && !Dropped(RunTable(t, before), op)
  {
    FreshTable(t);
    RunKeepsValid(t, before);
    KeysOfPrefix(before, after);
    SubsetSize(KeysWritten(before), KeysWritten(before + after));
    if Dropped(RunTable(t, before), op) {
      DropNeedsEveryKey(t, before, op);
    }
  }

  lemma NormaliseRest(c: Codec<Xattrs>, ops: seq<Op>)
    requires ops != []
    ensures NormaliseOps(c, ops)[0] == NormaliseOp(c, ops[0])
    ensures NormaliseOps(c, ops)[1..] == NormaliseOps(c, ops[1..])
  {
  }

  lemma {:induction false} ExpectedWithoutDrops(t: Table, before: seq<Op>, m: InodeMap, ops: seq<Op>)
    requires Fresh(t) && t.Valid() && |KeysWritten(before + ops)| < |t.slots|
    requires RunTable(t, before).Valid() && RunTable(t, before).codec == t.codec
    ensures Expected(RunTable(t, before), m, ops) == AnswersMap(m, NormaliseOps(t.codec, ops))
    decreases |ops|
  {
    if ops != [] {
      var u, op := RunTable(t, before), ops[0];
      NothingDropped(t, before, op, ops);
      RunAppend(t, before, op);
      RunKeepsValid(t, before + [op]);
      assert before + ops == (before + [op]) + ops[1..];
      var m' := ApplyMap(m, NormaliseOp(t.codec, op));
      ExpectedWithoutDrops(t, before + [op], m', ops[1..]);
      NormaliseRest(t.codec, ops);
      assert Expected(u, m, ops) == [AnswerMap(m, NormaliseOp(t.codec, op))] + Expected(ApplyTable(u, op), m', ops[1..]);
    }
  }

  /**
   While fewer distinct keys than slots are written, nothing is ever dropped: the table answers
   the whole history as the plain map does, written inodes being reduced to what a slot can hold.
   */
  lemma RoomForFewerKeysThanSlots(t: Table, ops: seq<Op>)
    requires Fresh(t) && |KeysWritten(ops)| < |t.slots|
    ensures t.Valid() && AnswersTable(t, ops) == AnswersMap(map[], NormaliseOps(t.codec, ops))
  {
    TableSimulatesMap(t, ops);
    assert [] + ops == ops;
    ExpectedWithoutDrops(t, [], map[], ops);
  }

  // ----- Running out for good -----

  ghost function EmptySlots(t: Table): set<nat> {
    set i: nat | 0 <= i < |t.slots| && t.slots[i].occupied == SLOT_EMPTY
  }

  /**
   The empty slots lose exactly the one a write of a new key lands on, if it was empty;
   no operation ever gives one back.
   */
  lemma EmptySlotsOnlyShrink(t: Table, op: Op)
    requires t.Valid()
    ensures EmptySlots(ApplyTable(t, op))
         == if (op.Chown? || op.Put?) && t.Search(op.key).Vacant?
            then EmptySlots(t) - {t.Search(op.key).index} else EmptySlots(t)
  {
    SearchSound(t, op.key);
    var u, r := ApplyTable(t, op), t.Search(op.key);
    if r.Found? || r.Vacant? {
      assert u.slots == t.slots[r.index := u.slots[r.index]];
      assert CellOf(u.slots[r.index]) != Empty || u == t;
    }
  }

  /** Once no slot is empty, a key without an entry never gets one again, tombstones or not. */
  lemma {:induction false} AbsentForGood(t: Table, ops: seq<Op>, key: InodeKey)
    requires t.Valid() && EmptySlots(t) == {} && t.Get(key).None?
    ensures RunTable(t, ops).Shaped() && RunTable(t, ops).Get(key).None? && EmptySlots(RunTable(t, ops)) == {}
    decreases |ops|
  {
    if ops != [] {
      var op := ops[0];
      var u := ApplyTable(t, op);
      forall i | 0 <= i < |t.slots|
        ensures t.slots[i].occupied != SLOT_EMPTY
      {
        assert i !in EmptySlots(t);
      }
      DroppedExactly(t, op);
      EmptySlotsOnlyShrink(t, op);
      ApplyKeepsValid(t, op);
      if !Dropped(t, op) {
        match op
        case Get(_) =>
        case Chown(k, uid, g, du, dg) => ChownSimulates(t, k, uid, g, du, dg, key);
        case Put(k, inode) => PutSimulates(t, k, inode, key);
        case Remove(k) => RemoveSimulates(t, k, key);
      }
      AbsentForGood(u, ops[1..], key);
    }
  }

  // ----- Keys with different homes, and the sharp bound -----

  ghost predicate HomesDiffer(home: Home, keys: seq<InodeKey>) {
    forall i, j :: 0 <= i < j < |keys| ==> home(keys[i]) != home(keys[j])
  }

  /** A history of insertions only, by chowns and writes of any metadata. */
  ghost predicate Inserts(ops: seq<Op>) {
    forall i :: 0 <= i < |ops| ==> ops[i].Chown? || ops[i].Put?
  }

  function KeysOf(ops: seq<Op>): (keys: seq<InodeKey>)
    ensures |keys| == |ops|
  {
    seq(|ops|, i requires 0 <= i < |ops| => ops[i].key)
  }

  /** Every listed key is at home and all other slots are empty. */
  ghost predicate AllHome(t: Table, keys: seq<InodeKey>)
    requires t.Shaped()
  {
    && (forall j :: 0 <= j < |keys| ==> CellOf(t.slots[t.home(keys[j])]) == Live(keys[j]))
    && (forall i :: 0 <= i < |t.slots| && CellOf(t.slots[i]) != Empty ==>
          exists j :: 0 <= j < |keys| && t.home(keys[j]) == i)
  }

  lemma {:induction false} InsertedAtHome(t: Table, ops: seq<Op>)
    requires Fresh(t) && Inserts(ops) && HomesDiffer(t.home, KeysOf(ops))
    ensures t.Valid() && RunTable(t, ops).Valid() && AllHome(RunTable(t, ops), KeysOf(ops))
    decreases |ops|
  {
    FreshTable(t);
    RunKeepsValid(t, ops);
    if ops != [] {
      var init, op := ops[..|ops| - 1], ops[|ops| - 1];
      LastInsert(t.home, ops, init, op);
      InsertedAtHome(t, init);
      RunAppend(t, init, op);
      RunKeepsValid(t, init);
      OneMoreAtHome(RunTable(t, init), KeysOf(init), op, RunTable(t, ops));
    }
  }

  lemma LastInsert(home: Home, ops: seq<Op>, init: seq<Op>, op: Op)
    requires ops != [] && init == ops[..|ops| - 1] && op == ops[|ops| - 1]
    requires Inserts(ops) && HomesDiffer(home, KeysOf(ops))
    ensures ops == init + [op] && KeysOf(ops) == KeysOf(init) + [op.key]
    ensures Inserts(init) && HomesDiffer(home, KeysOf(init)) && (op.Chown? || op.Put?)
  {
    forall i, j | 0 <= i < j < |init|
      ensures home(KeysOf(init)[i]) != home(KeysOf(init)[j])
    {
      assert KeysOf(init)[i] == KeysOf(ops)[i] && KeysOf(init)[j] == KeysOf(ops)[j];
    }
  }

  lemma OneMoreAtHome(u: Table, init: seq<InodeKey>, op: Op, w: Table)
    requires u.Valid() && AllHome(u, init) && HomesDiffer(u.home, init + [op.key]) && (op.Chown? || op.Put?)
    requires w == ApplyTable(u, op)
    ensures w.Shaped() && AllHome(w, init + [op.key])
  {
    var keys, key := init + [op.key], op.key;
    var h := u.home(key);
    forall j | 0 <= j < |init|
      ensures u.home(init[j]) != h
    {
      assert keys[j] == init[j] && keys[|init|] == key;
    }
    assert Cells(u.slots)[h] == CellOf(u.slots[h]) == Empty;
    assert At(|u.slots|, h, 0) == h;
    assert u.Search(key) == Vacant(h);
    assert w.slots == u.slots[h := w.slots[h]];
    HomeStep(u, w, init, key, keys);
  }

  lemma HomeStep(u: Table, w: Table, init: seq<InodeKey>, key: InodeKey, keys: seq<InodeKey>)
    requires u.Shaped() && w.Shaped() && w.home == u.home && keys == init + [key]
    requires HomesDiffer(u.home, keys) && AllHome(u, init)
    requires w.slots == u.slots[u.home(key) := w.slots[u.home(key)]] && CellOf(w.slots[u.home(key)]) == Live(key)
    ensures AllHome(w, keys)
  {
    forall j | 0 <= j < |keys|
      ensures CellOf(w.slots[w.home(keys[j])]) == Live(keys[j])
    {
      if j < |init| {
        assert keys[j] == init[j] && w.home(keys[j]) != w.home(keys[|init|]);
      }
    }
    forall i | 0 <= i < |w.slots| && CellOf(w.slots[i]) != Empty
      ensures exists j :: 0 <= j < |keys| && w.home(keys[j]) == i
    {
      if i == w.home(key) {
        assert keys[|init|] == key;
      } else {
        var j :| 0 <= j < |init| && u.home(init[j]) == i;
        assert keys[j] == init[j];
      }
    }
  }

  /** Keys on one device, in any order, with pairwise distinct residues modulo the slot count. */
  ghost predicate OneDeviceDistinctResidues(keys: seq<InodeKey>, n: nat)
    requires n > 0
  {
    && (forall i, j :: 0 <= i < |keys| && 0 <= j < |keys| ==> keys[i].0 == keys[j].0)
    && (forall i, j :: 0 <= i < j < |keys| ==> keys[i].1 % n != keys[j].1 % n)
  }

  lemma ResiduesGiveHomes(n: nat, keys: seq<InodeKey>)
    requires IsSlotCount(n) && n > 0 && OneDeviceDistinctResidues(keys, n)
    ensures HomesDiffer(BucketIn(n), keys)
  {
    var k: nat :| 10 <= k <= 31 && n == Pow2(k);
    forall i, j | 0 <= i < j < |keys|
      ensures BucketIn(n)(keys[i]) != BucketIn(n)(keys[j])
    {
      SameBucket(k, keys[i].0, keys[i].1, keys[j].1);
    }
  }

  /** Such keys inserted into a fresh table, in any way and order, all sit in their home slots. */
  lemma OneDeviceNoCollisions(t: Table, ops: seq<Op>)
    requires Fresh(t) && IsSlotCount(|t.slots|) && |t.slots| > 0 && t.home == BucketIn(|t.slots|)
    requires Inserts(ops) && OneDeviceDistinctResidues(KeysOf(ops), |t.slots|)
    ensures t.Valid() && RunTable(t, ops).Valid() && AllHome(RunTable(t, ops), KeysOf(ops))
  {
    ResiduesGiveHomes(|t.slots|, KeysOf(ops));
    InsertedAtHome(t, ops);
  }

  /**
   The bound on keys is sharp, and a reusable slot does not help: fill a table with as many
   keys as it has slots, remove one, and putting that same key back, by whatever write, is
   dropped although its own tombstone is free.
   */
  lemma RemovedKeyCannotReturn(t: Table, ops: seq<Op>, again: Op)
    requires Fresh(t) && Inserts(ops) && HomesDiffer(t.home, KeysOf(ops)) && |ops| == |t.slots| && |ops| > 0
    requires (again.Chown? || again.Put?) && again.key == ops[0].key
    ensures t.Valid()
    ensures
      var filled, key := RunTable(t, ops), ops[0].key;
      && filled.Valid() && |filled.slots| == |t.slots| && filled.Get(key).Some?
      && var removed := filled.Remove(key);
      && removed.Shaped() && CellOf(removed.slots[t.home(key)]) == Tomb && removed.Search(key).Full?
      && ApplyTable(removed, again) == removed && removed.Get(key).None?
  {
    InsertedAtHome(t, ops);
    RunKeepsValid(t, ops);
    var filled, key := RunTable(t, ops), ops[0].key;
    assert KeysOf(ops)[0] == key;
    var h := t.home(key);
    GetExact(filled, key, h);
    EveryHomeUsed(filled, KeysOf(ops));
    var removed := filled.Remove(key);
    RemoveSimulates(filled, key, key);
    assert removed.slots == filled.slots[h := removed.slots[h]];
    DroppedExactly(removed, again);
  }

  /** Writes of the first n inode numbers of device 0. */
  function Filling(n: nat, inode: FakeInode): seq<Op>
    requires n <= 0x8000_0000
  {
    seq(n, i requires 0 <= i < n => Put((0, i), inode))
  }

  lemma FillingResidues(n: nat, inode: FakeInode)
    requires 0 < n <= 0x8000_0000
    ensures Inserts(Filling(n, inode)) && |Filling(n, inode)| == n
    ensures OneDeviceDistinctResidues(KeysOf(Filling(n, inode)), n)
  {
    var keys := KeysOf(Filling(n, inode));
    forall i, j | 0 <= i < j < n
      ensures keys[i].1 % n != keys[j].1 % n
    {
      SmallMod(i, n);
      SmallMod(j, n);
    }
  }

  /** That history is real: it fills every table that can be created. */
  lemma FillingFills(t: Table, inode: FakeInode)
    requires Fresh(t) && IsSlotCount(|t.slots|) && |t.slots| > 0 && t.home == BucketIn(|t.slots|)
    ensures |t.slots| <= 0x8000_0000
    ensures
      var ops := Filling(|t.slots|, inode);
      && Inserts(ops) && HomesDiffer(t.home, KeysOf(ops)) && |ops| == |t.slots|
      && t.Valid() && RunTable(t, ops).Valid() && EmptySlots(RunTable(t, ops)) == {}
  {
    var n := |t.slots|;
    var k: nat :| 10 <= k <= 31 && n == Pow2(k);
    Pow2Landmarks();
    Pow2Grows(k, 31);
    var ops := Filling(n, inode);
    FillingResidues(n, inode);
    ResiduesGiveHomes(n, KeysOf(ops));
    InsertedAtHome(t, ops);
    RunKeepsValid(t, ops);
    EveryHomeUsed(RunTable(t, ops), KeysOf(ops));
  }

  lemma SmallMod(x: nat, n: nat)
    requires x < n
    ensures x % n == x
  {
  }

  lemma EveryHomeUsed(t: Table, keys: seq<InodeKey>)
    requires t.Shaped() && AllHome(t, keys) && HomesDiffer(t.home, keys) && |keys| == |t.slots|
    ensures forall i :: 0 <= i < |t.slots| ==> t.slots[i].occupied != SLOT_EMPTY
  {
    var used := set i: nat | 0 <= i < |t.slots| && t.slots[i].occupied != SLOT_EMPTY;
    HomesCount(t.home, keys, used);
    assert used <= Slots(|t.slots|);
    assert |Slots(|t.slots|)| == |used| + |Slots(|t.slots|) - used| by {
      assert Slots(|t.slots|) == used + (Slots(|t.slots|) - used);
    }
    forall i | 0 <= i < |t.slots|
      ensures t.slots[i].occupied != SLOT_EMPTY
    {
      assert i in Slots(|t.slots|);
    }
  }

  lemma {:induction false} HomesCount(home: Home, keys: seq<InodeKey>, used: set<nat>)
    requires HomesDiffer(home, keys) && forall j :: 0 <= j < |keys| ==> home(keys[j]) in used
    ensures |used| >= |keys|
    decreases |keys|
  {
    if keys != [] {
      var init, last := keys[..|keys| - 1], keys[|keys| - 1];
      HomesCount(home, init, used - {home(last)});
    }
  }
}
