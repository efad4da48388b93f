/**
 Lock-free readers beside one writer. Every field store of the writer and every load of the
 reader is a step of its own; the order of steps is arbitrary. Writers are serialised, and the
 writer's own search is one step because nobody else writes.
 */
module Readers {
  import opened Base
  import opened InodeHash
  import opened Layout
  import opened Probing
  import opened State
  import opened InodeTable
  import opened TableLaws

  // ----- States -----

  /** What the writer still has to store. */
  datatype Writer =
    | Idle
    | Updating(key: InodeKey, index: nat, todo: seq<(Field, nat)>)
    | Inserting(key: InodeKey, index: nat, target: Slot, stored: nat)
    | Removing(key: InodeKey, index: nat)

  /** Where the reader is: about to load a word of the slot dist steps from home, or finished. */
  datatype Reader =
    | Resting
    | AtOccupied(key: InodeKey, dist: nat)
    | AtDev(key: InodeKey, dist: nat)
    | AtIno(key: InodeKey, dist: nat)
    | Taking(key: InodeKey, index: nat, got: seq<nat>)
    | Missed(key: InodeKey)
    | Got(key: InodeKey, index: nat, got: seq<nat>)

  /** A metadata value stored on behalf of a key. */
  datatype Written = Written(key: InodeKey, field: Field, value: nat)

  datatype World = World(home: Home, slots: seq<Slot>, writer: Writer, reader: Reader, log: set<Written>)

  /** The order in which an insertion stores its fields: the occupancy word last. */
  function InsertOrder(p: nat): Field
    requires p < 7
  {
    [Dev, Ino, Uid, Gid, Mode, Rdev, Occupied][p]
  }

  const TAKES: nat := 6

  /** The metadata words in the order a reader takes them: a mode or rdev found nonzero is loaded again. */
  function TakeOrder(p: nat): Field
    requires p < TAKES
  {
    [Uid, Gid, Mode, Mode, Rdev, Rdev][p]
  }

  predicate IsMetadata(f: Field) {
    f.Uid? || f.Gid? || f.Mode? || f.Rdev?
  }

  // ----- The writer -----

  function UpdatesFor(op: Op): seq<(Field, nat)>
    requires op.Chown? || op.Put?
  {
    match op
    case Chown(_, uid, gid, _, _) =>
      (if uid != ID_UNCHANGED then [(Uid, uid)] else []) + (if gid != ID_UNCHANGED then [(Gid, gid)] else [])
    case Put(_, inode) =>
      [(Uid, inode.uid), (Gid, inode.gid), (Mode, inode.mode.GetOr(0)), (Rdev, inode.rdev.GetOr(0))]
  }

  function TargetFor(op: Op): Slot
    requires op.Chown? || op.Put?
  {
    match op
    case Chown(key, uid, gid, du, dg) => Slot(SLOT_LIVE, key.0, key.1, Chosen(uid, du), Chosen(gid, dg), 0, 0)
    case Put(key, inode) =>
      Slot(SLOT_LIVE, key.0, key.1, inode.uid, inode.gid, inode.mode.GetOr(0), inode.rdev.GetOr(0))
  }

  /** What a request makes the writer store, decided by one search. */
  function Plan(home: Home, slots: seq<Slot>, op: Op): Writer
    requires home(op.key) < |slots|
  {
    match ProbeOf(Cells(slots), home, op.key)
    case Full => Idle
    case Found(i) =>
      if op.Get? then Idle
      else if op.Remove? then Removing(op.key, i)
      else Updating(op.key, i, UpdatesFor(op))
    case Vacant(i) =>
      if op.Get? || op.Remove? then Idle else Inserting(op.key, i, TargetFor(op), 0)
  }

  ghost predicate WriterBegins(w: World, v: World, op: Op) {
    && w.writer.Idle? && w.home(op.key) < |w.slots|
    && v == w.(writer := Plan(w.home, w.slots, op))
  }

  function Logged(key: InodeKey, f: Field, v: nat): set<Written> {
    if IsMetadata(f) then {Written(key, f, v)} else {}
  }

  /** One store. */
  ghost predicate WriterStores(w: World, v: World) {
    match w.writer
    case Idle => false
    case Updating(k, i, todo) =>
      if todo == [] then v == w.(writer := Idle)
      else
        && i < |w.slots| && todo[0].0.Fits(todo[0].1)
        && v == w.(slots := w.slots[i := With(w.slots[i], todo[0].0, todo[0].1)],
                   log := w.log + Logged(k, todo[0].0, todo[0].1),
                   writer := Updating(k, i, todo[1..]))
    case Inserting(k, i, target, p) =>
      if p >= 7 then v == w.(writer := Idle)
      else
        var f := InsertOrder(p);
        && i < |w.slots|
        && v == w.(slots := w.slots[i := With(w.slots[i], f, Value(target, f))],
                   log := w.log + Logged(k, f, Value(target, f)),
                   writer := Inserting(k, i, target, p + 1))
    case Removing(k, i) =>
      && i < |w.slots|
      && v == w.(slots := w.slots[i := w.slots[i].(occupied := SLOT_TOMBSTONE)], writer := Idle)
  }

  // ----- The reader -----

  /** Moving on to the next slot, or giving up after as many steps as there are slots. */
  function Onward(w: World, key: InodeKey, d: nat): Reader {
    if d + 1 < |w.slots| then AtOccupied(key, d + 1) else Missed(key)
  }

  function ReaderNext(w: World): Reader
    requires HomesFit(w.home, |w.slots|)
  {
    match w.reader
    case AtOccupied(key, d) =>
      if d >= |w.slots| then Missed(key)
      else
        var s := w.slots[At(|w.slots|, w.home(key), d)];
        if s.occupied == SLOT_EMPTY then Missed(key)
        else if s.occupied == SLOT_LIVE then AtDev(key, d)
        else Onward(w, key, d)
    case AtDev(key, d) =>
      if d >= |w.slots| then Missed(key)
      else if w.slots[At(|w.slots|, w.home(key), d)].dev == key.0 then AtIno(key, d) else Onward(w, key, d)
    case AtIno(key, d) =>
      if d >= |w.slots| then Missed(key)
      else
        var i := At(|w.slots|, w.home(key), d);
        if w.slots[i].ino == key.1 then Taking(key, i, []) else Onward(w, key, d)
    case Taking(key, i, got) =>
      if |got| >= TAKES || i >= |w.slots| then Got(key, i, got)
      else Taking(key, i, got + [Value(w.slots[i], TakeOrder(|got|))])
    case other => other
  }

  ghost predicate ReaderSteps(w: World, v: World) {
    HomesFit(w.home, |w.slots|) && v == w.(reader := ReaderNext(w))
  }

  ghost predicate ReaderBegins(w: World, v: World, key: InodeKey) {
    (w.reader.Resting? || w.reader.Missed? || w.reader.Got?) && v == w.(reader := AtOccupied(key, 0))
  }

  ghost predicate Restarts(w: World, v: World) {
    exists key :: ReaderBegins(w, v, key)
  }

  /** Any step; requests of the given kinds only. */
  ghost predicate Step(w: World, v: World, removals: bool) {
    || (exists op :: WriterBegins(w, v, op) && (op.Remove? ==> removals))
    || WriterStores(w, v)
    || ReaderSteps(w, v)
    || Restarts(w, v)
  }

  ghost predicate StepAt(run: seq<World>, j: nat, removals: bool)
    requires j + 1 < |run|
  {
    Step(run[j], run[j + 1], removals)
  }

  ghost predicate IsRun(run: seq<World>, removals: bool) {
    |run| > 0 && forall j {:trigger StepAt(run, j, removals)} :: 0 <= j < |run| - 1 ==> StepAt(run, j, removals)
  }

  ghost predicate Start(w: World) {
    HomesFit(w.home, |w.slots|) && AllEmpty(w.slots) && w.writer.Idle? && w.reader.Resting? && w.log == {}
  }

  // ----- The plan carries out the operation -----

  function Stored(s: Slot, todo: seq<(Field, nat)>): Slot
    requires forall j :: 0 <= j < |todo| ==> todo[j].0.Fits(todo[j].1)
    decreases |todo|
  {
    if todo == [] then s else Stored(With(s, todo[0].0, todo[0].1), todo[1..])
  }

  /** The slots once a plan's stores have all been made. */
  function Finished(slots: seq<Slot>, p: Writer): seq<Slot>
    requires !p.Idle? ==> p.index < |slots|
    requires p.Updating? ==> forall j :: 0 <= j < |p.todo| ==> p.todo[j].0.Fits(p.todo[j].1)
  {
    match p
    case Idle => slots
    case Updating(_, i, todo) => slots[i := Stored(slots[i], todo)]
    case Inserting(_, i, target, _) => slots[i := target]
    case Removing(_, i) => slots[i := slots[i].(occupied := SLOT_TOMBSTONE)]
  }

  lemma StoredFirst(s: Slot, f: Field, v: nat, rest: seq<(Field, nat)>)
    requires f.Fits(v) && forall j :: 0 <= j < |rest| ==> rest[j].0.Fits(rest[j].1)
    ensures Stored(s, [(f, v)] + rest) == Stored(With(s, f, v), rest)
  {
  }

  lemma UpdatesStored(s: Slot, op: Op)
    requires op.Chown? || op.Put?
    ensures forall j :: 0 <= j < |UpdatesFor(op)| ==> UpdatesFor(op)[j].0.Fits(UpdatesFor(op)[j].1)
    ensures Stored(s, UpdatesFor(op))
         == if op.Put? then s.(uid := op.inode.uid, gid := op.inode.gid, mode := op.inode.mode.GetOr(0), rdev := op.inode.rdev.GetOr(0))
            else s.(uid := Chosen(op.uid, s.uid), gid := Chosen(op.gid, s.gid))
  {
    match op
    case Put(_, inode) =>
      var c: (Field, nat), d: (Field, nat) := (Mode, inode.mode.GetOr(0)), (Rdev, inode.rdev.GetOr(0));
      assert UpdatesFor(op) == [(Uid, inode.uid)] + ([(Gid, inode.gid)] + [c, d]);
      StoredFirst(s, Uid, inode.uid, [(Gid, inode.gid)] + [c, d]);
      StoredFirst(With(s, Uid, inode.uid), Gid, inode.gid, [c, d]);
      var s2 := With(With(s, Uid, inode.uid), Gid, inode.gid);
      assert [c, d] == [c] + [d];
      StoredFirst(s2, Mode, c.1, [d]);
      assert [d] == [d] + [];
      StoredFirst(With(s2, Mode, c.1), Rdev, d.1, []);
    case Chown(_, uid, gid, _, _) =>
      var b := if gid != ID_UNCHANGED then [(Gid, gid)] else [];
      if uid != ID_UNCHANGED {
        StoredFirst(s, Uid, uid, b);
      } else {
        assert UpdatesFor(op) == b;
      }
  }

  /** Uninterrupted, the stores of a plan do what the operation does to the slots. */
  lemma PlanIsApply(t: Table, op: Op)
    requires t.Shaped()
    ensures
      var p := Plan(t.home, t.slots, op);
      && (!p.Idle? ==> p.index < |t.slots|)
      && (p.Updating? ==> forall j :: 0 <= j < |p.todo| ==> p.todo[j].0.Fits(p.todo[j].1))
      && Finished(t.slots, p) == ApplyTable(t, op).slots
  {
    var p := Plan(t.home, t.slots, op);
    if p.Updating? {
      FoundMatches(Cells(t.slots), t.home, op.key, p.index);
      UpdatesStored(t.slots[p.index], op);
    }
  }

  // ----- Invariants -----

  /** The writer's remaining stores fit the slots as they are. */
  ghost predicate WriterFits(w: World)
    requires HomesFit(w.home, |w.slots|)
  {
    match w.writer
    case Idle => true
    case Updating(k, i, todo) =>
      && i < |w.slots| && CellOf(w.slots[i]) == Live(k)
      && forall j :: 0 <= j < |todo| ==> IsMetadata(todo[j].0) && todo[j].0.Fits(todo[j].1)
    case Inserting(k, i, target, p) =>
      && i < |w.slots| && CellOf(target) == Live(k)
      && (p < 7 ==> ProbeOf(Cells(w.slots), w.home, k) == Vacant(i))
      && (forall q :: 0 <= q < p && q < 7 && p < 7 ==> Value(w.slots[i], InsertOrder(q)) == Value(target, InsertOrder(q)))
    case Removing(k, i) => i < |w.slots| && CellOf(w.slots[i]) == Live(k)
  }

  ghost predicate Good(w: World) {
    Inv(Cells(w.slots), w.home) && WriterFits(w)
  }

  /** A store that changes no cell keeps everything that depends on cells. */
  lemma SameCells(slots: seq<Slot>, i: nat, s: Slot)
    requires i < |slots| && CellOf(s) == CellOf(slots[i])
    ensures Cells(slots[i := s]) == Cells(slots)
  {
  }

  lemma BeginKeepsGood(w: World, v: World, op: Op)
    requires Good(w) && WriterBegins(w, v, op)
    ensures Good(v)
  {
    var cells := Cells(w.slots);
    var r := ProbeOf(cells, w.home, op.key);
    if r.Found? {
      FoundMatches(cells, w.home, op.key, r.index);
      assert cells[r.index] == CellOf(w.slots[r.index]);
    }
  }

  lemma LastStorePublishes(w: World, v: World)
    requires Good(w) && w.writer.Inserting? && w.writer.stored == 6 && WriterStores(w, v)
    ensures v.slots == w.slots[w.writer.index := w.writer.target]
    ensures Cells(v.slots) == Cells(w.slots)[w.writer.index := Live(w.writer.key)]
  {
    var i, target := w.writer.index, w.writer.target;
    var s := w.slots[i];
    assert Value(s, InsertOrder(0)) == target.dev && Value(s, InsertOrder(1)) == target.ino;
    assert Value(s, InsertOrder(2)) == target.uid && Value(s, InsertOrder(3)) == target.gid;
    assert Value(s, InsertOrder(4)) == target.mode && Value(s, InsertOrder(5)) == target.rdev;
    CellsAfterStore(w.slots, i, target);
  }

  lemma InsertStoreKeepsGood(w: World, v: World)
    requires Good(w) && w.writer.Inserting? && WriterStores(w, v)
    ensures Good(v)
  {
    var k, i, p := w.writer.key, w.writer.index, w.writer.stored;
    var cells := Cells(w.slots);
    if p < 7 {
      InsertKeepsInv(cells, w.home, k, i);
      assert cells[i] == CellOf(w.slots[i]);
      if p == 6 {
        LastStorePublishes(w, v);
      } else {
        SameCells(w.slots, i, v.slots[i]);
      }
    }
  }

  lemma StoreKeepsGood(w: World, v: World)
    requires Good(w) && WriterStores(w, v)
    ensures Good(v)
  {
    match w.writer
    case Idle =>
    case Updating(k, i, todo) =>
      if todo != [] {
        SameCells(w.slots, i, v.slots[i]);
      }
    case Inserting(_, _, _, _) =>
      InsertStoreKeepsGood(w, v);
    case Removing(k, i) =>
      CellsAfterStore(w.slots, i, v.slots[i]);
      RemoveKeepsInv(Cells(w.slots), w.home, i);
  }

  lemma StepKeepsGood(w: World, v: World, removals: bool)
    requires Good(w) && Step(w, v, removals)
    ensures Good(v)
  {
    if op :| WriterBegins(w, v, op) {
      BeginKeepsGood(w, v, op);
    } else if WriterStores(w, v) {
      StoreKeepsGood(w, v);
    }
  }

  lemma {:induction false} RunIsGood(run: seq<World>, removals: bool, j: nat)
    requires IsRun(run, removals) && Start(run[0]) && j < |run|
    ensures Good(run[j])
    decreases j
  {
    if j == 0 {
      var cells := Cells(run[0].slots);
      assert forall i :: 0 <= i < |cells| ==> cells[i] == Empty;
    } else {
      RunIsGood(run, removals, j - 1);
      assert StepAt(run, j - 1, removals);
      StepKeepsGood(run[j - 1], run[j], removals);
    }
  }

  // ----- Running alone -----

  lemma Extend(run: seq<World>, v: World)
    requires IsRun(run, true) && Step(run[|run| - 1], v, true)
    ensures IsRun(run + [v], true)
  {
    forall j | 0 <= j < |run|
      ensures StepAt(run + [v], j, true)
    {
      if j < |run| - 1 {
        assert StepAt(run, j, true);
      }
    }
  }

  /** The rest of an insertion, uninterrupted. */
  lemma FinishInsert(run: seq<World>, i: nat) returns (longer: seq<World>)
    requires IsRun(run, true)
    requires
      var w := run[|run| - 1];
      && Good(w) && w.writer.Inserting? && w.writer.index == i
      && (w.writer.stored >= 7 ==> w.slots[i] == w.writer.target)
    ensures IsRun(longer, true) && longer[0] == run[0]
    ensures
      var w, v := run[|run| - 1], longer[|longer| - 1];
      && Good(v) && v.writer.Idle? && v.home == w.home && v.reader == w.reader && HeldAt(v, w.writer.key, i)
      && i < |w.slots| && v.slots == w.slots[i := w.writer.target]
      && forall e :: e in v.log && e !in w.log ==> e.key == w.writer.key
    decreases 8 - run[|run| - 1].writer.stored
  {
    var w := run[|run| - 1];
    var p := w.writer.stored;
    if p >= 7 {
      var v := w.(writer := Idle);
      assert WriterStores(w, v);
      Extend(run, v);
      return run + [v];
    }
    var f, target := InsertOrder(p), w.writer.target;
    var v := w.(slots := w.slots[i := With(w.slots[i], f, Value(target, f))],
                log := w.log + Logged(w.writer.key, f, Value(target, f)),
                writer := Inserting(w.writer.key, i, target, p + 1));
    assert WriterStores(w, v);
    StoreKeepsGood(w, v);
    if p == 6 {
      LastStorePublishes(w, v);
    }
    Extend(run, v);
    longer := FinishInsert(run + [v], i);
  }

  /** The rest of an update, uninterrupted. */
  lemma FinishUpdate(run: seq<World>) returns (longer: seq<World>)
    requires IsRun(run, true) && Good(run[|run| - 1]) && run[|run| - 1].writer.Updating?
    ensures IsRun(longer, true) && longer[0] == run[0]
    ensures
      var w, v := run[|run| - 1], longer[|longer| - 1];
      && v.writer.Idle? && v.home == w.home && v.reader == w.reader && w.writer.index < |w.slots|
      && (forall j :: 0 <= j < |w.writer.todo| ==> w.writer.todo[j].0.Fits(w.writer.todo[j].1))
      && v.slots == w.slots[w.writer.index := Stored(w.slots[w.writer.index], w.writer.todo)]
    decreases |run[|run| - 1].writer.todo|
  {
    var w := run[|run| - 1];
    var k, i, todo := w.writer.key, w.writer.index, w.writer.todo;
    if todo == [] {
      var v := w.(writer := Idle);
      assert WriterStores(w, v);
      Extend(run, v);
      return run + [v];
    }
    var v := w.(slots := w.slots[i := With(w.slots[i], todo[0].0, todo[0].1)],
                log := w.log + Logged(k, todo[0].0, todo[0].1),
                writer := Updating(k, i, todo[1..]));
    assert WriterStores(w, v);
    StoreKeepsGood(w, v);
    Extend(run, v);
    longer := FinishUpdate(run + [v]);
  }

  /** A writer running alone, store by store, carries out the operation on the table. */
  lemma WriterAlone(t: Table, w: World, op: Op) returns (run: seq<World>)
    requires t.Valid() && w.home == t.home && w.slots == t.slots && w.writer.Idle?
    ensures IsRun(run, true) && run[0] == w
    ensures
      var v := run[|run| - 1];
      v.writer.Idle? && v.home == w.home && v.reader == w.reader && v.slots == ApplyTable(t, op).slots
  {
    var v := w.(writer := Plan(w.home, w.slots, op));
    assert WriterBegins(w, v, op);
    BeginKeepsGood(w, v, op);
    PlanIsApply(t, op);
    run := [w];
    Extend(run, v);
    run := run + [v];
    match v.writer
    case Idle =>
    case Updating(_, _, _) => run := FinishUpdate(run);
    case Inserting(_, i, _, _) => run := FinishInsert(run, i);
    case Removing(_, i) =>
      var u := v.(slots := v.slots[i := v.slots[i].(occupied := SLOT_TOMBSTONE)], writer := Idle);
      assert WriterStores(v, u);
      Extend(run, u);
      run := run + [u];
  }

  /** The world after the reader alone has taken k steps. */
  ghost function ReaderAfter(w: World, k: nat): (v: World)
    requires HomesFit(w.home, |w.slots|)
    ensures v == w.(reader := v.reader)
    decreases k
  {
    if k == 0 then w else ReaderAfter(w.(reader := ReaderNext(w)), k - 1)
  }

  /** The words of a slot that make an entry, a mode and a device number being looked at twice. */
  function EntryWords(s: Slot): seq<nat> {
    [s.uid, s.gid, s.mode, s.mode, s.rdev, s.rdev]
  }

  lemma TakeAlone(w: World, key: InodeKey, i: nat, got: seq<nat>) returns (k: nat)
    requires HomesFit(w.home, |w.slots|) && i < |w.slots| && w.reader == Taking(key, i, got)
    requires |got| <= TAKES && got == EntryWords(w.slots[i])[..|got|]
    ensures ReaderAfter(w, k) == w.(reader := Got(key, i, EntryWords(w.slots[i])))
    decreases TAKES - |got|
  {
    var v := w.(reader := ReaderNext(w));
    if |got| == TAKES {
      k := 1;
      assert got == EntryWords(w.slots[i]);
      assert ReaderAfter(v, 0) == v;
    } else {
      var word := Value(w.slots[i], TakeOrder(|got|));
      assert word == EntryWords(w.slots[i])[|got|];
      assert v.reader == Taking(key, i, got + [word]);
      var rest := TakeAlone(v, key, i, got + [word]);
      k := rest + 1;
    }
  }

  /** One slot that does not hold the key: the reader moves on, or stops at an empty one. */
  lemma PassAlone(w: World, key: InodeKey, d: nat) returns (k: nat)
    requires Good(w) && d < |w.slots| && w.reader == AtOccupied(key, d)
    requires CellOf(w.slots[At(|w.slots|, w.home(key), d)]) != Live(key)
    ensures
      var i := At(|w.slots|, w.home(key), d);
      ReaderAfter(w, k) == w.(reader := if w.slots[i].occupied == SLOT_EMPTY then Missed(key) else Onward(w, key, d))
  {
    var s := w.slots[At(|w.slots|, w.home(key), d)];
    var w1 := w.(reader := ReaderNext(w));
    k := 1;
    assert ReaderAfter(w1, 0) == w1;
    if s.occupied == SLOT_LIVE {
      var w2 := w1.(reader := ReaderNext(w1));
      assert ReaderAfter(w2, 0) == w2 && ReaderAfter(w1, 1) == w2;
      k := 2;
      if s.dev == key.0 {
        var w3 := w2.(reader := ReaderNext(w2));
        assert ReaderAfter(w3, 0) == w3 && ReaderAfter(w2, 1) == w3 && ReaderAfter(w1, 2) == w3;
        k := 3;
      }
    }
  }

  lemma {:induction false} AfterAfter(w: World, a: nat, b: nat)
    requires HomesFit(w.home, |w.slots|)
    ensures ReaderAfter(w, a + b) == ReaderAfter(ReaderAfter(w, a), b)
    decreases a
  {
    if a > 0 {
      AfterAfter(w.(reader := ReaderNext(w)), a - 1, b);
    }
  }

  lemma TakeFound(w: World, key: InodeKey, d: nat) returns (k: nat)
    requires HomesFit(w.home, |w.slots|) && d < |w.slots| && w.reader == AtOccupied(key, d)
    requires CellOf(w.slots[At(|w.slots|, w.home(key), d)]) == Live(key)
    ensures
      var i := At(|w.slots|, w.home(key), d);
      ReaderAfter(w, k) == w.(reader := Got(key, i, EntryWords(w.slots[i])))
  {
    var i := At(|w.slots|, w.home(key), d);
    var w1 := w.(reader := AtDev(key, d));
    var w2 := w.(reader := AtIno(key, d));
    var w3 := w.(reader := Taking(key, i, []));
    assert ReaderNext(w) == w1.reader && ReaderNext(w1) == w2.reader && ReaderNext(w2) == w3.reader;
    var rest := TakeAlone(w3, key, i, []);
    k := rest + 3;
    assert ReaderAfter(w2, rest + 1) == ReaderAfter(w3, rest);
    assert ReaderAfter(w1, rest + 2) == ReaderAfter(w2, rest + 1);
  }

  /** Alone, a reader at or before a live key's slot ends with the words of that slot, in order. */
  lemma {:induction false} FoundAlone(w: World, key: InodeKey, i: nat, d: nat) returns (k: nat)
    requires Good(w) && HeldAt(w, key, i) && w.reader == AtOccupied(key, d) && d <= Dist(|w.slots|, w.home(key), i)
    ensures ReaderAfter(w, k).reader
         == Got(key, i, [w.slots[i].uid, w.slots[i].gid, w.slots[i].mode, w.slots[i].mode, w.slots[i].rdev, w.slots[i].rdev])
    decreases |w.slots| - d
  {
    var n, h := |w.slots|, w.home(key);
    var cells := Cells(w.slots);
    VisitsEachOnce(n, h, i);
    assert cells[i] == Live(key) && OpenPath(cells, h, Dist(n, h, i));
    if d == Dist(n, h, i) {
      k := TakeFound(w, key, d);
    } else {
      var j := At(n, h, d);
      assert j != i && cells[j] == CellOf(w.slots[j]) && cells[j] != Empty;
      var a := PassAlone(w, key, d);
      var v := w.(reader := AtOccupied(key, d + 1));
      var b := FoundAlone(v, key, i, d + 1);
      AfterAfter(w, a, b);
      k := a + b;
    }
  }

  /** Alone, a reader of a key that is nowhere ends without an entry. */
  lemma {:induction false} MissedAlone(w: World, key: InodeKey, d: nat) returns (k: nat)
    requires Good(w) && d < |w.slots| && w.reader == AtOccupied(key, d)
    requires forall i :: 0 <= i < |w.slots| ==> CellOf(w.slots[i]) != Live(key)
    ensures ReaderAfter(w, k).reader == Missed(key)
    decreases |w.slots| - d
  {
    var a := PassAlone(w, key, d);
    k := a;
    if w.slots[At(|w.slots|, w.home(key), d)].occupied != SLOT_EMPTY && d + 1 < |w.slots| {
      var v := w.(reader := AtOccupied(key, d + 1));
      var b := MissedAlone(v, key, d + 1);
      AfterAfter(w, a, b);
      k := a + b;
    }
  }

  /** An entry without its attributes, as the words of a lookup spell it. */
  ghost predicate WordsSpell(got: seq<nat>, inode: FakeInode) {
    && |got| == 6 && got[0] == inode.uid && got[1] == inode.gid
    && (if got[2] == 0 then inode.mode == None else inode.mode.Some? && inode.mode.value == got[3])
    && (if got[4] == 0 then inode.rdev == None else inode.rdev.Some? && inode.rdev.value == got[5])
  }

  /** A reader running alone answers as the table does, attributes aside. */
  lemma ReaderAlone(t: Table, w: World, key: InodeKey) returns (k: nat)
    requires t.Valid() && w.home == t.home && w.slots == t.slots && w.writer.Idle? && w.reader == AtOccupied(key, 0)
    ensures
      var r := ReaderAfter(w, k).reader;
      match t.Get(key)
      case Some(inode) => r.Got? && r.key == key && WordsSpell(r.got, inode)
      case None => r == Missed(key)
  {
    assert t.home(key) < |t.slots|;
    SearchSound(t, key);
    if t.Search(key).Found? {
      k := FoundAlone(w, key, t.Search(key).index, 0);
    } else {
      k := MissedAlone(w, key, 0);
    }
  }

  // ----- A live key is never missed -----

  ghost predicate HeldAt(w: World, key: InodeKey, i: nat) {
    i < |w.slots| && CellOf(w.slots[i]) == Live(key)
  }

  /** A reader looking for the key has not gone past slot i. */
  ghost predicate NotPast(w: World, key: InodeKey, i: nat)
    requires HomesFit(w.home, |w.slots|) && i < |w.slots|
  {
    match w.reader
    case AtOccupied(k, d) => k == key && d <= Dist(|w.slots|, w.home(key), i)
    case AtDev(k, d) => k == key && d <= Dist(|w.slots|, w.home(key), i)
    case AtIno(k, d) => k == key && d <= Dist(|w.slots|, w.home(key), i)
    case Taking(k, _, _) => k == key
    case Got(k, _, _) => k == key
    case _ => false
  }

  lemma ReaderStaysOnPath(w: World, key: InodeKey, i: nat)
    requires Good(w) && HeldAt(w, key, i) && NotPast(w, key, i)
    ensures NotPast(w.(reader := ReaderNext(w)), key, i)
  {
    var n, h := |w.slots|, w.home(key);
    var cells := Cells(w.slots);
    assert cells[i] == Live(key);
    assert OpenPath(cells, h, Dist(n, h, i));
    VisitsEachOnce(n, h, i);
    if w.reader.AtOccupied? {
      var j := At(n, h, w.reader.dist);
      assert cells[j] == CellOf(w.slots[j]);
      assert cells[j] != Empty;
    }
  }

  lemma StepStaysOnPath(w: World, v: World, key: InodeKey, i: nat)
    requires Good(w) && HeldAt(w, key, i) && NotPast(w, key, i)
    requires Step(w, v, true) && !Restarts(w, v)
    ensures v.home == w.home && |v.slots| == |w.slots| && NotPast(v, key, i)
  {
    if ReaderSteps(w, v) {
      ReaderStaysOnPath(w, key, i);
    }
  }

  lemma StaysOnPathAt(run: seq<World>, j: nat, key: InodeKey, i: nat)
    requires IsRun(run, true) && j + 1 < |run| && !Restarts(run[j], run[j + 1])
    requires Good(run[j]) && HeldAt(run[j], key, i) && NotPast(run[j], key, i)
    ensures var v := run[j + 1]; v.home == run[j].home && |v.slots| == |run[j].slots| && NotPast(v, key, i)
  {
    assert StepAt(run, j, true);
    StepStaysOnPath(run[j], run[j + 1], key, i);
  }

  /**
   A reader that starts probing for a key, and the key staying live in one slot all the while,
   never reports it absent, whatever else is inserted, removed or recycled meanwhile.
   */
  lemma {:induction false} LiveKeyNeverMissed(run: seq<World>, start: nat, j: nat, key: InodeKey, i: nat)
    requires IsRun(run, true) && Start(run[0]) && start <= j < |run|
    requires run[start].reader == AtOccupied(key, 0)
    requires forall a :: start <= a <= j ==> HeldAt(run[a], key, i)
    requires forall a :: start <= a < j ==> !Restarts(run[a], run[a + 1])
    ensures HomesFit(run[j].home, |run[j].slots|) && i < |run[j].slots| && NotPast(run[j], key, i) && !run[j].reader.Missed?
    decreases j
  {
    RunIsGood(run, true, j);
    assert HeldAt(run[j], key, i);
    if j > start {
      LiveKeyNeverMissed(run, start, j - 1, key, i);
      RunIsGood(run, true, j - 1);
      StaysOnPathAt(run, j - 1, key, i);
    }
  }

  // ----- Without removals, a reader gets values stored for its own key -----

  /** All the metadata in a slot was stored for the key it shows. */
  ghost predicate SlotLogged(w: World, i: nat)
    requires i < |w.slots|
  {
    forall f: Field :: IsMetadata(f) ==> Written((w.slots[i].dev, w.slots[i].ino), f, Value(w.slots[i], f)) in w.log
  }

  /** A slot that is live, or was, and that no insertion has begun to fill again. */
  ghost predicate Whole(w: World, i: nat)
    requires i < |w.slots|
  {
    && (CellOf(w.slots[i]).Live? || CellOf(w.slots[i]).Tomb?)
    && !(w.writer.Inserting? && w.writer.index == i && 0 < w.writer.stored < 7)
  }

  /** Such a slot shows what was stored for one key, also once it is a tombstone. */
  ghost predicate AllLogged(w: World) {
    && (forall i :: 0 <= i < |w.slots| && Whole(w, i) ==> SlotLogged(w, i))
    && (w.writer.Inserting? && w.writer.stored < 7 ==>
          forall q :: 0 <= q < w.writer.stored && IsMetadata(InsertOrder(q)) ==>
            Written(w.writer.key, InsertOrder(q), Value(w.writer.target, InsertOrder(q))) in w.log)
  }

  ghost predicate GotLogged(w: World, key: InodeKey, got: seq<nat>) {
    |got| <= TAKES && forall p :: 0 <= p < |got| ==> Written(key, TakeOrder(p), got[p]) in w.log
  }

  /** What the reader has matched and taken so far is what the slot it looks at holds. */
  ghost predicate ReaderTrue(w: World) {
    && HomesFit(w.home, |w.slots|)
    && match w.reader
       case AtOccupied(_, d) => d < |w.slots|
       case AtDev(key, d) => d < |w.slots| && w.slots[At(|w.slots|, w.home(key), d)].occupied == SLOT_LIVE
       case AtIno(key, d) =>
         && d < |w.slots| && w.slots[At(|w.slots|, w.home(key), d)].occupied == SLOT_LIVE
         && w.slots[At(|w.slots|, w.home(key), d)].dev == key.0
       case Taking(key, i, got) => HeldAt(w, key, i) && GotLogged(w, key, got)
       case Got(key, i, got) => HeldAt(w, key, i) && GotLogged(w, key, got) && |got| == TAKES
       case _ => true
  }

  /** The slot whose occupancy word the reader has found live. */
  function LookedAt(w: World): Option<nat>
    requires HomesFit(w.home, |w.slots|)
  {
    match w.reader
    case AtDev(key, d) => if d < |w.slots| then Some(At(|w.slots|, w.home(key), d)) else None
    case AtIno(key, d) => if d < |w.slots| then Some(At(|w.slots|, w.home(key), d)) else None
    case Taking(_, i, _) => Some(i)
    case Got(_, i, _) => Some(i)
    case _ => None
  }

  /** The writer's tombstone store hits the slot the reader is looking at. */
  ghost predicate Undercuts(w: World, v: World) {
    && HomesFit(w.home, |w.slots|)
    && w.writer.Removing? && WriterStores(w, v) && LookedAt(w) == Some(w.writer.index)
  }

  /** Live slots keep their key, except perhaps one, and the log only grows. */
  ghost predicate Settled(w: World, v: World, except: Option<nat>) {
    && v.home == w.home && |v.slots| == |w.slots| && v.reader == w.reader && w.log <= v.log
    && forall i: nat :: i < |w.slots| && CellOf(w.slots[i]).Live? && except != Some(i) ==> CellOf(v.slots[i]) == CellOf(w.slots[i])
  }

  lemma SettledKeepsReader(w: World, v: World, except: Option<nat>)
    requires ReaderTrue(w) && Settled(w, v, except) && (except.Some? ==> LookedAt(w) != except)
    ensures ReaderTrue(v)
  {
    match w.reader
    case AtDev(key, d) =>
      assert CellOf(w.slots[At(|w.slots|, w.home(key), d)]).Live?;
    case AtIno(key, d) =>
      assert CellOf(w.slots[At(|w.slots|, w.home(key), d)]).Live?;
    case _ =>
  }

  lemma UpdateStoreLogged(w: World, v: World)
    requires Good(w) && AllLogged(w) && w.writer.Updating? && WriterStores(w, v)
    ensures AllLogged(v) && Settled(w, v, None)
  {
    forall j | 0 <= j < |v.slots| && Whole(v, j)
      ensures SlotLogged(v, j)
    {
      assert Whole(w, j) && SlotLogged(w, j);
    }
  }

  lemma PublishedLogged(w: World, v: World)
    requires AllLogged(w) && w.writer.Inserting? && w.writer.stored == 6 && WriterStores(w, v)
    requires CellOf(w.writer.target) == Live(w.writer.key) && v.slots[w.writer.index] == w.writer.target
    ensures SlotLogged(v, w.writer.index)
  {
    forall f: Field | IsMetadata(f)
      ensures Written(w.writer.key, f, Value(w.writer.target, f)) in v.log
    {
      var q := if f.Uid? then 2 else if f.Gid? then 3 else if f.Mode? then 4 else 5;
      assert InsertOrder(q) == f;
    }
  }

  lemma InsertStoreLogged(w: World, v: World)
    requires Good(w) && AllLogged(w) && w.writer.Inserting? && WriterStores(w, v)
    ensures AllLogged(v) && Settled(w, v, None)
  {
    var k, i, p := w.writer.key, w.writer.index, w.writer.stored;
    if p < 7 {
      InsertKeepsInv(Cells(w.slots), w.home, k, i);
      assert Cells(w.slots)[i] == CellOf(w.slots[i]);
      if p == 6 {
        LastStorePublishes(w, v);
        PublishedLogged(w, v);
      }
    }
    forall j | 0 <= j < |v.slots| && Whole(v, j)
      ensures SlotLogged(v, j)
    {
      if j != i || p >= 7 {
        assert Whole(w, j) && SlotLogged(w, j);
      }
    }
  }

  lemma RemoveStoreLogged(w: World, v: World)
    requires Good(w) && AllLogged(w) && w.writer.Removing? && WriterStores(w, v)
    ensures AllLogged(v) && Settled(w, v, Some(w.writer.index))
  {
    forall j | 0 <= j < |v.slots| && Whole(v, j)
      ensures SlotLogged(v, j)
    {
      assert SlotLogged(w, j);
    }
  }

  /** Whatever is removed meanwhile, what a live slot shows was stored for its key. */
  lemma StepLogged(w: World, v: World)
    requires Good(w) && AllLogged(w) && Step(w, v, true)
    ensures Good(v) && AllLogged(v)
  {
    StepKeepsGood(w, v, true);
    if WriterStores(w, v) {
      match w.writer
      case Idle =>
      case Updating(_, _, _) => UpdateStoreLogged(w, v);
      case Inserting(_, _, _, _) => InsertStoreLogged(w, v);
      case Removing(_, _) => RemoveStoreLogged(w, v);
    } else {
      assert v.slots == w.slots && v.log == w.log;
      forall j | 0 <= j < |v.slots| && Whole(v, j)
        ensures SlotLogged(v, j)
      {
        assert SlotLogged(w, j);
      }
    }
  }

  lemma {:induction false} RunLogged(run: seq<World>, j: nat)
    requires IsRun(run, true) && Start(run[0]) && j < |run|
    ensures Good(run[j]) && AllLogged(run[j])
    decreases j
  {
    RunIsGood(run, true, 0);
    if j > 0 {
      RunLogged(run, j - 1);
      assert StepAt(run, j - 1, true);
      StepLogged(run[j - 1], run[j]);
    }
  }

  lemma StoreTrueExact(w: World, v: World)
    requires Good(w) && AllLogged(w) && ReaderTrue(w) && WriterStores(w, v)
    ensures ReaderTrue(v) <==> !Undercuts(w, v)
  {
    match w.writer
    case Idle =>
    case Updating(_, _, _) =>
      UpdateStoreLogged(w, v);
      SettledKeepsReader(w, v, None);
    case Inserting(_, _, _, _) =>
      InsertStoreLogged(w, v);
      SettledKeepsReader(w, v, None);
    case Removing(_, i) =>
      RemoveStoreLogged(w, v);
      if LookedAt(w) != Some(i) {
        SettledKeepsReader(w, v, Some(i));
      }
  }

  /** A slot found live is not one that an insertion has begun to fill. */
  lemma LiveIsWhole(w: World, i: nat)
    requires Good(w) && i < |w.slots| && CellOf(w.slots[i]).Live?
    ensures Whole(w, i)
  {
    if w.writer.Inserting? && w.writer.stored < 7 {
      InsertKeepsInv(Cells(w.slots), w.home, w.writer.key, w.writer.index);
      assert Cells(w.slots)[w.writer.index] == CellOf(w.slots[w.writer.index]);
    }
  }

  lemma ReaderStepTrue(w: World, v: World)
    requires Good(w) && AllLogged(w) && ReaderTrue(w) && ReaderSteps(w, v)
    ensures ReaderTrue(v)
  {
    if w.reader.Taking? {
      LiveIsWhole(w, w.reader.index);
      assert SlotLogged(w, w.reader.index);
    }
  }

  /** One step keeps the reader's view true exactly when it does not tombstone the slot looked at. */
  lemma StepTrueExact(w: World, v: World)
    requires Good(w) && AllLogged(w) && ReaderTrue(w) && Step(w, v, true)
    ensures ReaderTrue(v) <==> !Undercuts(w, v)
  {
    if WriterStores(w, v) {
      StoreTrueExact(w, v);
    } else if ReaderSteps(w, v) {
      ReaderStepTrue(w, v);
    } else if Restarts(w, v) {
      var key :| ReaderBegins(w, v, key);
      assert w.home(key) < |w.slots|;
    }
  }

  /** The reader's view is true in every state from start to j. */
  ghost predicate ViewTrue(run: seq<World>, start: nat, j: nat)
    requires start <= j < |run|
  {
    forall a :: start <= a <= j ==> ReaderTrue(run[a])
  }

  ghost predicate NeverUndercut(run: seq<World>, start: nat, j: nat)
    requires start <= j < |run|
  {
    forall a :: start <= a < j ==> !Undercuts(run[a], run[a + 1])
  }

  /**
   From the start of a search on, the reader's view stays true exactly as long as no tombstone
   is stored into the slot it is looking at. A reader that gets an entry that way is at a slot
   holding exactly its key, and each word of the uid, gid, mode and rdev it took was stored for
   that key, whatever else is inserted, removed or recycled meanwhile.
   */
  lemma TrueUntilUndercut(run: seq<World>, start: nat, j: nat, key: InodeKey)
    requires IsRun(run, true) && Start(run[0]) && start <= j < |run|
    requires run[start].reader == AtOccupied(key, 0)
    ensures ViewTrue(run, start, j) <==> NeverUndercut(run, start, j)
    ensures NeverUndercut(run, start, j) && run[j].reader.Got? ==>
              && HeldAt(run[j], run[j].reader.key, run[j].reader.index) && |run[j].reader.got| == TAKES
              && forall p :: 0 <= p < TAKES ==> Written(run[j].reader.key, TakeOrder(p), run[j].reader.got[p]) in run[j].log
  {
    RunLogged(run, start);
    assert run[start].home(key) < |run[start].slots|;
    ViewExact(run, start, j);
  }

  lemma ViewGrows(run: seq<World>, start: nat, j: nat)
    requires start < j < |run|
    ensures ViewTrue(run, start, j) <==> ViewTrue(run, start, j - 1) && ReaderTrue(run[j])
  {
  }

  lemma UndercutGrows(run: seq<World>, start: nat, j: nat)
    requires start < j < |run|
    ensures NeverUndercut(run, start, j) <==> NeverUndercut(run, start, j - 1) && !Undercuts(run[j - 1], run[j])
  {
  }

  lemma ViewStep(run: seq<World>, j: nat)
    requires IsRun(run, true) && 0 < j < |run| && Good(run[j - 1]) && AllLogged(run[j - 1])
    ensures ReaderTrue(run[j - 1]) ==> (ReaderTrue(run[j]) <==> !Undercuts(run[j - 1], run[j]))
  {
    assert StepAt(run, j - 1, true);
    if ReaderTrue(run[j - 1]) {
      StepTrueExact(run[j - 1], run[j]);
    }
  }

  lemma {:induction false} ViewExact(run: seq<World>, start: nat, j: nat)
    requires IsRun(run, true) && Start(run[0]) && start <= j < |run| && ReaderTrue(run[start])
    ensures ViewTrue(run, start, j) <==> NeverUndercut(run, start, j)
    decreases j
  {
    if j > start {
      ViewExact(run, start, j - 1);
      ViewGrows(run, start, j);
      UndercutGrows(run, start, j);
      RunLogged(run, j - 1);
      ViewStep(run, j);
    }
  }

  // ----- Only an insertion into the slot under a reader tears what it takes -----

  /** The next step is an insertion's store into the slot that the reader has found live and still reads. */
  ghost predicate Refills(w: World, v: World) {
    && HomesFit(w.home, |w.slots|) && !w.reader.Got?
    && w.writer.Inserting? && w.writer.stored < 7 && WriterStores(w, v) && LookedAt(w) == Some(w.writer.index)
  }

  /** What the reader has matched and taken belongs together, whether or not the slot is still live. */
  ghost predicate Consistent(w: World) {
    && HomesFit(w.home, |w.slots|)
    && match w.reader
       case AtOccupied(_, d) => d < |w.slots|
       case AtDev(key, d) => d < |w.slots| && Whole(w, At(|w.slots|, w.home(key), d))
       case AtIno(key, d) =>
         && d < |w.slots| && Whole(w, At(|w.slots|, w.home(key), d))
         && w.slots[At(|w.slots|, w.home(key), d)].dev == key.0
       case Taking(key, i, got) =>
         && i < |w.slots| && Whole(w, i) && (w.slots[i].dev, w.slots[i].ino) == key && GotLogged(w, key, got)
       case Got(key, _, got) => GotLogged(w, key, got) && |got| == TAKES
       case _ => true
  }

  /** A slot keeps its key and stays whole, and the log only grows. */
  ghost predicate Spared(w: World, v: World, i: nat)
    requires i < |w.slots|
  {
    && v.home == w.home && |v.slots| == |w.slots| && v.reader == w.reader && w.log <= v.log
    && (Whole(w, i) ==> Whole(v, i) && v.slots[i].dev == w.slots[i].dev && v.slots[i].ino == w.slots[i].ino)
  }

  lemma StoreSpares(w: World, v: World, i: nat)
    requires Good(w) && WriterStores(w, v) && i < |w.slots|
    requires w.writer.Inserting? && w.writer.stored < 7 ==> w.writer.index != i
    ensures Spared(w, v, i)
  {
  }

  lemma StoreConsistent(w: World, v: World)
    requires Good(w) && Consistent(w) && WriterStores(w, v) && !Refills(w, v)
    ensures Consistent(v)
  {
    if LookedAt(w).Some? && !w.reader.Got? {
      StoreSpares(w, v, LookedAt(w).value);
    } else {
      assert w.log <= v.log && v.reader == w.reader;
    }
  }

  lemma ReaderStepConsistent(w: World, v: World)
    requires Good(w) && AllLogged(w) && Consistent(w) && ReaderSteps(w, v)
    ensures Consistent(v)
  {
    match w.reader
    case AtOccupied(key, d) =>
      var i := At(|w.slots|, w.home(key), d);
      if CellOf(w.slots[i]).Live? {
        LiveIsWhole(w, i);
      }
    case Taking(_, i, _) =>
      assert SlotLogged(w, i);
    case _ =>
  }

  lemma StepConsistent(w: World, v: World)
    requires Good(w) && AllLogged(w) && Consistent(w) && Step(w, v, true) && !Refills(w, v)
    ensures Consistent(v)
  {
    if WriterStores(w, v) {
      StoreConsistent(w, v);
    } else if ReaderSteps(w, v) {
      ReaderStepConsistent(w, v);
    } else if Restarts(w, v) {
      var key :| ReaderBegins(w, v, key);
      assert w.home(key) < |w.slots|;
    } else {
      var op :| WriterBegins(w, v, op);
    }
  }

  ghost predicate NeverRefilled(run: seq<World>, start: nat, j: nat)
    requires start <= j < |run|
  {
    forall a :: start <= a < j ==> !Refills(run[a], run[a + 1])
  }

  /**
   A tombstone alone does no harm: as long as no insertion stores into the slot that a reader
   has found live and still reads, whatever it gets was stored for the key it looks for.
   */
  lemma {:induction false} OnlyRefillsTear(run: seq<World>, start: nat, j: nat, key: InodeKey)
    requires IsRun(run, true) && Start(run[0]) && start <= j < |run|
    requires run[start].reader == AtOccupied(key, 0) && NeverRefilled(run, start, j)
    ensures Consistent(run[j])
    ensures run[j].reader.Got? ==>
              && |run[j].reader.got| == TAKES
              && forall p :: 0 <= p < TAKES ==> Written(run[j].reader.key, TakeOrder(p), run[j].reader.got[p]) in run[j].log
    decreases j
  {
    if j > start {
      OnlyRefillsTear(run, start, j - 1, key);
      RunLogged(run, j - 1);
      RefillStep(run, j);
    } else {
      RunLogged(run, start);
      assert run[start].home(key) < |run[start].slots|;
    }
  }

  lemma RefillStep(run: seq<World>, j: nat)
    requires IsRun(run, true) && 0 < j < |run| && Good(run[j - 1]) && AllLogged(run[j - 1]) && Consistent(run[j - 1])
    requires !Refills(run[j - 1], run[j])
    ensures Consistent(run[j])
  {
    assert StepAt(run, j - 1, true);
    StepConsistent(run[j - 1], run[j]);
  }

  lemma {:induction false} NeverRemoving(run: seq<World>, j: nat)
    requires IsRun(run, false) && Start(run[0]) && j < |run|
    ensures IsRun(run, true) && !run[j].writer.Removing?
    decreases j
  {
    forall a | 0 <= a < |run| - 1
      ensures StepAt(run, a, true)
    {
      assert StepAt(run, a, false);
    }
    if j > 0 {
      NeverRemoving(run, j - 1);
      assert StepAt(run, j - 1, false);
    }
  }

  /**
   While nothing is removed, a reader that gets an entry is at a slot holding exactly its key,
   and each word of the uid, gid, mode and rdev it took was stored for that key.
   */
  lemma InsertOnlyReadersAreHonest(run: seq<World>, j: nat)
    requires IsRun(run, false) && Start(run[0]) && j < |run|
    ensures run[j].reader.Got? ==>
              && HeldAt(run[j], run[j].reader.key, run[j].reader.index) && |run[j].reader.got| == TAKES
              && forall p :: 0 <= p < TAKES ==> Written(run[j].reader.key, TakeOrder(p), run[j].reader.got[p]) in run[j].log
  {
    forall a | 0 <= a < |run|
      ensures IsRun(run, true) && !run[a].writer.Removing?
    {
      NeverRemoving(run, a);
    }
    NeverRemoving(run, 0);
    ViewExact(run, 0, j);
    assert ReaderTrue(run[j]);
  }

  // ----- A tombstone under the reader, and it may get another key's -----

  lemma TakeAll(run: seq<World>) returns (longer: seq<World>)
    requires IsRun(run, true)
    requires
      var w := run[|run| - 1];
      HomesFit(w.home, |w.slots|) && w.reader.Taking? && w.reader.index < |w.slots| && |w.reader.got| <= TAKES
    ensures IsRun(longer, true) && longer[0] == run[0]
    ensures
      var w, v := run[|run| - 1], longer[|longer| - 1];
      v.log == w.log && v.reader.Got? && v.reader.key == w.reader.key
    decreases TAKES - |run[|run| - 1].reader.got|
  {
    var w := run[|run| - 1];
    var v := w.(reader := ReaderNext(w));
    assert ReaderSteps(w, v);
    Extend(run, v);
    longer := run + [v];
    if |w.reader.got| < TAKES {
      longer := TakeAll(longer);
    }
  }

  lemma ProbeTaken(w: World, a: InodeKey, c: InodeKey)
    requires Good(w) && |w.slots| >= 2 && w.home(a) == w.home(c)
    requires HeldAt(w, a, w.home(a)) && w.slots[At(|w.slots|, w.home(a), 1)].occupied == SLOT_EMPTY
    ensures ProbeOf(Cells(w.slots), w.home, a) == Found(w.home(a))
    ensures ProbeOf(Cells(w.slots[w.home(a) := w.slots[w.home(a)].(occupied := SLOT_TOMBSTONE)]), w.home, c) == Vacant(w.home(a))
  {
    var n, h := |w.slots|, w.home(a);
    var cells := Cells(w.slots[h := w.slots[h].(occupied := SLOT_TOMBSTONE)]);
    assert At(n, h, 0) == h && At(n, h, 1) != h;
    assert cells[h] == Tomb && cells[At(n, h, 1)] == Empty;
    assert ProbeFrom(cells, c, h, 1, Some(h)) == Vacant(h);
  }

  /**
   A reader matches the device of the first key, waits while its slot is tombstoned and taken
   for the second key, matches the inode number of that one, and gets an entry for the third.
   */
  lemma Tear(run: seq<World>, a: InodeKey, b: InodeKey, c: InodeKey) returns (longer: seq<World>)
    requires IsRun(run, true)
    requires
      var w := run[|run| - 1];
      && Good(w) && w.writer.Idle? && w.reader.Resting? && |w.slots| >= 2 && w.home(a) == w.home(b) == w.home(c)
      && HeldAt(w, a, w.home(b)) && w.slots[At(|w.slots|, w.home(b), 1)].occupied == SLOT_EMPTY
      && forall e :: e in w.log ==> e.key != b
    requires a.0 == b.0 && a.1 != b.1 && c.0 != b.0 && c.1 == b.1
    ensures IsRun(longer, true) && longer[0] == run[0]
    ensures
      var v := longer[|longer| - 1];
      v.reader.Got? && v.reader.key == b && forall e :: e in v.log ==> e.key != b
  {
    var w := run[|run| - 1];
    var h := w.home(b);
    // The reader finds the slot live, with the device it wants.
    var w1 := w.(reader := AtOccupied(b, 0));
    assert ReaderBegins(w, w1, b);
    var w2 := w1.(reader := AtDev(b, 0));
    assert ReaderSteps(w1, w2);
    var w3 := w2.(reader := AtIno(b, 0));
    assert ReaderSteps(w2, w3);
    // The writer removes the first key and starts to insert the second.
    ProbeTaken(w3, a, c);
    var w4 := w3.(writer := Removing(a, h));
    assert WriterBegins(w3, w4, Op.Remove(a));
    var w5 := w4.(slots := w4.slots[h := w4.slots[h].(occupied := SLOT_TOMBSTONE)], writer := Idle);
    assert WriterStores(w4, w5);
    var op := Chown(c, 0, 0, 0, 0);
    var target := TargetFor(op);
    var w6 := w5.(writer := Inserting(c, h, target, 0));
    assert WriterBegins(w5, w6, op);
    var w7 := w6.(slots := w6.slots[h := With(w6.slots[h], Dev, c.0)], writer := Inserting(c, h, target, 1));
    assert WriterStores(w6, w7);
    var w8 := w7.(slots := w7.slots[h := With(w7.slots[h], Ino, c.1)], writer := Inserting(c, h, target, 2));
    assert WriterStores(w7, w8);
    // The inode number of the second key is the one the reader wants.
    var w9 := w8.(reader := Taking(b, h, []));
    assert ReaderSteps(w8, w9);
    longer := ExtendAll(run, [w1, w2, w3, w4, w5, w6, w7, w8, w9]);
    longer := TakeAll(longer);
  }

  lemma {:induction false} ExtendAll(run: seq<World>, more: seq<World>) returns (longer: seq<World>)
    requires IsRun(run, true) && more != []
    requires Step(run[|run| - 1], more[0], true)
    requires forall j :: 0 <= j < |more| - 1 ==> Step(more[j], more[j + 1], true)
    ensures IsRun(longer, true) && longer[0] == run[0] && longer[|longer| - 1] == more[|more| - 1]
    decreases |more|
  {
    longer := run + [more[0]];
    Extend(run, more[0]);
    if |more| > 1 {
      forall j | 0 <= j < |more[1..]| - 1
        ensures Step(more[1..][j], more[1..][j + 1], true)
      {
        assert more[1..][j] == more[j + 1] && more[1..][j + 1] == more[j + 2];
      }
      longer := ExtendAll(longer, more[1..]);
    }
  }

  /**
   With removals a reader may get an entry for a key that nobody ever wrote: in a fresh table
   of every size that can be created, three keys of one bucket, and a run that starts with
   inserting the first.
   */
  lemma RemovalsTear(n: nat) returns (run: seq<World>)
    requires IsSlotCount(n)
    ensures IsRun(run, true) && Start(run[0]) && n > 0 && |run[0].slots| == n && run[0].home == BucketIn(n)
    ensures
      var v := run[|run| - 1];
      v.reader.Got? && v.reader.key == (0, 0) && forall e :: e in v.log ==> e.key != (0, 0)
  {
    var a: InodeKey, b: InodeKey, c: InodeKey := OneBucket(n);
    var w := World(BucketIn(n), seq(n, _ => Slot(SLOT_EMPTY, 0, 0, 0, 0, 0, 0)), Idle, Resting, {});
    BucketsFit(n);
    assert Start(w);
    run := [w];
    RunIsGood(run, true, 0);
    var op := Chown(a, 0, 0, 0, 0);
    var h := w.home(a);
    assert At(n, h, 0) == h && Cells(w.slots)[h] == Empty;
    assert ProbeOf(Cells(w.slots), w.home, a) == Vacant(h);
    var w1 := w.(writer := Inserting(a, h, TargetFor(op), 0));
    assert WriterBegins(w, w1, op);
    BeginKeepsGood(w, w1, op);
    Extend(run, w1);
    run := FinishInsert(run + [w1], h);
    run := Tear(run, a, b, c);
  }

  lemma OneBucket(n: nat) returns (a: InodeKey, b: InodeKey, c: InodeKey)
    requires IsSlotCount(n)
    ensures n >= 2 && a == (0, n) && b == (0, 0) && c == (n, 0)
    ensures BucketIn(n)(a) == BucketIn(n)(b) == BucketIn(n)(c)
  {
    var k: nat :| 10 <= k <= 31 && n == Pow2(k);
    Pow2Landmarks();
    Pow2Grows(10, k);
    Pow2Grows(k, 31);
    a, b, c := (0, n), (0, 0), (n, 0);
    SameBucket(k, 0, n, 0);
    HashLowBits(k, 0, 0);
    HashLowBits(k, n, 0);
  }
}
