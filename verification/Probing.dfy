/**
 Linear probing with tombstones, seen only through which key each slot shows.

 A ring of n cells and a home position per key are all that the search depends on; the
 bytes behind a cell do not matter here.
 */
module Probing {
  import opened Base

  /** What a probe can see of one slot. Other stands for an occupancy word no writer stores. */
  datatype Cell = Empty | Tomb | Live(key: InodeKey) | Other

  /** Outcome of a search. */
  datatype Probe = Found(index: nat) | Vacant(index: nat) | Full

  type Home = InodeKey -> nat

  ghost predicate HomesFit(home: Home, n: nat) {
    forall k :: home(k) < n
  }

  // ----- Positions on the ring -----

  /** The slot d steps after h. */
  function At(n: nat, h: nat, d: nat): (i: nat)
    requires h < n && d <= n
    ensures i < n
  {
    if h + d < n then h + d else h + d - n
  }

  /** The number of forward steps from a to b. */
  function Dist(n: nat, a: nat, b: nat): (d: nat)
    requires a < n && b < n
    ensures d < n
  {
    if a <= b then b - a else b + n - a
  }

  /** The first n steps from any start visit every slot exactly once. */
  lemma VisitsEachOnce(n: nat, h: nat, i: nat)
    requires h < n && i < n
    ensures forall d :: 0 <= d < n ==> (At(n, h, d) == i <==> d == Dist(n, h, i))
  {
  }

  lemma NextSlot(n: nat, h: nat, d: nat)
    requires h < n && d < n
    ensures (At(n, h, d) + 1) % n == At(n, h, d + 1)
  {
  }

  // ----- The search -----

  /**
   The rest of a search that has taken d steps from h and remembers an earlier tombstone.
   The bound on steps is checked first, so a remembered tombstone is lost when it is reached.
   */
  function ProbeFrom(cells: seq<Cell>, key: InodeKey, h: nat, d: nat, reuse: Option<nat>): (r: Probe)
    requires h < |cells| && d <= |cells| && (reuse.Some? ==> reuse.value < |cells|)
    ensures r.Full? || r.index < |cells|
    decreases |cells| - d
  {
    if d == |cells| then Full
    else
      var i := At(|cells|, h, d);
      match cells[i]
      case Empty => Vacant(reuse.GetOr(i))
      case Live(k) =>
        if k == key then Found(i) else ProbeFrom(cells, key, h, d + 1, reuse)
      case Tomb =>
        ProbeFrom(cells, key, h, d + 1, if reuse.None? then Some(i) else reuse)
      case Other => ProbeFrom(cells, key, h, d + 1, reuse)
  }

  function ProbeOf(cells: seq<Cell>, home: Home, key: InodeKey): (r: Probe)
    requires home(key) < |cells|
    ensures r.Full? || r.index < |cells|
  {
    ProbeFrom(cells, key, home(key), 0, None)
  }

  /** The first d slots from h are neither empty nor hold the key. */
  ghost predicate Clear(cells: seq<Cell>, key: InodeKey, h: nat, d: nat)
    requires h < |cells| && d <= |cells|
  {
    forall j :: 0 <= j < d ==>
      cells[At(|cells|, h, j)] != Empty && cells[At(|cells|, h, j)] != Live(key)
  }

  /** The first tombstone among the first d slots from h, if there is one. */
  ghost predicate FirstTomb(cells: seq<Cell>, h: nat, d: nat, reuse: Option<nat>)
    requires h < |cells| && d <= |cells|
  {
    match reuse
    case None => forall j :: 0 <= j < d ==> cells[At(|cells|, h, j)] != Tomb
    case Some(i) =>
      i < |cells| && cells[i] == Tomb && Dist(|cells|, h, i) < d
      && forall j :: 0 <= j < Dist(|cells|, h, i) ==> cells[At(|cells|, h, j)] != Tomb
  }

  /** The slot an insertion of the key takes when the first empty slot is e. */
  ghost predicate InsertionPoint(cells: seq<Cell>, key: InodeKey, h: nat, e: nat, i: nat)
    requires h < |cells|
  {
    && e < |cells| && i < |cells| && cells[e] == Empty
    && Clear(cells, key, h, Dist(|cells|, h, e))
    && Dist(|cells|, h, i) <= Dist(|cells|, h, e)
    && (i == e || cells[i] == Tomb)
    && (forall j :: 0 <= j < Dist(|cells|, h, i) ==> cells[At(|cells|, h, j)] != Tomb)
  }

  /** What each outcome of a search says about the ring. */
  ghost predicate Outcome(cells: seq<Cell>, key: InodeKey, h: nat, r: Probe)
    requires h < |cells|
  {
    match r
    case Found(i) =>
      i < |cells| && cells[i] == Live(key) && Clear(cells, key, h, Dist(|cells|, h, i))
    case Vacant(i) => exists e :: InsertionPoint(cells, key, h, e, i)
    case Full => Clear(cells, key, h, |cells|)
  }

  lemma {:induction false} ProbeFromOutcome(cells: seq<Cell>, key: InodeKey, h: nat, d: nat, reuse: Option<nat>)
    requires h < |cells| && d <= |cells|
    requires Clear(cells, key, h, d) && FirstTomb(cells, h, d, reuse)
    ensures Outcome(cells, key, h, ProbeFrom(cells, key, h, d, reuse))
    decreases |cells| - d
  {
    if d < |cells| {
      var n := |cells|;
      var i := At(n, h, d);
      VisitsEachOnce(n, h, i);
      match cells[i]
      case Empty =>
        var at := reuse.GetOr(i);
        assert InsertionPoint(cells, key, h, i, at);
      case Live(k) =>
        if k != key {
          ProbeFromOutcome(cells, key, h, d + 1, reuse);
        }
      case Tomb =>
        ProbeFromOutcome(cells, key, h, d + 1, if reuse.None? then Some(i) else reuse);
      case Other =>
        ProbeFromOutcome(cells, key, h, d + 1, reuse);
    }
  }

  lemma ProbeOutcome(cells: seq<Cell>, home: Home, key: InodeKey)
    requires home(key) < |cells|
    ensures Outcome(cells, key, home(key), ProbeOf(cells, home, key))
  {
    ProbeFromOutcome(cells, key, home(key), 0, None);
  }

  lemma FoundMatches(cells: seq<Cell>, home: Home, key: InodeKey, i: nat)
    requires home(key) < |cells| && ProbeOf(cells, home, key) == Found(i)
    ensures cells[i] == Live(key)
  {
    ProbeOutcome(cells, home, key);
  }

  // ----- The table invariant -----

  ghost predicate DistinctKeys(cells: seq<Cell>) {
    forall i, j :: 0 <= i < |cells| && 0 <= j < |cells| && cells[i].Live? && cells[i] == cells[j] ==> i == j
  }

  /** No empty slot lies on the way from h to the slot d steps further. */
  ghost predicate OpenPath(cells: seq<Cell>, h: nat, d: nat)
    requires h < |cells| && d <= |cells|
  {
    forall j :: 0 <= j < d ==> cells[At(|cells|, h, j)] != Empty
  }

  ghost predicate OpenPaths(cells: seq<Cell>, home: Home)
    requires HomesFit(home, |cells|)
  {
    forall i :: 0 <= i < |cells| && cells[i].Live? ==>
      OpenPath(cells, home(cells[i].key), Dist(|cells|, home(cells[i].key), i))
  }

  /** Live keys are distinct and each can be reached from its home without meeting an empty slot. */
  ghost predicate Inv(cells: seq<Cell>, home: Home) {
    HomesFit(home, |cells|) && DistinctKeys(cells) && OpenPaths(cells, home)
  }

  ghost predicate Holds(cells: seq<Cell>, key: InodeKey) {
    exists i :: 0 <= i < |cells| && cells[i] == Live(key)
  }

  ghost predicate HasEmpty(cells: seq<Cell>) {
    exists i :: 0 <= i < |cells| && cells[i] == Empty
  }

  lemma NoInsertionPastLive(cells: seq<Cell>, key: InodeKey, h: nat, i: nat, e: nat, j: nat)
    requires h < |cells| && i < |cells| && cells[i] == Live(key)
    requires OpenPath(cells, h, Dist(|cells|, h, i))
    ensures !InsertionPoint(cells, key, h, e, j)
  {
    var n := |cells|;
    assert At(n, h, Dist(n, h, i)) == i;
    if e < n {
      assert At(n, h, Dist(n, h, e)) == e;
    }
  }

  /** A live key is found where it is, and nothing else is ever found. */
  lemma FoundExact(cells: seq<Cell>, home: Home, key: InodeKey, i: nat)
    requires Inv(cells, home)
    ensures ProbeOf(cells, home, key) == Found(i) <==> i < |cells| && cells[i] == Live(key)
  {
    var n, h, r := |cells|, home(key), ProbeOf(cells, home, key);
    ProbeOutcome(cells, home, key);
    if i < n && cells[i] == Live(key) {
      assert At(n, h, Dist(n, h, i)) == i;
      assert OpenPath(cells, h, Dist(n, h, i));
      forall e, j
        ensures !InsertionPoint(cells, key, h, e, j)
      {
        NoInsertionPastLive(cells, key, h, i, e, j);
      }
    }
  }

  /** The search reports a full table exactly when the key is absent and no slot is empty. */
  lemma FullExact(cells: seq<Cell>, home: Home, key: InodeKey)
    requires Inv(cells, home)
    ensures ProbeOf(cells, home, key).Full? <==> !Holds(cells, key) && !HasEmpty(cells)
  {
    var n, h, r := |cells|, home(key), ProbeOf(cells, home, key);
    ProbeOutcome(cells, home, key);
    match r
    case Found(i) =>
    case Vacant(i) =>
      var e :| InsertionPoint(cells, key, h, e, i);
    case Full =>
      forall i | 0 <= i < n
        ensures cells[i] != Empty && cells[i] != Live(key)
      {
        VisitsEachOnce(n, h, i);
        assert At(n, h, Dist(n, h, i)) == i;
      }
  }

  /**
   Otherwise the key is absent and some slot is empty; the slot offered is the first tombstone
   before the first empty slot, or that empty slot when there is no such tombstone.
   */
  lemma VacantExact(cells: seq<Cell>, home: Home, key: InodeKey, i: nat)
    requires Inv(cells, home)
    ensures ProbeOf(cells, home, key) == Vacant(i)
            <==> !Holds(cells, key) && exists e :: InsertionPoint(cells, key, home(key), e, i)
  {
    var n, h, r := |cells|, home(key), ProbeOf(cells, home, key);
    ProbeOutcome(cells, home, key);
    forall j | 0 <= j < n && cells[j] == Live(key)
      ensures r == Found(j)
    {
      FoundExact(cells, home, key, j);
    }
    FullExact(cells, home, key);
    forall e | InsertionPoint(cells, key, h, e, i) && !Holds(cells, key)
      ensures r == Vacant(i)
    {
      assert r.Vacant?;
      var f :| InsertionPoint(cells, key, h, f, r.index);
      SameInsertionPoint(cells, key, h, e, i, f, r.index);
    }
  }

  lemma SameInsertionPoint(cells: seq<Cell>, key: InodeKey, h: nat, e: nat, i: nat, f: nat, j: nat)
    requires h < |cells|
    requires InsertionPoint(cells, key, h, e, i) && InsertionPoint(cells, key, h, f, j)
    ensures e == f && i == j
  {
    var n := |cells|;
    VisitsEachOnce(n, h, e);
    VisitsEachOnce(n, h, f);
    VisitsEachOnce(n, h, i);
    VisitsEachOnce(n, h, j);
    assert At(n, h, Dist(n, h, e)) == e && At(n, h, Dist(n, h, f)) == f;
    assert At(n, h, Dist(n, h, i)) == i && At(n, h, Dist(n, h, j)) == j;
  }

  // ----- What keeps the invariant -----

  /** Publishing a key at the slot its own search offered keeps the invariant. */
  lemma InsertKeepsInv(cells: seq<Cell>, home: Home, key: InodeKey, i: nat)
    requires Inv(cells, home) && ProbeOf(cells, home, key) == Vacant(i)
    ensures i < |cells| && cells[i] in {Empty, Tomb} && Inv(cells[i := Live(key)], home)
  {
    var n, h := |cells|, home(key);
    VacantExact(cells, home, key, i);
    var e :| InsertionPoint(cells, key, h, e, i);
    var after := cells[i := Live(key)];
    forall j | 0 <= j < n && after[j].Live?
      ensures OpenPath(after, home(after[j].key), Dist(n, home(after[j].key), j))
    {
      if j != i {
        assert OpenPath(cells, home(cells[j].key), Dist(n, home(cells[j].key), j));
      }
    }
  }

  /** Marking a live slot as a tombstone keeps the invariant. */
  lemma RemoveKeepsInv(cells: seq<Cell>, home: Home, i: nat)
    requires Inv(cells, home) && i < |cells| && cells[i].Live?
    ensures Inv(cells[i := Tomb], home)
  {
  }

  /** Some live key is reached by passing over slot i. */
  ghost predicate PassedOver(cells: seq<Cell>, home: Home, i: nat)
    requires HomesFit(home, |cells|) && i < |cells|
  {
    exists j :: 0 <= j < |cells| && cells[j].Live? && Dist(|cells|, home(cells[j].key), i) < Dist(|cells|, home(cells[j].key), j)
  }

  /**
   Why removal leaves a tombstone: clearing a live slot straight to empty keeps the invariant
   exactly when no live key is reached by passing over it.
   */
  lemma ClearingNeedsNobodyBehind(cells: seq<Cell>, home: Home, i: nat)
    requires Inv(cells, home) && i < |cells| && cells[i].Live?
    ensures Inv(cells[i := Empty], home) <==> !PassedOver(cells, home, i)
  {
    var n := |cells|;
    var after := cells[i := Empty];
    forall j | 0 <= j < n && after[j].Live?
      ensures OpenPath(after, home(after[j].key), Dist(n, home(after[j].key), j))
              <==> Dist(n, home(cells[j].key), i) >= Dist(n, home(cells[j].key), j)
    {
      var h := home(cells[j].key);
      VisitsEachOnce(n, h, i);
      assert OpenPath(cells, h, Dist(n, h, j));
      assert At(n, h, Dist(n, h, i)) == i;
    }
  }
}
