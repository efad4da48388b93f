/**
 How many slots a history of insertions and removals can ever consume.

 The ring is compared with an ideal ring holding every key ever inserted and never removing
 any. For each slot p, count the keys whose probe path runs into p from the slot before it
 (the "flow" into p). Flow obeys a conservation law on any ring: what leaves p is what enters
 it, plus the keys at home in p, minus one if p is taken. The law makes "the actual flow never
 exceeds the ideal flow" an invariant, and an insertion that consumes an empty slot carries
 flow into it, so that slot is taken in the ideal ring as well.
 */
module Capacity {
  import opened Base
  import opened Probing

  /** Where each key of a set sits on the ring. */
  type Placement = map<InodeKey, nat>

  ghost predicate Placed(n: nat, m: Placement) {
    && (forall k :: k in m ==> m[k] < n)
    && (forall k, l :: k in m && l in m && m[k] == m[l] ==> k == l)
  }

  ghost predicate Taken(m: Placement, p: nat) {
    exists k :: k in m && m[k] == p
  }

  /** A path from h to s enters slot p from the slot before it. */
  ghost predicate Enters(n: nat, h: nat, s: nat, p: nat)
    requires h < n && s < n && p < n
  {
    0 < Dist(n, h, p) <= Dist(n, h, s)
  }

  ghost function Flow(n: nat, home: Home, m: Placement, p: nat): set<InodeKey>
    requires HomesFit(home, n) && Placed(n, m) && p < n
  {
    set k | k in m && Enters(n, home(k), m[k], p)
  }

  ghost function AtHome(home: Home, m: Placement, p: nat): set<InodeKey> {
    set k | k in m && home(k) == p
  }

  /** A path that starts at or enters p either ends there or goes on into the next slot. */
  lemma StopsOrGoesOn(n: nat, h: nat, s: nat, p: nat)
    requires h < n && s < n && p < n
    ensures Enters(n, h, s, p) || h == p <==> Enters(n, h, s, At(n, p, 1)) || s == p
    ensures !(Enters(n, h, s, p) && h == p)
    ensures !(Enters(n, h, s, At(n, p, 1)) && s == p)
  {
  }

  ghost function StopsAt(m: Placement, p: nat): set<InodeKey> {
    set k | k in m && m[k] == p
  }

  lemma OneStops(n: nat, m: Placement, p: nat)
    requires Placed(n, m)
    ensures |StopsAt(m, p)| == if Taken(m, p) then 1 else 0
  {
    if Taken(m, p) {
      var k :| k in m && m[k] == p;
      assert StopsAt(m, p) == {k};
    } else {
      assert StopsAt(m, p) == {};
    }
  }

  /** The keys that come to p, entering or at home there, are those that go on and those that stop. */
  lemma ComingAndGoing(n: nat, home: Home, m: Placement, p: nat)
    requires HomesFit(home, n) && Placed(n, m) && p < n
    ensures Flow(n, home, m, p) + AtHome(home, m, p) == Flow(n, home, m, At(n, p, 1)) + StopsAt(m, p)
    ensures Flow(n, home, m, p) !! AtHome(home, m, p)
    ensures Flow(n, home, m, At(n, p, 1)) !! StopsAt(m, p)
  {
    var q := At(n, p, 1);
    forall k | k in m
      ensures (Enters(n, home(k), m[k], p) || home(k) == p) <==> (Enters(n, home(k), m[k], q) || m[k] == p)
      ensures !(Enters(n, home(k), m[k], p) && home(k) == p)
      ensures !(Enters(n, home(k), m[k], q) && m[k] == p)
    {
      StopsOrGoesOn(n, home(k), m[k], p);
    }
  }

  lemma DisjointSizes<T>(a: set<T>, b: set<T>, c: set<T>, d: set<T>)
    requires a + b == c + d && a !! b && c !! d
    ensures |a| + |b| == |c| + |d|
  {
    assert |a + b| == |a| + |b| && |c + d| == |c| + |d|;
  }

  /** Conservation: flow out of p = flow into p + keys at home in p - one if p is taken. */
  lemma Conservation(n: nat, home: Home, m: Placement, p: nat)
    requires HomesFit(home, n) && Placed(n, m) && p < n
    ensures |Flow(n, home, m, At(n, p, 1))| + (if Taken(m, p) then 1 else 0)
         == |Flow(n, home, m, p)| + |AtHome(home, m, p)|
  {
    ComingAndGoing(n, home, m, p);
    OneStops(n, m, p);
    DisjointSizes(Flow(n, home, m, p), AtHome(home, m, p), Flow(n, home, m, At(n, p, 1)), StopsAt(m, p));
  }

  // ----- The actual ring as a placement -----

  /** The placement m lists exactly the live cells. */
  ghost predicate Describes(m: Placement, cells: seq<Cell>) {
    && (forall k :: k in m ==> m[k] < |cells| && cells[m[k]] == Live(k))
    && (forall i :: 0 <= i < |cells| && cells[i].Live? ==> cells[i].key in m && m[cells[i].key] == i)
  }

  // ----- The ideal ring -----

  /** Every slot from h up to, not including, the slot d steps further is taken. */
  ghost predicate TakenRun(n: nat, m: Placement, h: nat, d: nat)
    requires h < n && d <= n
  {
    forall j :: 0 <= j < d ==> Taken(m, At(n, h, j))
  }

  /** A ring built by insertions alone: each key's path to its slot is taken throughout. */
  ghost predicate Ideal(n: nat, home: Home, m: Placement) {
    && HomesFit(home, n) && Placed(n, m)
    && (forall k :: k in m ==> TakenRun(n, m, home(k), Dist(n, home(k), m[k])))
  }

  ghost predicate FlowBelow(n: nat, home: Home, m: Placement, ideal: Placement)
    requires HomesFit(home, n) && Placed(n, m) && Placed(n, ideal)
  {
    forall p :: 0 <= p < n ==> |Flow(n, home, m, p)| <= |Flow(n, home, ideal, p)|
  }

  /** The actual ring, listed by m, stays within the ideal ring of every key ever inserted. */
  ghost predicate Within(cells: seq<Cell>, home: Home, m: Placement, ideal: Placement) {
    && Inv(cells, home)
    && Describes(m, cells)
    && Ideal(|cells|, home, ideal)
    && (forall i :: 0 <= i < |cells| ==> cells[i] != Other)
    && m.Keys <= ideal.Keys
    && (forall i :: 0 <= i < |cells| && cells[i] != Empty ==> Taken(ideal, i))
    && FlowBelow(|cells|, home, m, ideal)
  }

  // ----- Extending the ideal ring -----

  lemma {:induction false} TakenBound(m: Placement, s: set<nat>)
    requires forall i :: i in s ==> Taken(m, i)
    ensures |s| <= |m.Keys|
    decreases |s|
  {
    if s != {} {
      var i :| i in s;
      var k :| k in m && m[k] == i;
      var rest := s - {i};
      var m' := m - {k};
      forall j | j in rest
        ensures Taken(m', j)
      {
        var l :| l in m && m[l] == j;
        assert l in m' && m'[l] == j;
      }
      TakenBound(m', rest);
      assert m'.Keys == m.Keys - {k};
    }
  }

  ghost function Slots(n: nat): (s: set<nat>)
    ensures |s| == n
    ensures forall i :: i in s <==> 0 <= i < n
  {
    if n == 0 then {} else Slots(n - 1) + {n - 1}
  }

  /** With fewer keys than slots, a run of taken slots from h ends somewhere. */
  lemma FirstFree(n: nat, m: Placement, h: nat) returns (d: nat)
    requires Placed(n, m) && |m.Keys| < n && h < n
    ensures d < n && TakenRun(n, m, h, d) && !Taken(m, At(n, h, d))
  {
    if TakenRun(n, m, h, n) {
      forall i | i in Slots(n)
        ensures Taken(m, i)
      {
        assert At(n, h, Dist(n, h, i)) == i;
      }
      TakenBound(m, Slots(n));
    }
    d := 0;
    while Taken(m, At(n, h, d))
      invariant d < n && TakenRun(n, m, h, d)
      decreases n - d
    {
      d := d + 1;
      if d == n {
        assert false;
      }
    }
  }

  /** A new key takes the first free slot on its path. */
  lemma AddToIdeal(n: nat, home: Home, ideal: Placement, k: InodeKey, d: nat)
    requires Ideal(n, home, ideal) && k !in ideal && d < n
    requires TakenRun(n, ideal, home(k), d) && !Taken(ideal, At(n, home(k), d))
    ensures Ideal(n, home, ideal[k := At(n, home(k), d)])
    ensures forall i :: Taken(ideal, i) ==> Taken(ideal[k := At(n, home(k), d)], i)
  {
  }

  lemma FlowGrows(n: nat, home: Home, m: Placement, k: InodeKey, i: nat, p: nat)
    requires HomesFit(home, n) && Placed(n, m) && Placed(n, m[k := i]) && k !in m && p < n
    ensures |Flow(n, home, m, p)| <= |Flow(n, home, m[k := i], p)|
  {
    SubsetSize(Flow(n, home, m, p), Flow(n, home, m[k := i], p));
  }

  lemma ExtendIdeal(n: nat, home: Home, ideal: Placement, k: InodeKey) returns (bigger: Placement)
    requires Ideal(n, home, ideal) && |ideal.Keys + {k}| <= n
    ensures Ideal(n, home, bigger) && bigger.Keys == ideal.Keys + {k}
    ensures forall i :: Taken(ideal, i) ==> Taken(bigger, i)
    ensures forall p :: 0 <= p < n ==> |Flow(n, home, ideal, p)| <= |Flow(n, home, bigger, p)|
  {
    if k in ideal {
      bigger := ideal;
      assert ideal.Keys + {k} == ideal.Keys;
    } else {
      assert |ideal.Keys + {k}| == |ideal.Keys| + 1;
      var d := FirstFree(n, ideal, home(k));
      bigger := ideal[k := At(n, home(k), d)];
      AddToIdeal(n, home, ideal, k, d);
      forall p | 0 <= p < n
        ensures |Flow(n, home, ideal, p)| <= |Flow(n, home, bigger, p)|
      {
        FlowGrows(n, home, ideal, k, At(n, home(k), d), p);
      }
    }
  }

  // ----- One insertion -----

  /** Slots passed on the way to the insertion point hold live keys. */
  lemma PassedAreLive(cells: seq<Cell>, key: InodeKey, h: nat, i: nat)
    requires h < |cells| && i < |cells|
    requires forall j :: 0 <= j < |cells| ==> cells[j] != Other
    requires exists e :: InsertionPoint(cells, key, h, e, i)
    ensures forall j :: 0 <= j < Dist(|cells|, h, i) ==> cells[At(|cells|, h, j)].Live?
  {
  }

  /** If flow is within bounds into a taken slot, it is within bounds out of it. */
  lemma FlowStep(n: nat, home: Home, m: Placement, ideal: Placement, p: nat)
    requires HomesFit(home, n) && Placed(n, m) && Placed(n, ideal) && p < n
    requires m.Keys <= ideal.Keys && Taken(m, p)
    requires |Flow(n, home, m, p)| <= |Flow(n, home, ideal, p)|
    ensures |Flow(n, home, m, At(n, p, 1))| <= |Flow(n, home, ideal, At(n, p, 1))|
  {
    Conservation(n, home, m, p);
    Conservation(n, home, ideal, p);
    SubsetSize(AtHome(home, m, p), AtHome(home, ideal, p));
  }

  /** The conservation law carried along a run of taken slots. */
  lemma {:induction false} FlowAlongRun(n: nat, home: Home, m: Placement, ideal: Placement, h: nat, d: nat)
    requires HomesFit(home, n) && Placed(n, m) && Placed(n, ideal) && h < n && d < n
    requires m.Keys <= ideal.Keys && TakenRun(n, m, h, d)
    requires |Flow(n, home, m, h)| <= |Flow(n, home, ideal, h)|
    ensures |Flow(n, home, m, At(n, h, d))| <= |Flow(n, home, ideal, At(n, h, d))|
    decreases d
  {
    if d > 0 {
      FlowAlongRun(n, home, m, ideal, h, d - 1);
      var p := At(n, h, d - 1);
      assert At(n, p, 1) == At(n, h, d);
      FlowStep(n, home, m, ideal, p);
    }
  }

  /** An inserted key's slot is taken in the ideal ring. */
  lemma SlotTakenInIdeal(n: nat, home: Home, ideal: Placement, m: Placement, key: InodeKey)
    requires Ideal(n, home, ideal) && Placed(n, m) && key in m && key in ideal
    requires |Flow(n, home, m, m[key])| <= |Flow(n, home, ideal, m[key])|
    ensures Taken(ideal, m[key])
  {
    var i, h := m[key], home(key);
    if h == i {
      assert At(n, h, 0) == i;
      assert TakenRun(n, ideal, h, Dist(n, h, ideal[key]));
    } else {
      assert key in Flow(n, home, m, i);
      assert |Flow(n, home, m, i)| > 0;
      var k :| k in Flow(n, home, ideal, i);
      assert TakenRun(n, ideal, home(k), Dist(n, home(k), ideal[k]));
      assert At(n, home(k), Dist(n, home(k), i)) == i;
      assert At(n, home(k), Dist(n, home(k), ideal[k])) == ideal[k];
    }
  }

  lemma FlowElsewhere(n: nat, home: Home, m: Placement, key: InodeKey, i: nat, p: nat)
    requires HomesFit(home, n) && Placed(n, m) && Placed(n, m[key := i]) && p < n && i < n && key !in m
    requires !Enters(n, home(key), i, p)
    ensures Flow(n, home, m[key := i], p) == Flow(n, home, m, p)
  {
  }

  /**
   Adding a key at slot i, when every slot on its way there is taken, keeps the flow into
   each slot below the ideal flow.
   */
  lemma FlowAfterInsert(n: nat, home: Home, m: Placement, key: InodeKey, i: nat, ideal: Placement, p: nat)
    requires HomesFit(home, n) && Placed(n, m) && Placed(n, m[key := i]) && Placed(n, ideal)
    requires i < n && p < n && key !in m && m.Keys + {key} <= ideal.Keys
    requires FlowBelow(n, home, m, ideal)
    requires TakenRun(n, m, home(key), Dist(n, home(key), i))
    ensures |Flow(n, home, m[key := i], p)| <= |Flow(n, home, ideal, p)|
  {
    var h := home(key);
    var m' := m[key := i];
    if Enters(n, h, i, p) {
      var d := Dist(n, h, p);
      forall j | 0 <= j < d
        ensures Taken(m', At(n, h, j))
      {
        assert Taken(m, At(n, h, j));
        var l :| l in m && m[l] == At(n, h, j);
        assert l in m' && m'[l] == At(n, h, j);
      }
      FlowElsewhere(n, home, m, key, i, h);
      FlowAlongRun(n, home, m', ideal, h, d);
      assert At(n, h, d) == p;
    } else {
      FlowElsewhere(n, home, m, key, i, p);
    }
  }

  lemma InsertStaysWithin(cells: seq<Cell>, home: Home, m: Placement, ideal: Placement, key: InodeKey, i: nat)
    returns (bigger: Placement)
    requires Within(cells, home, m, ideal) && ProbeOf(cells, home, key) == Vacant(i)
    requires |ideal.Keys + {key}| <= |cells|
    ensures i < |cells| && bigger.Keys == ideal.Keys + {key}
    ensures Within(cells[i := Live(key)], home, m[key := i], bigger)
  {
    InsertKeepsInv(cells, home, key, i);
    VacantExact(cells, home, key, i);
    PassedAreLive(cells, key, home(key), i);
    bigger := MoreKeysStayWithin(cells, home, m, ideal, key);
    PublishStaysWithin(cells, home, m, bigger, key, i);
  }

  lemma LivePathTaken(cells: seq<Cell>, m: Placement, h: nat, d: nat)
    requires h < |cells| && d <= |cells| && Describes(m, cells)
    requires forall j :: 0 <= j < d ==> cells[At(|cells|, h, j)].Live?
    ensures TakenRun(|cells|, m, h, d)
  {
  }

  lemma DescribesInsert(cells: seq<Cell>, m: Placement, key: InodeKey, i: nat)
    requires Describes(m, cells) && i < |cells| && !cells[i].Live? && !Holds(cells, key)
    ensures Describes(m[key := i], cells[i := Live(key)]) && key !in m
  {
  }

  lemma FlowBelowAfterInsert(n: nat, home: Home, m: Placement, key: InodeKey, i: nat, ideal: Placement)
    requires HomesFit(home, n) && Placed(n, m) && Placed(n, m[key := i]) && Placed(n, ideal)
    requires i < n && key !in m && m.Keys + {key} <= ideal.Keys
    requires FlowBelow(n, home, m, ideal)
    requires TakenRun(n, m, home(key), Dist(n, home(key), i))
    ensures FlowBelow(n, home, m[key := i], ideal)
  {
    forall p | 0 <= p < n
      ensures |Flow(n, home, m[key := i], p)| <= |Flow(n, home, ideal, p)|
    {
      FlowAfterInsert(n, home, m, key, i, ideal, p);
    }
  }

  lemma PublishStaysWithin(cells: seq<Cell>, home: Home, m: Placement, ideal: Placement, key: InodeKey, i: nat)
    requires Within(cells, home, m, ideal) && key in ideal
    requires i < |cells| && !cells[i].Live? && !Holds(cells, key)
    requires Inv(cells[i := Live(key)], home)
    requires forall j :: 0 <= j < Dist(|cells|, home(key), i) ==> cells[At(|cells|, home(key), j)].Live?
    ensures Within(cells[i := Live(key)], home, m[key := i], ideal)
  {
    DescribesInsert(cells, m, key, i);
    FlowBelowAfterPublish(cells, home, m, ideal, key, i);
    SlotTakenInIdeal(|cells|, home, ideal, m[key := i], key);
  }

  lemma FlowBelowAfterPublish(cells: seq<Cell>, home: Home, m: Placement, ideal: Placement, key: InodeKey, i: nat)
    requires Within(cells, home, m, ideal) && key in ideal
    requires i < |cells| && !cells[i].Live? && key !in m
    requires forall j :: 0 <= j < Dist(|cells|, home(key), i) ==> cells[At(|cells|, home(key), j)].Live?
    ensures FlowBelow(|cells|, home, m[key := i], ideal)
    ensures Placed(|cells|, m[key := i])
  {
    LivePathTaken(cells, m, home(key), Dist(|cells|, home(key), i));
    FlowBelowAfterInsert(|cells|, home, m, key, i, ideal);
  }

  // ----- Operations that insert nothing -----

  lemma FlowShrinks(n: nat, home: Home, m: Placement, key: InodeKey, p: nat)
    requires HomesFit(home, n) && Placed(n, m) && p < n
    ensures |Flow(n, home, m - {key}, p)| <= |Flow(n, home, m, p)|
  {
    SubsetSize(Flow(n, home, m - {key}, p), Flow(n, home, m, p));
  }

  lemma RemoveStaysWithin(cells: seq<Cell>, home: Home, m: Placement, ideal: Placement, i: nat)
    requires Within(cells, home, m, ideal) && i < |cells| && cells[i].Live?
    ensures Within(cells[i := Tomb], home, m - {cells[i].key}, ideal)
  {
    RemoveKeepsInv(cells, home, i);
    forall p | 0 <= p < |cells|
      ensures |Flow(|cells|, home, m - {cells[i].key}, p)| <= |Flow(|cells|, home, ideal, p)|
    {
      FlowShrinks(|cells|, home, m, cells[i].key, p);
    }
  }

  lemma MoreKeysStayWithin(cells: seq<Cell>, home: Home, m: Placement, ideal: Placement, key: InodeKey)
    returns (bigger: Placement)
    requires Within(cells, home, m, ideal) && |ideal.Keys + {key}| <= |cells|
    ensures bigger.Keys == ideal.Keys + {key} && Within(cells, home, m, bigger)
  {
    bigger := ExtendIdeal(|cells|, home, ideal, key);
  }

  lemma FreshWithin(cells: seq<Cell>, home: Home)
    requires HomesFit(home, |cells|)
    requires forall i :: 0 <= i < |cells| ==> cells[i] == Empty
    ensures Within(cells, home, map[], map[])
  {
  }

  // ----- What it buys -----

  ghost function NonEmpty(cells: seq<Cell>): set<nat> {
    set i: nat | 0 <= i < |cells| && cells[i] != Empty
  }

  /** No more slots are consumed than there were keys. */
  lemma ConsumedAtMostKeys(cells: seq<Cell>, home: Home, m: Placement, ideal: Placement)
    requires Within(cells, home, m, ideal)
    ensures |NonEmpty(cells)| <= |ideal.Keys|
  {
    TakenBound(ideal, NonEmpty(cells));
  }
}
