/** Linear-scan register allocation over live intervals: every local gets one
    register or one frame slot for the whole function. */
module RegAlloc {
  import opened Types
  import opened Mir
  import opened Cfg
  import opened Intervals

  datatype Location = Register(index: nat) | Memory(slot: nat)

  datatype Allocation = Allocation(locations: seq<Location>, usedRegisters: seq<nat>, memorySlots: nat) {
    function Location(l: LocalId): Location {
      if l < |locations| then locations[l] else Memory(l)
    }
  }

  predicate Disjoint(a: Interval, b: Interval) {
    a.end < b.start || b.end < a.start
  }

  // ----- ordering the intervals ---------------------------------------------

  /** The sort key: start, then end, then local. */
  predicate KeyLess(a: Interval, b: Interval) {
    a.start < b.start || (a.start == b.start && (a.end < b.end || (a.end == b.end && a.local <= b.local)))
  }

  ghost predicate SortedByKey(s: seq<Interval>) {
    forall i, j :: 0 <= i < j < |s| ==> KeyLess(s[i], s[j])
  }

  function Insert(x: Interval, s: seq<Interval>): (r: seq<Interval>)
    ensures multiset(r) == multiset(s) + multiset{x}
  {
    if s == [] then [x]
    else if KeyLess(x, s[0]) then [x] + s
    else
      assert s == [s[0]] + s[1..];
      [s[0]] + Insert(x, s[1..])
  }

  function Sort(s: seq<Interval>): (r: seq<Interval>)
    ensures multiset(r) == multiset(s)
  {
    if s == [] then []
    else
      assert s == [s[0]] + s[1..];
      Insert(s[0], Sort(s[1..]))
  }

  lemma {:induction false} InsertSorts(x: Interval, s: seq<Interval>)
    requires SortedByKey(s)
    ensures SortedByKey(Insert(x, s))
  {
    hide KeyLess;
    if s == [] {
      assert Insert(x, s) == [x];
    } else if KeyLess(x, s[0]) {
      forall i | 0 <= i < |s| ensures KeyLess(x, s[i]) {
        if i > 0 { KeyTransitive(x, s[0], s[i]); }
      }
    } else {
      var rest := Insert(x, s[1..]);
      assert forall i :: 0 <= i < |s[1..]| ==> s[1..][i] == s[i + 1];
      InsertSorts(x, s[1..]);
      KeyTotal(x, s[0]);
      forall y | y in rest ensures KeyLess(s[0], y) {
        assert y in multiset(rest);
        if y != x { assert y in s[1..]; }
      }
    }
  }

  lemma KeyTransitive(a: Interval, b: Interval, c: Interval)
    requires KeyLess(a, b) && KeyLess(b, c)
    ensures KeyLess(a, c)
  {
  }

  lemma KeyTotal(a: Interval, b: Interval)
    requires !KeyLess(a, b)
    ensures KeyLess(b, a)
  {
  }

  /** By start, then by end, then by local. */
  lemma {:induction false} SortSorts(s: seq<Interval>)
    ensures SortedByKey(Sort(s))
    ensures forall i, j :: 0 <= i < j < |Sort(s)| ==>
      var a, b := Sort(s)[i], Sort(s)[j];
      a.start <= b.start && (a.start == b.start ==> a.end <= b.end && (a.end == b.end ==> a.local <= b.local))
  {
    if s != [] {
      SortSorts(s[1..]);
      InsertSorts(s[0], Sort(s[1..]));
    }
  }

  // ----- the state of the scan ----------------------------------------------

  ghost predicate DistinctLocals(s: seq<Interval>) {
    forall i, j :: 0 <= i < j < |s| ==> s[i].local != s[j].local
  }

  ghost predicate InBounds(s: seq<Interval>, locals: nat) {
    forall x :: x in s ==> x.local < locals
  }

  predicate SameRegister(held: seq<Option<nat>>, l: LocalId, m: LocalId)
    requires l < |held| && m < |held|
  {
    l != m && held[l].Some? && held[l] == held[m]
  }

  /** Two scanned intervals that hold the same register are disjoint. */
  ghost predicate NoConflict(scanned: seq<Interval>, held: seq<Option<nat>>)
    requires InBounds(scanned, |held|)
  {
    forall a, b :: a in scanned && b in scanned && SameRegister(held, a.local, b.local) ==> Disjoint(a, b)
  }

  /** `active` holds exactly one interval for each busy register. */
  ghost predicate Occupied(active: seq<Interval>, held: seq<Option<nat>>, busy: seq<bool>)
    requires InBounds(active, |held|)
  {
    && (forall a :: a in active ==>
          held[a.local].Some? && held[a.local].value < |busy| && busy[held[a.local].value])
    && DistinctLocals(active)
    && (forall i, j :: 0 <= i < j < |active| ==> held[active[i].local] != held[active[j].local])
    && (forall r :: 0 <= r < |busy| && busy[r] ==> HasHolder(active, held, r))
  }

  ghost predicate HasHolder(active: seq<Interval>, held: seq<Option<nat>>, r: nat)
    requires InBounds(active, |held|)
  {
    exists a :: a in active && held[a.local] == Some(r)
  }

  function Without(s: seq<Interval>, v: nat): (r: seq<Interval>)
    requires v < |s|
    ensures |r| == |s| - 1
    ensures forall i :: 0 <= i < |r| ==> r[i] == s[if i < v then i else i + 1]
  {
    s[..v] + s[v + 1..]
  }

  lemma WithoutMembers(s: seq<Interval>, v: nat)
    requires v < |s| && DistinctLocals(s)
    ensures forall a :: a in Without(s, v) <==> a in s && a.local != s[v].local
    ensures DistinctLocals(Without(s, v))
  {
    var r := Without(s, v);
    forall a | a in s && a.local != s[v].local ensures a in r {
      var i :| 0 <= i < |s| && s[i] == a;
      assert r[if i < v then i else i - 1] == a;
    }
  }

  lemma RemoveOccupant(active: seq<Interval>, held: seq<Option<nat>>, busy: seq<bool>, v: nat)
    requires InBounds(active, |held|) && Occupied(active, held, busy) && v < |active|
    ensures var left := Without(active, v);
      && (forall a :: a in left <==> a in active && a.local != active[v].local)
      && held[active[v].local].Some? && held[active[v].local].value < |busy|
      && Occupied(left, held, busy[held[active[v].local].value := false])
  {
    hide Without;
    var other, left := active[v], Without(active, v);
    assert other in active;
    var r := held[other.local].value;
    WithoutMembers(active, v);
    forall a | a in left ensures held[a.local] != Some(r) {
      var i :| 0 <= i < |active| && active[i] == a;
    }
    forall q | 0 <= q < |busy| && busy[r := false][q] ensures HasHolder(left, held, q) {
      assert HasHolder(active, held, q);
      var a :| a in active && held[a.local] == Some(q);
      assert a in left;
    }
  }

  /** Scanned intervals still holding a register are active or over before `now`. */
  ghost predicate Expired(scanned: seq<Interval>, active: seq<Interval>, held: seq<Option<nat>>, now: nat)
    requires InBounds(scanned, |held|)
  {
    forall a :: a in scanned && held[a.local].Some? && a !in active ==> a.end < now
  }

  ghost predicate OnlyScanned(scanned: seq<Interval>, held: seq<Option<nat>>) {
    forall l :: 0 <= l < |held| && held[l].Some? ==> exists a :: a in scanned && a.local == l
  }

  ghost predicate Scanning(scanned: seq<Interval>, active: seq<Interval>,
                           held: seq<Option<nat>>, busy: seq<bool>, now: nat) {
    && InBounds(scanned, |held|) && InBounds(active, |held|)
    && (forall a :: a in active ==> a in scanned)
    && NoConflict(scanned, held)
    && Occupied(active, held, busy)
    && Expired(scanned, active, held, now)
    && OnlyScanned(scanned, held)
    && (forall l :: 0 <= l < |held| && held[l].Some? ==> held[l].value < |busy|)
  }

  // ----- the steps of the scan ----------------------------------------------

  /** Drops the active intervals that end before `now`, freeing their registers. */
  method Expire(active: seq<Interval>, held: seq<Option<nat>>, busy: seq<bool>, now: nat)
    returns (kept: seq<Interval>, free: seq<bool>)
    requires InBounds(active, |held|) && Occupied(active, held, busy)
    ensures InBounds(kept, |held|) && Occupied(kept, held, free) && |free| == |busy|
    ensures forall a :: a in kept <==> a in active && a.end >= now
  {
    hide Occupied;
    kept, free := [], busy;
    assert kept + active[0..] == active;
    for k := 0 to |active|
      invariant |free| == |busy|
      invariant forall a :: a in kept <==> a in active[..k] && a.end >= now
      invariant InBounds(kept + active[k..], |held|) && Occupied(kept + active[k..], held, free)
    {
      hide InBounds;
      assert active[..k + 1] == active[..k] + [active[k]];
      NextOccupant(kept, active, k, held, free);
      if active[k].end >= now {
        kept := kept + [active[k]];
      } else if held[active[k].local].Some? {
        free := free[held[active[k].local].value := false];
      }
    }
    assert active[..|active|] == active && kept + active[|active|..] == kept;
  }

  lemma NextOccupant(kept: seq<Interval>, active: seq<Interval>, k: nat, held: seq<Option<nat>>, busy: seq<bool>)
    requires k < |active| && InBounds(kept + active[k..], |held|) && Occupied(kept + active[k..], held, busy)
    ensures active[k].local < |held| && held[active[k].local].Some? && held[active[k].local].value < |busy|
    ensures InBounds(kept + active[k + 1..], |held|)
    ensures Occupied(kept + active[k + 1..], held, busy[held[active[k].local].value := false])
    ensures (kept + [active[k]]) + active[k + 1..] == kept + active[k..]
  {
    hide Occupied;
    var todo := kept + active[k..];
    assert todo[|kept|] == active[k] && active[k] in todo;
    RemoveOccupant(todo, held, busy, |kept|);
    assert kept + active[k + 1..] == Without(todo, |kept|);
  }

  /** The lowest register that is not busy. */
  method FirstFree(busy: seq<bool>) returns (register: Option<nat>)
    ensures register.Some? ==> register.value < |busy| && !busy[register.value]
    ensures register.Some? ==> forall r :: 0 <= r < register.value ==> busy[r]
    ensures register.None? ==> forall r :: 0 <= r < |busy| ==> busy[r]
  {
    for r := 0 to |busy|
      invariant forall q :: 0 <= q < r ==> busy[q]
    {
      if !busy[r] {
        return Some(r);
      }
    }
    return None;
  }

  predicate EndsLater(a: Interval, b: Interval) {
    a.end > b.end || (a.end == b.end && a.local >= b.local)
  }

  /** The active interval that ends last. */
  method Furthest(active: seq<Interval>) returns (victim: Option<nat>)
    ensures victim.None? <==> active == []
    ensures victim.Some? ==> victim.value < |active|
    ensures victim.Some? ==> forall a :: a in active ==> EndsLater(active[victim.value], a)
  {
    victim := None;
    for k := 0 to |active|
      invariant victim.None? <==> k == 0
      invariant victim.Some? ==> victim.value < k
      invariant victim.Some? ==> forall j :: 0 <= j < k ==> EndsLater(active[victim.value], active[j])
    {
      if victim.None? || EndsLater(active[k], active[victim.value]) {
        victim := Some(k);
      }
    }
  }

  lemma GiveOccupies(active: seq<Interval>, held: seq<Option<nat>>, busy: seq<bool>, x: Interval, r: nat)
    requires InBounds(active, |held|) && Occupied(active, held, busy)
    requires x.local < |held| && r < |busy| && !busy[r]
    requires forall a :: a in active ==> a.local != x.local
    ensures Occupied(active + [x], held[x.local := Some(r)], busy[r := true])
  {
    var after := held[x.local := Some(r)];
    assert forall i :: 0 <= i < |active| ==> active[i] in active;
    forall q | 0 <= q < |busy| && busy[r := true][q] ensures HasHolder(active + [x], after, q) {
      if q == r {
        assert x in active + [x];
      } else {
        assert HasHolder(active, held, q);
        var a :| a in active && held[a.local] == Some(q);
        assert a in active + [x];
      }
    }
  }

  lemma GiveIsDisjoint(scanned: seq<Interval>, active: seq<Interval>, held: seq<Option<nat>>,
                       busy: seq<bool>, x: Interval, r: nat)
    requires InBounds(scanned, |held|) && InBounds(active, |held|)
    requires NoConflict(scanned, held) && Expired(scanned, active, held, x.start)
    requires Occupied(active, held, busy)
    requires x.local < |held| && x.start <= x.end && r < |busy| && !busy[r]
    requires forall a :: a in scanned ==> a.local != x.local
    ensures NoConflict(scanned + [x], held[x.local := Some(r)])
    ensures Expired(scanned + [x], active + [x], held[x.local := Some(r)], x.start)
  {
    var after := held[x.local := Some(r)];
    assert forall a :: a in active ==> held[a.local] != Some(r);
    forall a, b | a in scanned + [x] && b in scanned + [x] && SameRegister(after, a.local, b.local)
      ensures Disjoint(a, b)
    {
      if a in scanned && b in scanned {
        assert SameRegister(held, a.local, b.local);
      }
    }
  }

  lemma GiveScanned(scanned: seq<Interval>, held: seq<Option<nat>>, x: Interval, given: Option<nat>)
    requires OnlyScanned(scanned, held) && x.local < |held|
    ensures OnlyScanned(scanned + [x], held[x.local := given])
  {
    var after := held[x.local := given];
    forall l | 0 <= l < |after| && after[l].Some? ensures exists a :: a in scanned + [x] && a.local == l {
      if l == x.local {
        assert x in scanned + [x];
      } else {
        var a :| a in scanned && a.local == l;
        assert a in scanned + [x];
      }
    }
  }

  lemma NewLocal(scanned: seq<Interval>, x: Interval)
    requires DistinctLocals(scanned + [x])
    ensures DistinctLocals(scanned)
    ensures forall a :: a in scanned ==> a.local != x.local
  {
    assert forall i :: 0 <= i < |scanned| ==>
        (scanned + [x])[i].local != (scanned + [x])[|scanned|].local && (scanned + [x])[i] == scanned[i];
  }

  lemma GiveKeeps(scanned: seq<Interval>, active: seq<Interval>, held: seq<Option<nat>>,
                  busy: seq<bool>, x: Interval, r: nat)
    requires Scanning(scanned, active, held, busy, x.start) && DistinctLocals(scanned + [x])
    requires x.local < |held| && x.start <= x.end && r < |busy| && !busy[r]
    ensures Scanning(scanned + [x], active + [x], held[x.local := Some(r)], busy[r := true], x.start)
  {
    hide Occupied, Expired, NoConflict, OnlyScanned;
    NewLocal(scanned, x);
    GiveOccupies(active, held, busy, x, r);
    GiveIsDisjoint(scanned, active, held, busy, x, r);
    GiveScanned(scanned, held, x, Some(r));
  }

  /** Taking the register away from one active interval. */
  lemma TakeKeeps(scanned: seq<Interval>, active: seq<Interval>, held: seq<Option<nat>>,
                  busy: seq<bool>, v: nat, now: nat)
    requires Scanning(scanned, active, held, busy, now) && DistinctLocals(scanned)
    requires v < |active|
    ensures var r := held[active[v].local].value;
      Scanning(scanned, Without(active, v), held[active[v].local := None], busy[r := false], now)
  {
    RemoveOccupant(active, held, busy, v);
    var other := active[v];
    var r := held[other.local].value;
    var left, after := Without(active, v), held[other.local := None];
    forall q | 0 <= q < |busy| && busy[r := false][q] ensures HasHolder(left, after, q) {
      assert HasHolder(left, held, q);
      var a :| a in left && held[a.local] == Some(q);
      assert after[a.local] == Some(q);
    }
    assert Occupied(left, after, busy[r := false]);
    assert Expired(scanned, left, after, now);
  }

  lemma SkipKeeps(scanned: seq<Interval>, active: seq<Interval>, held: seq<Option<nat>>,
                  busy: seq<bool>, x: Interval)
    requires Scanning(scanned, active, held, busy, x.start)
    requires x.local < |held| && held[x.local].None?
    ensures Scanning(scanned + [x], active, held, busy, x.start)
  {
    GiveScanned(scanned, held, x, None);
    assert held[x.local := None] == held;
  }

  /** What the scan does with one interval: the lowest free register; failing that, the
      register of the active interval that ends last, the larger local deciding between
      equal ends, if that one ends after the newcomer; failing that, memory. */
  ghost predicate Served(active: seq<Interval>, held: seq<Option<nat>>, busy: seq<bool>, x: Interval,
                         now: seq<Option<nat>>)
    requires InBounds(active, |held|) && x.local < |held|
  {
    if exists r :: 0 <= r < |busy| && !busy[r] then
      exists r: nat :: LowestFree(busy, r) && now == held[x.local := Some(r)]
    else if exists a :: a in active && a.end > x.end then
      exists v :: EndsLast(active, v) && now == held[v.local := None][x.local := held[v.local]]
    else now == held
  }

  predicate LowestFree(busy: seq<bool>, r: nat) {
    r < |busy| && !busy[r] && forall q :: 0 <= q < r ==> busy[q]
  }

  ghost predicate EndsLast(active: seq<Interval>, v: Interval) {
    v in active && forall a :: a in active ==> a.end < v.end || (a.end == v.end && a.local <= v.local)
  }

  /** One interval of the scan, after expiry: a free register, a stolen one, or memory. */
  method Place(ghost scanned: seq<Interval>, active: seq<Interval>, held: seq<Option<nat>>,
               busy: seq<bool>, x: Interval)
    returns (nowActive: seq<Interval>, nowHeld: seq<Option<nat>>, nowBusy: seq<bool>)
    requires Scanning(scanned, active, held, busy, x.start) && DistinctLocals(scanned + [x])
    requires x.local < |held| && x.start <= x.end
    ensures |nowHeld| == |held| && |nowBusy| == |busy|
    ensures Served(active, held, busy, x, nowHeld)
    ensures Scanning(scanned + [x], nowActive, nowHeld, nowBusy, x.start)
  {
    nowActive, nowHeld, nowBusy := active, held, busy;
    var free := FirstFree(busy);
    if free.Some? {
      GiveKeeps(scanned, active, held, busy, x, free.value);
      assert LowestFree(busy, free.value);
      nowBusy := busy[free.value := true];
      nowHeld := held[x.local := free];
      nowActive := active + [x];
      return;
    }
    NotYetAssigned(scanned, held, x);
    var victim := Furthest(active);
    if victim.None? {
      SkipKeeps(scanned, active, held, busy, x);
      return;
    }
    var other := active[victim.value];
    assert other in active && EndsLast(active, other);
    if other.end <= x.end {
      SkipKeeps(scanned, active, held, busy, x);
      return;
    }
    var register := held[other.local].value;
    nowHeld := held[other.local := None];
    nowHeld := nowHeld[x.local := Some(register)];
    nowActive := Without(active, victim.value);
    NewLocal(scanned, x);
    TakeKeeps(scanned, active, held, busy, victim.value, x.start);
    GiveKeeps(scanned, nowActive, held[other.local := None], busy[register := false], x, register);
    assert busy[register := false][register := true] == busy;
    nowActive := nowActive + [x];
  }

  lemma NotYetAssigned(scanned: seq<Interval>, held: seq<Option<nat>>, x: Interval)
    requires DistinctLocals(scanned + [x]) && OnlyScanned(scanned, held) && x.local < |held|
    ensures held[x.local].None?
  {
    NewLocal(scanned, x);
  }

  // ----- when memory is needed ------------------------------------------------------

  /** The intervals alive at a position. */
  function Crowd(intervals: seq<Interval>, p: nat): set<Interval> {
    set x | x in intervals && x.start <= p <= x.end
  }

  ghost predicate Crowded(intervals: seq<Interval>, registers: nat) {
    exists p: nat :: |Crowd(intervals, p)| > registers
  }

  ghost predicate AllHeld(intervals: seq<Interval>, held: seq<Option<nat>>) {
    forall x :: x in intervals ==> x.local < |held| && held[x.local].Some?
  }

  /** Intervals in pairwise different registers below `n` are at most `n`. */
  lemma {:induction false} Pigeonhole(s: set<Interval>, held: seq<Option<nat>>, n: nat)
    requires forall x :: x in s ==> x.local < |held| && held[x.local].Some? && held[x.local].value < n
    requires forall x, y :: x in s && y in s && x != y ==> held[x.local] != held[y.local]
    ensures |s| <= n
    decreases n
  {
    if x :| x in s && held[x.local].value == n - 1 {
      Pigeonhole(s - {x}, held, n - 1);
    } else if n > 0 {
      Pigeonhole(s, held, n - 1);
    } else {
      assert s == {};
    }
  }

  /** With every register busy there are that many active intervals. */
  lemma {:induction false} Holders(active: seq<Interval>, held: seq<Option<nat>>, n: nat) returns (s: set<Interval>)
    requires InBounds(active, |held|) && forall r: nat :: r < n ==> HasHolder(active, held, r)
    ensures |s| == n && forall x :: x in s ==> x in active && held[x.local].Some? && held[x.local].value < n
  {
    if n == 0 { return {}; }
    s := Holders(active, held, n - 1);
    assert HasHolder(active, held, n - 1);
    var x :| x in active && held[x.local] == Some(n - 1);
    s := s + {x};
  }

  /** As long as no position is crowded, some register is free. */
  lemma FreeUnlessCrowded(intervals: seq<Interval>, active: seq<Interval>, held: seq<Option<nat>>, busy: seq<bool>,
                          x: Interval)
    requires InBounds(active, |held|) && Occupied(active, held, busy) && !Crowded(intervals, |busy|)
    requires x in intervals && x.start <= x.end && x !in active
    requires forall a :: a in active ==> a in intervals && a.start <= x.start <= a.end
    ensures exists r :: 0 <= r < |busy| && !busy[r]
  {
    if forall r :: 0 <= r < |busy| ==> busy[r] {
      var s := Holders(active, held, |busy|);
      var crowd := Crowd(intervals, x.start);
      assert s + {x} <= crowd;
      SubsetSize(s + {x}, crowd);
      assert |s + {x}| == |busy| + 1;
    }
  }

  lemma {:induction false} SubsetSize(a: set<Interval>, b: set<Interval>)
    requires a <= b
    ensures |a| <= |b|
    decreases a
  {
    if x :| x in a { SubsetSize(a - {x}, b - {x}); }
  }

  /** Overlapping intervals in registers are at most as many as the registers. */
  lemma HeldNotCrowded(intervals: seq<Interval>, held: seq<Option<nat>>, registers: nat)
    requires InBounds(intervals, |held|) && NoConflict(intervals, held) && DistinctLocals(intervals)
    requires AllHeld(intervals, held)
    requires forall l :: 0 <= l < |held| && held[l].Some? ==> held[l].value < registers
    ensures !Crowded(intervals, registers)
  {
    forall p: nat ensures |Crowd(intervals, p)| <= registers {
      var s := Crowd(intervals, p);
      forall x, y | x in s && y in s && x != y ensures held[x.local] != held[y.local] {
        DifferentLocals(intervals, x, y);
        assert !Disjoint(x, y);
      }
      Pigeonhole(s, held, registers);
    }
  }

  lemma DifferentLocals(s: seq<Interval>, x: Interval, y: Interval)
    requires DistinctLocals(s) && x in s && y in s && x != y
    ensures x.local != y.local
  {
    var i :| 0 <= i < |s| && s[i] == x;
    var j :| 0 <= j < |s| && s[j] == y;
  }

  lemma NoneToHold()
    ensures forall held :: AllHeld([], held)
  {
  }

  /** A free register keeps every interval so far in one. */
  lemma ServedHeld(scanned: seq<Interval>, active: seq<Interval>, held: seq<Option<nat>>, busy: seq<bool>, x: Interval,
                   now: seq<Option<nat>>)
    requires InBounds(active, |held|) && x.local < |held| && Served(active, held, busy, x, now)
    requires AllHeld(scanned, held) && exists r :: 0 <= r < |busy| && !busy[r]
    ensures AllHeld(scanned + [x], now)
  {
  }

  lemma StillHeld(intervals: seq<Interval>, k: nat, active: seq<Interval>, held: seq<Option<nat>>, busy: seq<bool>,
                  now: seq<Option<nat>>)
    requires SortedByKey(intervals) && DistinctLocals(intervals) && k < |intervals|
    requires InBounds(intervals, |held|) && intervals[k].start <= intervals[k].end
    requires Scanning(intervals[..k], active, held, busy, intervals[k].start)
    requires forall a :: a in active ==> a.end >= intervals[k].start
    requires !Crowded(intervals, |busy|) && AllHeld(intervals[..k], held)
    requires Served(active, held, busy, intervals[k], now)
    ensures AllHeld(intervals[..k + 1], now)
  {
    hide Crowded, AllHeld, Served, NoConflict, Occupied, Expired, OnlyScanned;
    var scanned, x := intervals[..k], intervals[k];
    forall a | a in active ensures a in intervals && a.start <= x.start <= a.end && a != x {
      assert a in scanned;
      var j :| 0 <= j < |scanned| && scanned[j] == a;
      assert KeyLess(intervals[j], intervals[k]);
    }
    FreeUnlessCrowded(intervals, active, held, busy, x);
    ServedHeld(scanned, active, held, busy, x, now);
    assert intervals[..k + 1] == scanned + [x];
  }

  method Scan(intervals: seq<Interval>, locals: nat, registers: nat) returns (held: seq<Option<nat>>)
    requires SortedByKey(intervals) && DistinctLocals(intervals) && InBounds(intervals, locals)
    requires forall x :: x in intervals ==> x.start <= x.end
    ensures |held| == locals && NoConflict(intervals, held)
    ensures OnlyScanned(intervals, held)
    ensures forall l :: 0 <= l < locals && held[l].Some? ==> held[l].value < registers
    ensures AllHeld(intervals, held) <==> !Crowded(intervals, registers)
  {
    hide Crowded, AllHeld, Served;
    NoneToHold();
    held := seq(locals, _ => None);
    var busy := seq(registers, _ => false);
    var active: seq<Interval> := [];
    ghost var now: nat := 0;
    for k := 0 to |intervals|
      invariant |held| == locals && |busy| == registers
      invariant forall j :: k <= j < |intervals| ==> now <= intervals[j].start
      invariant Scanning(intervals[..k], active, held, busy, now)
      invariant !Crowded(intervals, registers) ==> AllHeld(intervals[..k], held)
    {
      var interval := intervals[k];
      assert interval in intervals;
      ghost var scanned := intervals[..k];
      assert intervals[..k + 1] == scanned + [interval];
      ghost var before := active;
      active, busy := Expire(active, held, busy, interval.start);
      assert Expired(scanned, active, held, interval.start) by {
        forall a | a in scanned && held[a.local].Some? && a !in active ensures a.end < interval.start {
          if a !in before { assert a.end < now; }
        }
      }
      assert DistinctLocals(intervals[..k + 1]);
      assert Scanning(scanned, active, held, busy, interval.start);
      ghost var held', active', busy' := held, active, busy;
      active, held, busy := Place(scanned, active, held, busy, interval);
      if !Crowded(intervals, registers) {
        StillHeld(intervals, k, active', held', busy', held);
      }
      now := interval.start;
      assert forall j :: k < j < |intervals| ==> KeyLess(intervals[k], intervals[j]);
    }
    assert intervals[..|intervals|] == intervals;
    if AllHeld(intervals, held) { HeldNotCrowded(intervals, held, registers); }
  }

  // ----- the whole allocation -----------------------------------------------

  ghost predicate IntervalOf(intervals: seq<Interval>, l: LocalId, x: Interval) {
    x in intervals && x.local == l
  }

  /** Two locals in one place both have intervals, and these do not overlap. */
  ghost predicate SharesOnlyDisjoint(intervals: seq<Interval>, place: LocalId -> Location, locals: nat) {
    forall l: LocalId, m: LocalId :: l < locals && m < locals && l != m && place(l) == place(m) ==>
      OverlapFree(intervals, l, m)
  }

  ghost predicate OverlapFree(intervals: seq<Interval>, l: LocalId, m: LocalId) {
    exists x, y :: IntervalOf(intervals, l, x) && IntervalOf(intervals, m, y) && Disjoint(x, y)
  }

  predicate Pinned(pinned: seq<bool>, l: LocalId) {
    l < |pinned| && pinned[l]
  }

  method Unpinned(intervals: seq<Interval>, pinned: seq<bool>) returns (kept: seq<Interval>)
    requires ByLocal(intervals)
    ensures forall x: Interval :: x in kept <==> x in intervals && !Pinned(pinned, x.local)
    ensures DistinctLocals(kept)
  {
    kept := [];
    for k := 0 to |intervals|
      invariant forall x: Interval :: x in kept <==> x in intervals[..k] && !Pinned(pinned, x.local)
      invariant DistinctLocals(kept)
    {
      assert intervals[..k + 1] == intervals[..k] + [intervals[k]];
      if !Pinned(pinned, intervals[k].local) {
        forall x | x in kept ensures x.local != intervals[k].local {
          var i :| 0 <= i < |intervals[..k]| && intervals[..k][i] == x;
          assert intervals[i].local < intervals[k].local;
        }
        kept := kept + [intervals[k]];
      }
    }
    assert intervals[..|intervals|] == intervals;
  }

  lemma DistinctSurvivesSort(s: seq<Interval>)
    requires DistinctLocals(s)
    ensures DistinctLocals(Sort(s))
    ensures forall x: Interval :: x in Sort(s) <==> x in s
  {
    var t := Sort(s);
    forall x ensures x in t <==> x in s {
      assert x in multiset(t) <==> x in multiset(s);
    }
    forall i, j | 0 <= i < j < |t| ensures t[i].local != t[j].local {
      if t[i] == t[j] {
        TwiceInMultiset(t, i, j);
        OnceInDistinct(s, t[i]);
      } else {
        assert t[i] in t && t[j] in t;
        var a :| 0 <= a < |s| && s[a] == t[i];
        var b :| 0 <= b < |s| && s[b] == t[j];
      }
    }
  }

  lemma TwiceInMultiset(t: seq<Interval>, i: nat, j: nat)
    requires i < j < |t| && t[i] == t[j]
    ensures multiset(t)[t[i]] >= 2
  {
    assert t == t[..i] + [t[i]] + t[i + 1..j] + [t[j]] + t[j + 1..];
  }

  lemma {:induction false} OnceInDistinct(s: seq<Interval>, x: Interval)
    requires DistinctLocals(s)
    ensures multiset(s)[x] <= 1
  {
    if s != [] {
      assert s == [s[0]] + s[1..];
      OnceInDistinct(s[1..], x);
      assert forall i :: 0 <= i < |s[1..]| ==> s[1..][i] == s[i + 1] && s[i + 1].local != s[0].local;
    }
  }

  method Locations(held: seq<Option<nat>>) returns (locations: seq<Location>, memorySlots: nat)
    ensures |locations| == |held|
    ensures forall l :: 0 <= l < |held| ==>
      if held[l].Some? then locations[l] == Register(held[l].value)
      else locations[l].Memory? && locations[l].slot < memorySlots
    ensures forall l, m :: 0 <= l < m < |held| && locations[l].Memory? && locations[m].Memory? ==>
      locations[l].slot < locations[m].slot
    ensures forall s :: 0 <= s < memorySlots ==> Memory(s) in locations
  {
    locations, memorySlots := [], 0;
    for local := 0 to |held|
      invariant |locations| == local
      invariant forall l :: 0 <= l < local ==>
        if held[l].Some? then locations[l] == Register(held[l].value)
        else locations[l].Memory? && locations[l].slot < memorySlots
      invariant forall l, m :: 0 <= l < m < local && locations[l].Memory? && locations[m].Memory? ==>
        locations[l].slot < locations[m].slot
      invariant forall s :: 0 <= s < memorySlots ==> Memory(s) in locations
    {
      match held[local]
      case Some(register) => locations := locations + [Register(register)];
      case None =>
        locations := locations + [Memory(memorySlots)];
        memorySlots := memorySlots + 1;
    }
  }

  ghost predicate Ascending(s: seq<nat>) {
    forall i, j :: 0 <= i < j < |s| ==> s[i] < s[j]
  }

  function InsertDistinct(x: nat, s: seq<nat>): (r: seq<nat>)
    requires Ascending(s)
    ensures Ascending(r)
    ensures forall y :: y in r <==> y in s || y == x
  {
    if s == [] then [x]
    else if x < s[0] then [x] + s
    else if x == s[0] then s
    else
      var rest := InsertDistinct(x, s[1..]);
      assert forall y :: y in rest ==> s[0] < y;
      assert forall i :: 0 <= i < |rest| ==> rest[i] in rest;
      [s[0]] + rest
  }

  /** The held registers, sorted and without repeats. */
  method UsedRegisters(held: seq<Option<nat>>) returns (used: seq<nat>)
    ensures Ascending(used)
    ensures forall r :: r in used <==> Some(r) in held
  {
    used := [];
    for k := 0 to |held|
      invariant Ascending(used)
      invariant forall r :: r in used <==> Some(r) in held[..k]
    {
      assert held[..k + 1] == held[..k] + [held[k]];
      if held[k].Some? {
        used := InsertDistinct(held[k].value, used);
      }
    }
    assert held[..|held|] == held;
  }

  /** Every local is somewhere, pinned ones in memory; no two locals share a slot,
      the slots are numbered without gaps, and `usedRegisters` lists just the
      registers in use. */
  ghost predicate Placed(locals: nat, registers: nat, pinned: seq<bool>, a: Allocation) {
    && |a.locations| == locals
    && (forall l: LocalId :: l < locals ==>
          match a.Location(l)
          case Register(r) => r < registers && !Pinned(pinned, l) && r in a.usedRegisters
          case Memory(s) => s < a.memorySlots)
    && (forall l: LocalId, m: LocalId :: l < locals && m < locals && l != m && a.Location(l).Memory? ==>
          a.Location(l) != a.Location(m))
    && (forall s: nat :: s < a.memorySlots ==> exists l: LocalId :: l < locals && a.Location(l) == Memory(s))
    && Ascending(a.usedRegisters)
    && (forall r: nat :: r in a.usedRegisters ==> exists l: LocalId :: l < locals && a.Location(l) == Register(r))
  }

  /** What the backends rely on. */
  ghost predicate Sound(f: MirFunction, order: seq<BlockId>, registers: nat, pinned: seq<bool>, a: Allocation) {
    && InRange(f, order)
    && Placed(|f.locals|, registers, pinned, a)
    && exists intervals :: Hulls(f, order, intervals) && SharesOnlyDisjoint(intervals, a.Location, |f.locals|)
         && SpillsExactly(intervals, registers, pinned, a)
  }

  /** Whether unpinned locals need memory: only when, and whenever, more of them are alive
      at one position than there are registers. */
  ghost predicate SpillsExactly(intervals: seq<Interval>, registers: nat, pinned: seq<bool>, a: Allocation) {
    (forall x :: x in intervals && !Pinned(pinned, x.local) ==> a.Location(x.local).Register?)
      <==> (forall p: nat :: |UnpinnedAt(intervals, pinned, p)| <= registers)
  }

  function UnpinnedAt(intervals: seq<Interval>, pinned: seq<bool>, p: nat): set<Interval> {
    set x | x in intervals && x.start <= p <= x.end && !Pinned(pinned, x.local)
  }

  method Allocate(f: MirFunction, cfg: Cfg, registers: nat, pinned: seq<bool>) returns (a: Allocation)
    requires Describes(f, cfg)
    requires BlockStart(f, cfg.reversePostorder, |cfg.reversePostorder|) <= USIZE_MAX
    ensures Sound(f, cfg.reversePostorder, registers, pinned, a)
  {
    var count := |f.locals|;
    var order := cfg.reversePostorder;
    var all := LiveIntervals(f, cfg);
    IntervalsInBounds(f, order, all);
    hide Describes, Hulls, SharesOnlyDisjoint, Placed, NoConflict, OnlyScanned, SortedByKey;
    hide SpillsExactly, Crowded, AllHeld;
    var intervals := Unpinned(all, pinned);
    DistinctSurvivesSort(intervals);
    SortSorts(intervals);
    var sorted := Sort(intervals);
    var held := Scan(sorted, count, registers);
    var locations, memorySlots := Locations(held);
    var used := UsedRegisters(held);
    a := Allocation(locations, used, memorySlots);
    assert forall x :: x in sorted ==> x in all;
    AssignedPlaces(all, sorted, held, a, registers, pinned);
    RegistersWhenRoom(all, sorted, held, a, registers, pinned);
  }

  lemma RegistersWhenRoom(all: seq<Interval>, sorted: seq<Interval>, held: seq<Option<nat>>, a: Allocation,
                          registers: nat, pinned: seq<bool>)
    requires forall x: Interval :: x in sorted <==> x in all && !Pinned(pinned, x.local)
    requires InBounds(all, |held|) && |a.locations| == |held|
    requires forall l :: 0 <= l < |held| ==> (a.locations[l].Register? <==> held[l].Some?)
    requires AllHeld(sorted, held) <==> !Crowded(sorted, registers)
    ensures SpillsExactly(all, registers, pinned, a)
  {
    forall p: nat ensures UnpinnedAt(all, pinned, p) == Crowd(sorted, p) {
    }
    assert Crowded(sorted, registers) <==> exists p: nat :: |UnpinnedAt(all, pinned, p)| > registers;
  }

  /** The finished assignment, read as places. */
  lemma AssignedPlaces(all: seq<Interval>, sorted: seq<Interval>, held: seq<Option<nat>>, a: Allocation,
                       registers: nat, pinned: seq<bool>)
    requires InBounds(sorted, |held|) && NoConflict(sorted, held) && OnlyScanned(sorted, held)
    requires forall x: Interval :: x in sorted ==> x in all && !Pinned(pinned, x.local)
    requires |a.locations| == |held|
    requires forall l :: 0 <= l < |held| && held[l].Some? ==> held[l].value < registers
    requires forall l :: 0 <= l < |held| ==>
      if held[l].Some? then a.locations[l] == Register(held[l].value)
      else a.locations[l].Memory? && a.locations[l].slot < a.memorySlots
    requires forall l, m :: 0 <= l < m < |held| && a.locations[l].Memory? && a.locations[m].Memory? ==>
      a.locations[l].slot < a.locations[m].slot
    requires forall s :: 0 <= s < a.memorySlots ==> Memory(s) in a.locations
    requires Ascending(a.usedRegisters) && forall r :: r in a.usedRegisters <==> Some(r) in held
    ensures SharesOnlyDisjoint(all, a.Location, |held|)
    ensures Placed(|held|, registers, pinned, a)
  {
    forall l: LocalId | l < |held| && held[l].Some? ensures !Pinned(pinned, l) {
      var x :| x in sorted && x.local == l;
    }
    forall l: LocalId, m: LocalId | l < |held| && m < |held| && l != m && a.Location(l) == a.Location(m)
      ensures OverlapFree(all, l, m)
    {
      assert a.locations[l] == a.locations[m];
      assert SameRegister(held, l, m);
      var x :| x in sorted && x.local == l;
      var y :| y in sorted && y.local == m;
      assert IntervalOf(all, l, x) && IntervalOf(all, m, y) && Disjoint(x, y);
    }
    forall s: nat | s < a.memorySlots ensures exists l: LocalId :: l < |held| && a.Location(l) == Memory(s) {
      var l :| 0 <= l < |a.locations| && a.locations[l] == Memory(s);
      assert a.Location(l) == Memory(s);
    }
    forall r: nat | r in a.usedRegisters ensures exists l: LocalId :: l < |held| && a.Location(l) == Register(r) {
      var l :| 0 <= l < |held| && held[l] == Some(r);
      assert a.Location(l) == Register(r);
    }
  }

  lemma IntervalsInBounds(f: MirFunction, order: seq<BlockId>, intervals: seq<Interval>)
    requires InRange(f, order) && Hulls(f, order, intervals)
    ensures ByLocal(intervals) && InBounds(intervals, |f.locals|)
    ensures forall x :: x in intervals ==> x.start <= x.end
  {
    forall x | x in intervals ensures x.local < |f.locals| && x.start <= x.end {
      var i :| 0 <= i < |intervals| && intervals[i] == x;
      assert IsMark(f, order, |order|, x.local, x.start);
    }
  }
}
