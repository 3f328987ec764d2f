/**
 Frame numbers on the wire wrap; frames do not. Here the assembler is run twice
 over the same arrivals, once with unbounded frame numbers and `>` and once with
 32-bit ones and `SeqNewer`, and shown to do the same thing as long as every
 arriving number is within half a turn of the entries and the watermark it
 meets. What must never happen (a frame delivered twice, a retired frame
 revived) is then proved on the unbounded run.
 */
module AssemblerRuns {
  import opened Basics
  import opened Cyclic
  import opened FrameAssembler

  predicate Later(a: int, b: int) {
    a > b
  }

  // ----- Wrapping a table -----

  /** The frame numbers a table compares against: its entries and the watermark. */
  ghost function Ids(t: Table<int>): set<int> {
    t.pending.Keys + (if t.retired.Some? then {t.retired.value} else {})
  }

  ghost predicate AllNear(s: set<int>) {
    forall a, b :: a in s && b in s ==> Near(a, b)
  }

  ghost predicate NearAll(x: int, s: set<int>) {
    forall a :: a in s ==> Near(x, a)
  }

  ghost function WrapSet(s: set<int>): set<u32> {
    set a | a in s :: Wrap(a)
  }

  ghost function WrapMap(m: map<int, Pending>): map<u32, Pending>
    requires AllNear(m.Keys)
  {
    WrapsApart(m.Keys);
    map k | k in m :: Wrap(k) := m[k]
  }

  lemma WrapsApart(s: set<int>)
    requires AllNear(s)
    ensures forall a, b :: a in s && b in s && Wrap(a) == Wrap(b) ==> a == b
  {
    forall a, b | a in s && b in s
      ensures Wrap(a) == Wrap(b) <==> a == b
    {
      WrapInjective(a, b);
    }
  }

  ghost function WrapFrame(f: Assembled<int>): Assembled<u32> {
    Assembled(f.data, Wrap(f.frameId), f.timestampMs, f.isKey)
  }

  ghost function WrapFrames(fs: seq<Assembled<int>>): seq<Assembled<u32>> {
    seq(|fs|, i requires 0 <= i < |fs| => WrapFrame(fs[i]))
  }

  ghost function WrapTable(t: Table<int>): Table<u32>
    requires AllNear(Ids(t))
  {
    assert AllNear(t.pending.Keys);
    Table(WrapMap(t.pending),
          if t.retired.Some? then Some(Wrap(t.retired.value)) else None,
          WrapFrames(t.ready))
  }

  lemma WrapMapLookup(m: map<int, Pending>, k: int)
    requires AllNear(m.Keys + {k})
    ensures AllNear(m.Keys)
    ensures k in m <==> Wrap(k) in WrapMap(m)
    ensures k in m ==> WrapMap(m)[Wrap(k)] == m[k]
  {
    WrapsApart(m.Keys + {k});
    assert AllNear(m.Keys);
  }

  lemma WrapMapUpdate(m: map<int, Pending>, k: int, v: Pending)
    requires AllNear(m.Keys + {k})
    ensures AllNear(m.Keys) && AllNear(m[k := v].Keys)
    ensures WrapMap(m[k := v]) == WrapMap(m)[Wrap(k) := v]
  {
    WrapsApart(m.Keys + {k});
    assert AllNear(m.Keys);
    assert m[k := v].Keys == m.Keys + {k};
    hide Wrap, Near, AllNear;
    var l, r := WrapMap(m[k := v]), WrapMap(m)[Wrap(k) := v];
    assert l.Keys == r.Keys by {
      forall w: u32 | w in l
        ensures w in r
      {
        var j :| j in m[k := v] && Wrap(j) == w;
        assert j == k || j in m;
      }
      forall w: u32 | w in r
        ensures w in l
      {
        if w == Wrap(k) { assert k in m[k := v]; }
        else {
          var j :| j in m && Wrap(j) == w;
          assert j in m[k := v];
        }
      }
    }
  }

  lemma WrapMapRemove(m: map<int, Pending>, k: int)
    requires AllNear(m.Keys) && k in m
    ensures AllNear((m - {k}).Keys)
    ensures WrapMap(m - {k}) == WrapMap(m) - {Wrap(k)}
  {
    WrapsApart(m.Keys);
    assert (m - {k}).Keys <= m.Keys;
  }

  lemma {:induction false} WrapMapSize(m: map<int, Pending>)
    requires AllNear(m.Keys)
    ensures |WrapMap(m)| == |m|
    decreases |m|
  {
    hide *;
    assert |m.Keys| == |m|;
    if |m.Keys| != 0 {
      var k := AnElement(m.Keys);
      WrapMapRemove(m, k);
      WrapMapSize(m - {k});
      WrapMapHas(m, k);
      SizeWithout(m, k);
      SizeWithout(WrapMap(m), Wrap(k));
    } else {
      NoEntries(m);
      WrapMapOfNone();
    }
  }

  lemma NoEntries<K, V>(m: map<K, V>)
    requires |m.Keys| == 0
    ensures m == map[]
  {
  }

  lemma WrapMapHas(m: map<int, Pending>, k: int)
    requires AllNear(m.Keys) && k in m
    ensures Wrap(k) in WrapMap(m)
  {
  }

  lemma WrapMapOfNone()
    ensures WrapMap(map[]) == map[]
  {
  }

  lemma SizeWithout<K, V>(m: map<K, V>, k: K)
    requires k in m
    ensures |m| == |m - {k}| + 1
  {
    assert m == (m - {k})[k := m[k]];
  }

  // ----- One packet -----

  ghost predicate SameStep(wire: Step<u32>, ideal: Step<int>) {
    && AllNear(Ids(ideal.table))
    && wire == Step(WrapTable(ideal.table), ideal.verdict, ideal.evictedPartial)
  }

  lemma StoreWraps(t: Table<int>, id: int, f: Fragment, partial: bool)
    requires AllNear(Ids(t)) && id in t.pending && f.data.fragIndex < |t.pending[id].fragments|
    ensures Wrap(id) in WrapTable(t).pending && WrapTable(t).pending[Wrap(id)] == t.pending[id]
    ensures SameStep(Store(WrapTable(t), Wrap(id), f, partial), Store(t, id, f, partial))
  {
    hide Fill, Join;
    assert AllNear(t.pending.Keys + {id}) by { assert t.pending.Keys + {id} == t.pending.Keys; }
    WrapMapLookup(t.pending, id);
    var filled := Fill(t.pending[id], f);
    WrapMapUpdate(t.pending, id, filled);
    WrapMapUpdate(t.pending, id, filled.(completed := true, fragments := []));
    var after := Store(t, id, f, partial).table;
    assert after.pending.Keys == t.pending.Keys;
    assert WrapFrames(t.ready + [Finish(filled, id)]) == WrapFrames(t.ready) + [Finish(filled, Wrap(id))];
  }

  lemma OpenWraps(t: Table<int>, id: int, f: Fragment)
    requires AllNear(Ids(t)) && NearAll(id, Ids(t))
    ensures AllNear(Ids(Open(t, id, f)))
    ensures WrapTable(Open(t, id, f)) == Open(WrapTable(t), Wrap(id), f)
  {
    assert AllNear(t.pending.Keys + {id});
    WrapMapUpdate(t.pending, id, Blank(f.data.fragCount));
    assert Ids(Open(t, id, f)) == Ids(t) + {id};
  }

  lemma EvictWraps(t: Table<int>, victim: int)
    requires AllNear(Ids(t)) && victim in t.pending
    ensures AllNear(Ids(Evict(t, victim))) && Ids(Evict(t, victim)) <= Ids(t)
    ensures WrapTable(Evict(t, victim)) == Evict(WrapTable(t), Wrap(victim))
  {
    assert AllNear(t.pending.Keys);
    WrapMapRemove(t.pending, victim);
  }

  /** The 32-bit rules take the same branch as the unbounded ones. */
  lemma BranchWraps(t: Table<int>, max: nat, id: int, victim: int)
    requires AllNear(Ids(t)) && NearAll(id, Ids(t))
    requires |t.pending| >= max ==> victim in t.pending
    ensures BranchOf(SeqNewer, WrapTable(t), max, Wrap(id), Wrap(victim)) == BranchOf(Later, t, max, id, victim)
  {
    hide SeqNewer, Wrap;
    assert AllNear(t.pending.Keys + {id}) && AllNear(t.pending.Keys);
    WrapMapLookup(t.pending, id);
    WrapMapSize(t.pending);
    if t.retired.Some? { NewerMeansGreater(id, t.retired.value); }
    if |t.pending| >= max { NewerMeansGreater(id, victim); }
  }

  /** A packet for a frame that has an entry. */
  lemma HeldWraps(t: Table<int>, id: int, f: Fragment)
    requires ValidTable(t) && ValidFragment(f) && AllNear(Ids(t)) && ValidTable(WrapTable(t)) && id in t.pending
    ensures Wrap(id) in WrapTable(t).pending
    ensures SameStep(IntoHeld(WrapTable(t), Wrap(id), f), IntoHeld(t, id, f))
  {
    hide Store, Wrap;
    assert AllNear(t.pending.Keys + {id}) by { assert t.pending.Keys + {id} == t.pending.Keys; }
    WrapMapLookup(t.pending, id);
    if !t.pending[id].completed && t.pending[id].fragCount == f.data.fragCount { StoreWraps(t, id, f, false); }
  }

  /** A new entry. */
  lemma NewEntryWraps(t: Table<int>, id: int, f: Fragment, partial: bool)
    requires ValidTable(t) && ValidFragment(f) && AllNear(Ids(t)) && NearAll(id, Ids(t))
    ensures SameStep(Store(Open(WrapTable(t), Wrap(id), f), Wrap(id), f, partial), Store(Open(t, id, f), id, f, partial))
  {
    hide Store, Wrap, WrapTable, SameStep, AllNear, NearAll, Ids;
    OpenWraps(t, id, f);
    StoreWraps(Open(t, id, f), id, f, partial);
  }

  /** A new entry in place of the victim's. */
  lemma DisplacementWraps(t: Table<int>, id: int, f: Fragment, victim: int)
    requires ValidTable(t) && ValidFragment(f) && AllNear(Ids(t)) && NearAll(id, Ids(t)) && victim in t.pending
    ensures IsPartial(WrapTable(t), Wrap(victim)) == IsPartial(t, victim)
    ensures SameStep(Store(Open(Evict(WrapTable(t), Wrap(victim)), Wrap(id), f), Wrap(id), f, IsPartial(t, victim)),
                     Store(Open(Evict(t, victim), id, f), id, f, IsPartial(t, victim)))
  {
    hide Store, Open, Wrap, SameStep, Near;
    assert AllNear(t.pending.Keys + {victim}) by { assert t.pending.Keys + {victim} == t.pending.Keys; }
    WrapMapLookup(t.pending, victim);
    EvictWraps(t, victim);
    NewEntryWraps(Evict(t, victim), id, f, IsPartial(t, victim));
  }

  /** Wrapping is invisible to one packet. */
  lemma AcceptWraps(t: Table<int>, max: nat, id: int, f: Fragment, victim: int)
    requires ValidTable(t) && ValidFragment(f)
    requires AllNear(Ids(t)) && NearAll(id, Ids(t))
    requires |t.pending| >= max ==> victim in t.pending
    ensures ValidTable(WrapTable(t))
    ensures SameStep(Accept(SeqNewer, WrapTable(t), max, Wrap(id), f, Wrap(victim)),
                     Accept(Later, t, max, id, f, victim))
  {
    hide *;
    WrapKeepsValid(t);
    AcceptIs(SeqNewer, WrapTable(t), max, Wrap(id), f, Wrap(victim));
    AcceptIs(Later, t, max, id, f, victim);
    BranchWraps(t, max, id, victim);
    BranchMeans(Later, t, max, id, victim);
    match BranchOf(Later, t, max, id, victim)
    case Behind => UntouchedWraps(t, TooLate);
    case Older => UntouchedWraps(t, TooLate);
    case Held => HeldWraps(t, id, f);
    case Opens => NewEntryWraps(t, id, f, false);
    case Displaces => DisplacementWraps(t, id, f, victim);
  }

  lemma UntouchedWraps(t: Table<int>, v: Verdict)
    requires AllNear(Ids(t))
    ensures SameStep(Step(WrapTable(t), v, false), Step(t, v, false))
  {
  }

  lemma BranchMeans(newer: (int, int) -> bool, t: Table<int>, max: nat, id: int, victim: int)
    ensures var b := BranchOf(newer, t, max, id, victim);
      && (b.Held? ==> id in t.pending) && (b.Displaces? ==> |t.pending| >= max)
  {
  }

  lemma WrapKeepsValid(t: Table<int>)
    requires ValidTable(t) && AllNear(Ids(t))
    ensures ValidTable(WrapTable(t))
  {
    assert AllNear(t.pending.Keys);
    forall w | w in WrapMap(t.pending)
      ensures ValidPending(WrapMap(t.pending)[w])
    {
      var k :| k in t.pending && Wrap(k) == w;
    }
  }

  // ----- The oldest entry -----

  ghost predicate IsLeast(s: set<int>, x: int) {
    x in s && forall a :: a in s ==> x <= a
  }

  lemma {:induction false} LeastExists(s: set<int>, a: int) returns (x: int)
    requires a in s
    ensures IsLeast(s, x)
    decreases |s|
  {
    x := a;
    assert forall c :: c in s ==> c == a || c in s - {a};
    if b :| b in s - {a} {
      var y := LeastExists(s - {a}, b);
      if y < a { x := y; }
    }
  }

  ghost function Least(s: set<int>): (x: int)
    ensures s != {} ==> IsLeast(s, x)
  {
    if a :| a in s then
      assert exists x :: IsLeast(s, x) by { var x := LeastExists(s, a); }
      var x :| IsLeast(s, x); x
    else 0
  }

  /** Numbers close together are ordered by the cyclic test, and its oldest is their least. */
  lemma OldestIsLeast(s: set<int>)
    requires AllNear(s) && s != {}
    ensures Ordered(WrapSet(s))
    ensures forall v: u32 :: IsOldest(WrapSet(s), v) ==> v == Wrap(Least(s))
  {
    forall a, b | a in s && b in s
      ensures SeqNewer(Wrap(a), Wrap(b)) <==> a > b
    {
      NewerMeansGreater(a, b);
    }
    hide SeqNewer, Wrap;
    forall v: u32 | IsOldest(WrapSet(s), v)
      ensures v == Wrap(Least(s))
    {
      var a :| a in s && Wrap(a) == v;
      assert Wrap(Least(s)) in WrapSet(s);
    }
  }

  // ----- Runs -----

  datatype Arrival = Arrival(id: int, fragment: Fragment)

  ghost predicate ValidArrivals(arrivals: seq<Arrival>) {
    forall i :: 0 <= i < |arrivals| ==> ValidFragment(arrivals[i].fragment)
  }

  const FRESH: Table<int> := Table(map[], None, [])

  ghost function IdealStep(t: Table<int>, max: nat, a: Arrival): Step<int>
    requires ValidTable(t) && ValidFragment(a.fragment)
  {
    Accept(Later, t, max, a.id, a.fragment, Least(t.pending.Keys))
  }

  /** The unbounded run. `ready` is never popped, so it lists every frame delivered, in order. */
  ghost function Ideal(max: nat, arrivals: seq<Arrival>): (t: Table<int>)
    requires ValidArrivals(arrivals)
    ensures ValidTable(t)
  {
    if arrivals == [] then FRESH
    else
      var n := |arrivals| - 1;
      var before := Ideal(max, arrivals[..n]);
      AcceptKeepsValid(Later, before, max, arrivals[n].id, arrivals[n].fragment, Least(before.pending.Keys));
      IdealStep(before, max, arrivals[n]).table
  }

  /** The same arrivals as the class sees them: 32-bit numbers, and the oldest entry by its scan. */
  ghost function Wire(max: nat, arrivals: seq<Arrival>): (t: Table<u32>)
    requires ValidArrivals(arrivals)
    ensures ValidTable(t)
  {
    if arrivals == [] then Table(map[], None, [])
    else
      var n := |arrivals| - 1;
      var before, a := Wire(max, arrivals[..n]), arrivals[n];
      AcceptKeepsValid(SeqNewer, before, max, Wrap(a.id), a.fragment, SomeOldest(before.pending.Keys));
      Accept(SeqNewer, before, max, Wrap(a.id), a.fragment, SomeOldest(before.pending.Keys)).table
  }

  /** Each arriving number is within half a turn of every entry and the watermark it meets. */
  ghost predicate InWindow(max: nat, arrivals: seq<Arrival>)
    requires ValidArrivals(arrivals)
  {
    forall i :: 0 <= i < |arrivals| ==> NearAll(arrivals[i].id, Ids(Ideal(max, arrivals[..i])))
  }

  lemma InWindowPrefix(max: nat, arrivals: seq<Arrival>, n: nat)
    requires ValidArrivals(arrivals) && InWindow(max, arrivals) && n <= |arrivals|
    ensures InWindow(max, arrivals[..n])
  {
    forall i | 0 <= i < n
      ensures NearAll(arrivals[..n][i].id, Ids(Ideal(max, arrivals[..n][..i])))
    {
      assert arrivals[..n][..i] == arrivals[..i];
    }
  }

  /** The table never compares against a number that did not arrive. */
  lemma {:induction false} IdsFromArrivals(max: nat, arrivals: seq<Arrival>)
    requires ValidArrivals(arrivals) && max >= 1
    ensures forall w :: w in Ids(Ideal(max, arrivals)) ==> exists i :: 0 <= i < |arrivals| && arrivals[i].id == w
    decreases |arrivals|
  {
    hide IdealStep, Ids, Least;
    if arrivals == [] {
      assert Ids(Ideal(max, arrivals)) == {} by { NoIds(max); }
    } else {
      var n := |arrivals| - 1;
      var before := Ideal(max, arrivals[..n]);
      IdsFromArrivals(max, arrivals[..n]);
      IdsAfter(before, max, arrivals[n]);
      forall w | w in Ids(Ideal(max, arrivals))
        ensures exists i :: 0 <= i < |arrivals| && arrivals[i].id == w
      {
        if w != arrivals[n].id {
          var i :| 0 <= i < n && arrivals[..n][i].id == w;
          assert arrivals[i].id == w;
        }
      }
    }
  }

  lemma NoIds(max: nat)
    ensures Ids(Ideal(max, [])) == {}
  {
  }

  lemma IdsAfter(t: Table<int>, max: nat, a: Arrival)
    requires ValidTable(t) && ValidFragment(a.fragment) && max >= 1
    ensures Ids(IdealStep(t, max, a).table) <= Ids(t) + {a.id}
  {
    hide *;
    var id, f, victim := a.id, a.fragment, Least(t.pending.Keys);
    IdealStepIs(t, max, a);
    AcceptIs(Later, t, max, id, f, victim);
    BranchMeans(Later, t, max, id, victim);
    match BranchOf(Later, t, max, id, victim)
    case Held => HeldKeepsIds(t, id, f);
    case Opens => OpenIds(t, id, f, false);
    case Displaces =>
      assert |t.pending.Keys| == |t.pending|;
      LeastIs(t.pending.Keys);
      EvictIds(t, victim);
      OpenIds(Evict(t, victim), id, f, IsPartial(t, victim));
    case _ =>
  }

  lemma IdealStepIs(t: Table<int>, max: nat, a: Arrival)
    requires ValidTable(t) && ValidFragment(a.fragment)
    ensures IdealStep(t, max, a) == Accept(Later, t, max, a.id, a.fragment, Least(t.pending.Keys))
  {
    hide Accept, Least;
  }

  lemma HeldKeepsIds(t: Table<int>, id: int, f: Fragment)
    requires ValidTable(t) && ValidFragment(f) && id in t.pending
    ensures Ids(IntoHeld(t, id, f).table) == Ids(t)
  {
    hide Store, Ids;
    if !t.pending[id].completed && t.pending[id].fragCount == f.data.fragCount { StoreKeepsIds(t, id, f, false); }
  }

  lemma OpenIds(t: Table<int>, id: int, f: Fragment, partial: bool)
    requires ValidFragment(f)
    ensures id in Open(t, id, f).pending && f.data.fragIndex < |Open(t, id, f).pending[id].fragments|
    ensures Ids(Store(Open(t, id, f), id, f, partial).table) == Ids(t) + {id}
  {
    hide Store;
    StoreKeepsIds(Open(t, id, f), id, f, partial);
    assert Open(t, id, f).pending.Keys == t.pending.Keys + {id};
  }

  lemma EvictIds(t: Table<int>, victim: int)
    requires victim in t.pending
    ensures Ids(Evict(t, victim)) <= Ids(t)
  {
  }

  lemma StoreKeepsIds(t: Table<int>, id: int, f: Fragment, partial: bool)
    requires id in t.pending && f.data.fragIndex < |t.pending[id].fragments|
    ensures Ids(Store(t, id, f, partial).table) == Ids(t)
  {
    hide Fill, Join;
    assert Store(t, id, f, partial).table.pending.Keys == t.pending.Keys;
  }

  lemma LeastIs(keys: set<int>)
    requires |keys| > 0
    ensures Least(keys) in keys && forall w :: w in keys ==> Least(keys) <= w
  {
    hide Least;
    assert keys != {};
  }

  /** Over a whole run the 32-bit assembler is the unbounded one, seen through wrapping. */
  lemma {:induction false} WireRefinesIdeal(max: nat, arrivals: seq<Arrival>)
    requires ValidArrivals(arrivals) && InWindow(max, arrivals) && max >= 1
    ensures AllNear(Ids(Ideal(max, arrivals)))
    ensures Wire(max, arrivals) == WrapTable(Ideal(max, arrivals))
    decreases |arrivals|
  {
    if arrivals == [] {
      assert WrapMap(map[]) == map[];
    } else {
      var n := |arrivals| - 1;
      InWindowPrefix(max, arrivals, n);
      WireRefinesIdeal(max, arrivals[..n]);
      WireStep(Ideal(max, arrivals[..n]), max, arrivals[n]);
    }
  }

  lemma WireStep(t: Table<int>, max: nat, a: Arrival)
    requires ValidTable(t) && ValidFragment(a.fragment) && max >= 1
    requires AllNear(Ids(t)) && NearAll(a.id, Ids(t))
    ensures ValidTable(WrapTable(t))
    ensures SameStep(Accept(SeqNewer, WrapTable(t), max, Wrap(a.id), a.fragment, SomeOldest(WrapTable(t).pending.Keys)),
                     IdealStep(t, max, a))
  {
    hide *;
    var keys, least := t.pending.Keys, Least(t.pending.Keys);
    assert |keys| == |t.pending|;
    if |keys| != 0 { LeastIs(keys); }
    AcceptWraps(t, max, a.id, a.fragment, least);
    IdealStepIs(t, max, a);
    if |keys| != 0 {
      ScanIsLeast(t);
    } else {
      NothingToEvict(t, max, Wrap(a.id), a.fragment, Wrap(least), SomeOldest(WrapTable(t).pending.Keys));
    }
  }

  lemma ScanIsLeast(t: Table<int>)
    requires AllNear(Ids(t)) && |t.pending.Keys| != 0
    ensures SomeOldest(WrapTable(t).pending.Keys) == Wrap(Least(t.pending.Keys))
  {
    hide Wrap, Least, Near;
    var keys := t.pending.Keys;
    assert AllNear(keys);
    assert WrapTable(t).pending.Keys == WrapSet(keys);
    var k := AnElement(keys);
    assert Wrap(k) in WrapSet(keys);
    OldestIsLeast(keys);
  }

  lemma NothingToEvict(t: Table<int>, max: nat, id: u32, f: Fragment, v: u32, w: u32)
    requires ValidTable(t) && ValidFragment(f) && AllNear(Ids(t)) && |t.pending| == 0 < max && ValidTable(WrapTable(t))
    ensures Accept(SeqNewer, WrapTable(t), max, id, f, v) == Accept(SeqNewer, WrapTable(t), max, id, f, w)
  {
    hide WrapTable, Store, SeqNewer;
    NothingWrapped(t);
  }

  lemma NothingWrapped(t: Table<int>)
    requires AllNear(Ids(t)) && |t.pending| == 0
    ensures |WrapTable(t).pending| == 0
  {
    hide Wrap, Near;
    assert AllNear(t.pending.Keys);
    WrapMapSize(t.pending);
  }

  // ----- What a run guarantees -----

  ghost predicate DistinctIds(fs: seq<Assembled<int>>) {
    forall i, j :: 0 <= i < j < |fs| ==> fs[i].frameId != fs[j].frameId
  }

  /** Delivered for good: behind the watermark, or kept out by a tombstone. */
  ghost predicate Closed(t: Table<int>, id: int) {
    (t.retired.Some? && id <= t.retired.value) || (id in t.pending && t.pending[id].completed)
  }

  ghost predicate Sound(t: Table<int>, max: nat) {
    && ValidTable(t)
    && |t.pending| <= max
    && (t.retired.Some? ==> forall k :: k in t.pending ==> k > t.retired.value)
    && DistinctIds(t.ready)
    && (forall i :: 0 <= i < |t.ready| ==> Closed(t, t.ready[i].frameId))
  }

  /** What one step may do to a sound table: it grows the delivered list by at most the arriving
      frame, which was open, reopens nothing, and never moves the watermark back. */
  ghost predicate Advances(t: Table<int>, u: Table<int>, id: int) {
    && (t.retired.Some? ==> u.retired.Some? && u.retired.value >= t.retired.value)
    && (forall k :: Closed(t, k) ==> Closed(u, k))
    && (u.ready == t.ready
        || (!Closed(t, id) && exists f: Assembled<int> :: f.frameId == id && u.ready == t.ready + [f]))
  }

  lemma StoreIsSound(t: Table<int>, max: nat, id: int, f: Fragment, partial: bool)
    requires Sound(t, max) && id in t.pending && f.data.fragIndex < |t.pending[id].fragments|
    requires !Closed(t, id)
    ensures Sound(Store(t, id, f, partial).table, max) && Advances(t, Store(t, id, f, partial).table, id)
  {
    hide Fill, Join;
    StoreKeepsValid(t, id, f, partial);
    var u := Store(t, id, f, partial).table;
    assert u.pending.Keys == t.pending.Keys;
    if u.ready != t.ready {
      var done := Finish(Fill(t.pending[id], f), id);
      assert u.ready == t.ready + [done] && done.frameId == id;
    }
  }

  lemma OpenIsSound(t: Table<int>, max: nat, id: int, f: Fragment)
    requires Sound(t, max) && id !in t.pending && |t.pending| < max && !Closed(t, id)
    ensures Sound(Open(t, id, f), max) && Advances(t, Open(t, id, f), id) && !Closed(Open(t, id, f), id)
  {
  }

  lemma EvictIsSound(t: Table<int>, max: nat, id: int)
    requires Sound(t, max) && t.pending != map[] && id > Least(t.pending.Keys) && id !in t.pending
    ensures var u := Evict(t, Least(t.pending.Keys));
      Sound(u, max) && |u.pending| < |t.pending| && Advances(t, u, id) && !Closed(u, id)
  {
    var k := Least(t.pending.Keys);
    var u := Evict(t, k);
    assert u.pending.Keys == t.pending.Keys - {k};
    assert t.pending == u.pending[k := t.pending[k]];
  }

  lemma AdvancesChain(t: Table<int>, u: Table<int>, v: Table<int>, id: int)
    requires Advances(t, u, id) && Advances(u, v, id) && u.ready == t.ready
    ensures Advances(t, v, id)
  {
  }

  /** One packet keeps a table sound and only ever advances it. */
  lemma StepIsSound(t: Table<int>, max: nat, a: Arrival)
    requires Sound(t, max) && ValidFragment(a.fragment) && max >= 1
    ensures Sound(IdealStep(t, max, a).table, max)
    ensures Advances(t, IdealStep(t, max, a).table, a.id)
  {
    hide Sound, Advances, Store, Open, Evict;
    var id, f, victim := a.id, a.fragment, Least(t.pending.Keys);
    SoundFacts(t, max);
    var u := IdealStep(t, max, a).table;
    Stays(t, id);
    if t.retired.Some? && !Later(id, t.retired.value) {
    } else if id in t.pending {
      if !t.pending[id].completed && t.pending[id].fragCount == f.data.fragCount {
        StoreIsSound(t, max, id, f, false);
      }
    } else if |t.pending| >= max {
      if Later(id, victim) {
        var e := Evict(t, victim);
        EvictIsSound(t, max, id);
        assert id !in e.pending by { EvictKeeps(t, victim); }
        OpenThenStore(e, max, id, f, !t.pending[victim].completed);
        assert e.ready == t.ready by { EvictKeeps(t, victim); }
        AdvancesChain(t, e, u, id);
      }
    } else {
      OpenThenStore(t, max, id, f, false);
    }
  }

  lemma SoundFacts(t: Table<int>, max: nat)
    requires Sound(t, max)
    ensures ValidTable(t) && |t.pending| <= max
    ensures |t.pending| >= max >= 1 ==> t.pending != map[]
  {
  }

  lemma Stays(t: Table<int>, id: int)
    ensures Advances(t, t, id)
  {
  }

  lemma EvictKeeps(t: Table<int>, victim: int)
    ensures Evict(t, victim).ready == t.ready && Evict(t, victim).pending.Keys == t.pending.Keys - {victim}
  {
  }

  lemma OpenThenStore(t: Table<int>, max: nat, id: int, f: Fragment, partial: bool)
    requires Sound(t, max) && id !in t.pending && |t.pending| < max && !Closed(t, id) && ValidFragment(f)
    ensures id in Open(t, id, f).pending && f.data.fragIndex < |Open(t, id, f).pending[id].fragments|
    ensures var u := Store(Open(t, id, f), id, f, partial).table;
      Sound(u, max) && Advances(t, u, id)
  {
    hide Store, Sound, Advances;
    OpenIsSound(t, max, id, f);
    StoreIsSound(Open(t, id, f), max, id, f, partial);
    AdvancesChain(t, Open(t, id, f), Store(Open(t, id, f), id, f, partial).table, id);
  }

  /** At most once, whatever arrives: no frame number is delivered twice, a retired one is never
      revived, the table stays within its bound and ahead of the watermark. */
  lemma {:induction false} RunIsSound(max: nat, arrivals: seq<Arrival>)
    requires ValidArrivals(arrivals) && max >= 1
    ensures Sound(Ideal(max, arrivals), max)
    decreases |arrivals|
  {
    if arrivals != [] {
      var n := |arrivals| - 1;
      RunIsSound(max, arrivals[..n]);
      StepIsSound(Ideal(max, arrivals[..n]), max, arrivals[n]);
    }
  }

  /** The guarantees, read off the 32-bit run: its delivered frames are the unbounded run's, no two of
      which are the same frame; the table is bounded; every entry is newer than the watermark. */
  lemma AtMostOnce(max: nat, arrivals: seq<Arrival>)
    requires ValidArrivals(arrivals) && InWindow(max, arrivals) && max >= 1
    ensures var wire, ideal := Wire(max, arrivals), Ideal(max, arrivals);
      && wire.ready == WrapFrames(ideal.ready) && DistinctIds(ideal.ready)
      && |wire.pending| <= max
      && (wire.retired.Some? ==> forall k :: k in wire.pending ==> SeqNewer(k, wire.retired.value))
  {
    hide SeqNewer;
    var t, wire := Ideal(max, arrivals), Wire(max, arrivals);
    WireRefinesIdeal(max, arrivals);
    RunIsSound(max, arrivals);
    assert AllNear(t.pending.Keys);
    WrapMapSize(t.pending);
    if wire.retired.Some? {
      forall w: u32 | w in wire.pending
        ensures SeqNewer(w, wire.retired.value)
      {
        var k :| k in t.pending && Wrap(k) == w;
        NewerMeansGreater(k, t.retired.value);
      }
    }
  }

  /** The scan of the class cannot answer differently from the one in `Wire`. */
  lemma ScanIsDetermined(s: set<int>, v: u32)
    requires AllNear(s) && s != {} && IsOldest(WrapSet(s), v)
    ensures v == SomeOldest(WrapSet(s))
  {
    OldestIsLeast(s);
    assert WrapSet(s) != {};
  }

  /** Within the window the scan always has an answer. */
  lemma KeysAreOrdered(t: Table<int>)
    requires AllNear(Ids(t))
    ensures Ordered(WrapTable(t).pending.Keys)
  {
    var keys := t.pending.Keys;
    assert AllNear(keys);
    assert WrapTable(t).pending.Keys == WrapSet(keys);
    if keys != {} { OldestIsLeast(keys); }
  }

  /** Outside the window the question has no answer: three entries, none of them the oldest. */
  lemma NoOldestOutsideWindow()
    ensures forall v: u32 :: !IsOldest({0, 0x6000_0000, 0xC000_0000}, v)
  {
    var keys: set<u32> := {0, 0x6000_0000, 0xC000_0000};
    assert !SeqNewer(0xC000_0000, 0) && !SeqNewer(0, 0x6000_0000) && !SeqNewer(0x6000_0000, 0xC000_0000);
  }
}
