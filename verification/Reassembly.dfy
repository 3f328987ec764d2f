/**
 Reassembly over whole streams: any interleaving, with repetitions and with originals
 mixed with retransmissions, of the fragments of a stream of any length. The table keeps
 the newest frames it has seen; a frame is delivered, once and with its own bytes, if
 and only if each of its fragments came while it was among them.

 The work is done on unbounded frame numbers and carried to the 32-bit table by
 `AssemblerRuns.WireRefinesIdeal`.
 */
module Reassembly {
  import opened Basics
  import opened Cyclic
  import opened Packet
  import opened Packetizer
  import opened FrameAssembler
  import opened FecRecovery
  import opened Newest
  import AR = AssemblerRuns

  /** A received copy of fragment `frag` of frame number `frame` of the stream. */
  datatype Item = Item(frame: nat, frag: nat, retransmitted: bool)

  function Number(s: Sent): int {
    s.frame.frameId
  }

  function Id(s: Sent): u32 {
    Wrap(Number(s))
  }

  /** Frames with different numbers. */
  ghost predicate ValidStream(stream: seq<Sent>) {
    && (forall k :: 0 <= k < |stream| ==> stream[k].Valid())
    && (forall j, k :: 0 <= j < k < |stream| ==> Number(stream[j]) != Number(stream[k]))
  }

  predicate ValidItem(stream: seq<Sent>, x: Item) {
    x.frame < |stream| && x.frag < stream[x.frame].Count()
  }

  ghost predicate ValidItems(stream: seq<Sent>, items: seq<Item>) {
    forall n :: 0 <= n < |items| ==> ValidItem(stream, items[n])
  }

  function Image(stream: seq<Sent>, x: Item): Bytes
    requires ValidItem(stream, x) && stream[x.frame].Valid()
  {
    stream[x.frame].Copy(x.frag, x.retransmitted)
  }

  /** The frame as it should be delivered, under number `id`. */
  function Named<K>(s: Sent, id: K): Assembled<K> {
    Assembled(s.frame.data, id, Wrap(s.frame.captureMs), s.frame.isKey)
  }

  /** ... its unbounded number, and the one on the wire. */
  function WholeFrame(s: Sent): Assembled<int> {
    Named(s, Number(s))
  }

  ghost function Whole(s: Sent): Assembled<u32> {
    AR.WrapFrame(WholeFrame(s))
  }

  function AsFragment(s: Sent, i: nat, r: bool): Fragment
    requires s.Valid() && i < s.Count()
  {
    Fragment(s.Data(i, r), Wrap(s.frame.captureMs), Payload(s.frame, i))
  }

  lemma CopyReads(s: Sent, i: nat, r: bool)
    requires s.Valid() && i < s.Count()
    ensures ReadDatagram(s.Copy(i, r)) == Read(Wrap(s.base + i), AsFragment(s, i, r))
  {
    hide DataImage, Payload, ParsePacketHeader, ParseDataHeader;
    DataImageRoundTrip(FragmentHeader(s.streamId, Wrap(s.base + i), s.frame), s.Data(i, r), Payload(s.frame, i));
  }

  // ----- One frame's row -----

  ghost function All(n: nat): (s: set<nat>)
    ensures |s| == n && forall i :: i in s <==> 0 <= i < n
  {
    Upto(n)
  }

  /** The row of a frame of which fragments `got` have arrived, not all of them. */
  ghost predicate Collecting(p: Pending, s: Sent, got: set<nat>)
    requires s.Valid()
  {
    && !p.completed && p.fragCount == s.Count() && |p.fragments| == s.Count() && p.received == |got|
    && (forall i :: 0 <= i < s.Count() ==> p.fragments[i] == if i in got then Payload(s.frame, i) else [])
    && (got != {} ==> p.timestampMs == Wrap(s.frame.captureMs) && p.isKey == s.frame.isKey)
  }

  ghost predicate Row(p: Pending, s: Sent, got: set<nat>)
    requires s.Valid()
  {
    if |got| == s.Count() then p.completed else Collecting(p, s, got)
  }

  lemma BlankCollects(s: Sent)
    requires s.Valid()
    ensures Collecting(Blank(s.Count()), s, {})
  {
  }

  lemma KeyBit(isKey: bool, r: bool)
    ensures Flags(isKey, r) % 2 == 1 <==> isKey
  {
  }

  lemma FillCollects(p: Pending, s: Sent, got: set<nat>, i: nat, r: bool)
    requires s.Valid() && Collecting(p, s, got) && i < s.Count() && i !in got
    ensures Collecting(Fill(p, AsFragment(s, i, r)), s, got + {i})
  {
    hide Payload;
    KeyBit(s.frame.isKey, r);
    if p.received == 0 { assert got == {}; }
  }

  lemma {:induction false} JoinPayloads(fs: seq<Bytes>, s: Sent)
    requires s.Valid() && |fs| <= s.Count()
    requires forall i :: 0 <= i < |fs| ==> fs[i] == Payload(s.frame, i)
    ensures Join(fs) == Joined(s.frame, |fs|)
    decreases |fs|
  {
    hide Payload;
    if fs != [] { JoinPayloads(fs[..|fs| - 1], s); }
  }

  lemma FullBySize(got: set<nat>, n: nat)
    requires got <= All(n)
    ensures |got| == n <==> got == All(n)
  {
    if got != All(n) {
      var i :| i in All(n) && i !in got;
      SubsetSmaller(got + {i}, All(n));
    }
  }

  /** Once every fragment is in, the row holds the frame. */
  lemma FullRowFinishes<K>(p: Pending, s: Sent, got: set<nat>, id: K)
    requires s.Valid() && Collecting(p, s, got) && got <= All(s.Count()) && |got| == s.Count()
    ensures p.received == p.fragCount && Finish(p, id) == Named(s, id)
  {
    hide Payload;
    FullBySize(got, s.Count());
    assert 0 in got;
    JoinPayloads(p.fragments, s);
    JoinedIsFrame(s.frame);
  }

  // ----- What has come in time -----

  /** The numbers of the frames of which some fragment has come. */
  ghost function Numbers(stream: seq<Sent>, items: seq<Item>): set<int>
    requires ValidItems(stream, items)
  {
    if items == [] then {}
    else Numbers(stream, items[..|items| - 1]) + {Number(stream[items[|items| - 1].frame])}
  }

  /** A fragment of frame `k` that comes next is in time: fewer than `max` newer frames have been seen. */
  ghost predicate InTime(max: nat, stream: seq<Sent>, items: seq<Item>, k: nat)
    requires ValidItems(stream, items) && k < |stream|
  {
    |Above(Numbers(stream, items), Number(stream[k]))| < max
  }

  /** The fragments of frame `k` that have come in time. */
  ghost function Got(max: nat, stream: seq<Sent>, items: seq<Item>, k: nat): set<nat>
    requires ValidItems(stream, items) && k < |stream|
  {
    if items == [] then {}
    else
      var front, x := items[..|items| - 1], items[|items| - 1];
      Got(max, stream, front, k) + if x.frame == k && InTime(max, stream, front, k) then {x.frag} else {}
  }

  lemma {:induction false} GotInRange(max: nat, stream: seq<Sent>, items: seq<Item>, k: nat)
    requires ValidItems(stream, items) && k < |stream|
    ensures Got(max, stream, items, k) <= All(stream[k].Count())
  {
    hide FragmentCount, InTime;
    if items != [] { GotInRange(max, stream, items[..|items| - 1], k); }
  }

  /** Some copy of fragment `i` of frame `k` came in time. */
  ghost predicate FragmentInTime(max: nat, stream: seq<Sent>, items: seq<Item>, k: nat, i: nat)
    requires ValidItems(stream, items) && k < |stream|
  {
    exists n :: 0 <= n < |items| && items[n].frame == k && items[n].frag == i && InTime(max, stream, items[..n], k)
  }

  /** A fragment is in exactly if some copy of it came in time. */
  lemma {:induction false} GotMeans(max: nat, stream: seq<Sent>, items: seq<Item>, k: nat, i: nat)
    requires ValidItems(stream, items) && k < |stream|
    ensures i in Got(max, stream, items, k) <==> FragmentInTime(max, stream, items, k, i)
  {
    hide InTime, FragmentCount;
    if items != [] {
      var n := |items| - 1;
      var front := items[..n];
      GotMeans(max, stream, front, k, i);
      assert forall m :: 0 <= m <= n ==> front[..m] == items[..m];
      if i in Got(max, stream, front, k) {
        var m :| 0 <= m < n && front[m].frame == k && front[m].frag == i && InTime(max, stream, front[..m], k);
        assert items[m].frame == k && InTime(max, stream, items[..m], k);
      }
      if m :| 0 <= m < n && items[m].frame == k && items[m].frag == i && InTime(max, stream, items[..m], k) {
        assert front[m].frame == k && InTime(max, stream, front[..m], k);
      }
    }
  }

  /** For every frame of the stream, the fragments of it that have come in time. */
  ghost function Gots(max: nat, stream: seq<Sent>, items: seq<Item>): (gs: seq<set<nat>>)
    requires ValidItems(stream, items)
    ensures |gs| == |stream|
  {
    seq(|stream|, k requires 0 <= k < |stream| => Got(max, stream, items, k))
  }

  /** The frame `k` is completed by fragment `i`, and delivered because of it. */
  ghost predicate Completes(stream: seq<Sent>, gs: seq<set<nat>>, k: nat, i: nat)
    requires k < |stream| == |gs|
  {
    !Full(stream, gs, k) && Full(stream, Grow(gs, k, i), k)
  }

  ghost function Grow(gs: seq<set<nat>>, k: nat, i: nat): (r: seq<set<nat>>)
    requires k < |gs|
    ensures |r| == |gs|
  {
    gs[k := gs[k] + {i}]
  }

  /** What one more fragment adds. */
  ghost function Added(max: nat, seen: set<int>, stream: seq<Sent>, gs: seq<set<nat>>, x: Item): (r: seq<set<nat>>)
    requires x.frame < |stream| == |gs|
    ensures |r| == |gs|
  {
    if |Above(seen, Number(stream[x.frame]))| < max then Grow(gs, x.frame, x.frag) else gs
  }

  lemma GotsMore(max: nat, stream: seq<Sent>, items: seq<Item>)
    requires ValidItems(stream, items) && items != []
    ensures var front, x := items[..|items| - 1], items[|items| - 1];
      Gots(max, stream, items) == Added(max, Numbers(stream, front), stream, Gots(max, stream, front), x)
  {
    hide FragmentCount, Numbers;
    var front, x := items[..|items| - 1], items[|items| - 1];
    var gs, more := Gots(max, stream, front), Added(max, Numbers(stream, front), stream, Gots(max, stream, front), x);
    forall k | 0 <= k < |stream|
      ensures Gots(max, stream, items)[k] == more[k]
    {
      assert gs[k] + {} == gs[k];
    }
  }

  // ----- The table -----

  /** Which fragments of which frame are in: one set per frame, within that frame's range. */
  ghost predicate ValidGots(stream: seq<Sent>, gs: seq<set<nat>>) {
    |gs| == |stream| && forall k :: 0 <= k < |stream| ==> gs[k] <= All(stream[k].Count())
  }

  ghost predicate Full(stream: seq<Sent>, gs: seq<set<nat>>, k: nat)
    requires k < |stream| == |gs|
  {
    |gs[k]| == stream[k].Count()
  }

  /** The table holds the `max` newest frames seen, each with what came of it in time; what was evicted is
      older than all of them. */
  ghost predicate Rows(t: Table<int>, stream: seq<Sent>, max: nat, seen: set<int>, gs: seq<set<nat>>)
    requires ValidStream(stream) && |gs| == |stream|
  {
    && IsNewest(seen, t.pending.Keys, max)
    && (t.retired.Some? ==> |t.pending| == max && forall w :: w in t.pending ==> w > t.retired.value)
    && (forall k :: 0 <= k < |stream| && gs[k] != {} ==> Number(stream[k]) in seen)
    && (forall k :: 0 <= k < |stream| && Number(stream[k]) in t.pending ==>
          gs[k] != {} && Row(t.pending[Number(stream[k])], stream[k], gs[k]))
  }

  /** Frame `k`'s row changes, other rows may go. */
  lemma RowsAfter(t: Table<int>, u: Table<int>, stream: seq<Sent>, max: nat, seen: set<int>, gs: seq<set<nat>>, k: nat, i: nat)
    requires ValidStream(stream) && |gs| == |stream| && Rows(t, stream, max, seen, gs) && k < |stream|
    requires var x := Number(stream[k]);
      && x in u.pending && Row(u.pending[x], stream[k], gs[k] + {i})
      && (forall w :: w in u.pending && w != x ==> w in t.pending && u.pending[w] == t.pending[w])
      && IsNewest(seen + {x}, u.pending.Keys, max)
    requires u.retired.Some? ==> |u.pending| == max && forall w :: w in u.pending ==> w > u.retired.value
    ensures Rows(u, stream, max, seen + {Number(stream[k])}, Grow(gs, k, i))
  {
    hide Row, IsNewest, Number;
  }

  /** A fragment not seen before goes into its frame's row, or completes the frame. */
  lemma SlotFills<K>(t: Table<K>, id: K, s: Sent, got: set<nat>, i: nat, r: bool, partial: bool)
    requires s.Valid() && i < s.Count() && i !in got && got <= All(s.Count())
    requires id in t.pending && Collecting(t.pending[id], s, got)
    ensures AsFragment(s, i, r).data.fragIndex < |t.pending[id].fragments|
    ensures var u := Store(t, id, AsFragment(s, i, r), partial).table;
      && u.retired == t.retired && id in u.pending && u.pending == t.pending[id := u.pending[id]]
      && Row(u.pending[id], s, got + {i})
      && u.ready == t.ready + if |got + {i}| == s.Count() then [Named(s, id)] else []
  {
    hide *;
    var f, more := AsFragment(s, i, r), got + {i};
    IndexIs(s, i, r);
    SlotEmpty(t.pending[id], s, got, i);
    var filled := Fill(t.pending[id], f);
    StoreCases(t, id, f, partial);
    FillCollects(t.pending[id], s, got, i, r);
    CollectingMeans(filled, s, more);
    RowMeans(filled, s, more);
    if |more| == s.Count() {
      InRange(more, got, i, s.Count());
      FullRowFinishes(filled, s, more, id);
    } else {
      assert t.ready + [] == t.ready;
    }
  }

  lemma IndexIs(s: Sent, i: nat, r: bool)
    requires s.Valid() && i < s.Count()
    ensures AsFragment(s, i, r).data.fragIndex == i
  {
  }

  lemma StoreFills(t: Table<int>, stream: seq<Sent>, gs: seq<set<nat>>, k: nat, i: nat, r: bool, partial: bool)
    requires ValidStream(stream) && |gs| == |stream| && ValidGots(stream, gs) && k < |stream| && i < stream[k].Count()
    requires stream[k].Valid() && Number(stream[k]) in t.pending
    requires i !in gs[k] && Collecting(t.pending[Number(stream[k])], stream[k], gs[k])
    ensures AsFragment(stream[k], i, r).data.fragIndex < |t.pending[Number(stream[k])].fragments|
    ensures var x := Number(stream[k]); var u := Store(t, x, AsFragment(stream[k], i, r), partial).table;
      && u.retired == t.retired && x in u.pending && u.pending == t.pending[x := u.pending[x]]
      && Row(u.pending[x], stream[k], gs[k] + {i})
      && u.ready == t.ready + if Completes(stream, gs, k, i) then [WholeFrame(stream[k])] else []
  {
    hide *;
    GotsBound(stream, gs, k);
    SlotFills(t, Number(stream[k]), stream[k], gs[k], i, r, partial);
    CompletesMeans(stream, gs, k, i);
    WholeFrameIs(stream[k]);
  }

  lemma WholeFrameIs(s: Sent)
    ensures WholeFrame(s) == Named(s, Number(s))
  {
  }

  lemma SlotEmpty(p: Pending, s: Sent, got: set<nat>, i: nat)
    requires s.Valid() && Collecting(p, s, got) && i < s.Count() && i !in got
    ensures |p.fragments| == s.Count() && p.fragments[i] == []
  {
  }

  lemma GotsBound(stream: seq<Sent>, gs: seq<set<nat>>, k: nat)
    requires ValidGots(stream, gs) && k < |stream|
    ensures gs[k] <= All(stream[k].Count())
  {
  }

  lemma CompletesMeans(stream: seq<Sent>, gs: seq<set<nat>>, k: nat, i: nat)
    requires ValidGots(stream, gs) && k < |stream| && i !in gs[k] && i < stream[k].Count()
    ensures Completes(stream, gs, k, i) <==> |gs[k] + {i}| == stream[k].Count()
  {
    assert |gs[k] + {i}| == |gs[k]| + 1;
  }

  lemma RowMeans(p: Pending, s: Sent, got: set<nat>)
    requires s.Valid() && Collecting(p, s, got)
    ensures Row(if p.received == p.fragCount then p.(completed := true, fragments := []) else p, s, got)
  {
  }

  /** A first copy of a fragment either stays in its row or delivers the frame. */
  lemma StoreCases<K>(t: Table<K>, id: K, f: Fragment, partial: bool)
    requires id in t.pending && f.data.fragIndex < |t.pending[id].fragments|
    requires t.pending[id].fragments[f.data.fragIndex] == []
    ensures var u, filled := Store(t, id, f, partial).table, Fill(t.pending[id], f);
      && u.retired == t.retired
      && u.pending == t.pending[id := if filled.received == filled.fragCount then filled.(completed := true, fragments := []) else filled]
      && u.ready == if filled.received == filled.fragCount then t.ready + [Finish(filled, id)] else t.ready
  {
    hide Fill, Join;
  }

  lemma InRange(got: set<nat>, before: set<nat>, i: nat, n: nat)
    requires before <= All(n) && i < n && got == before + {i}
    ensures got <= All(n)
  {
  }

  lemma CollectingMeans(p: Pending, s: Sent, got: set<nat>)
    requires s.Valid() && Collecting(p, s, got)
    ensures p.received == |got| && p.fragCount == s.Count() && !p.completed
  {
  }

  lemma StreamFacts(stream: seq<Sent>, k: nat, i: nat, r: bool)
    requires ValidStream(stream) && k < |stream| && i < stream[k].Count()
    ensures stream[k].Valid()
    ensures ValidFragment(AsFragment(stream[k], i, r))
    ensures AsFragment(stream[k], i, r).data.fragIndex == i && AsFragment(stream[k], i, r).data.fragCount == stream[k].Count()
  {
  }

  /** What the row of frame `k` says about fragment `i`. */
  lemma RowFacts(t: Table<int>, stream: seq<Sent>, max: nat, seen: set<int>, gs: seq<set<nat>>, k: nat, i: nat)
    requires ValidStream(stream) && ValidGots(stream, gs) && k < |stream| && i < stream[k].Count()
    requires Rows(t, stream, max, seen, gs) && Number(stream[k]) in t.pending
    ensures stream[k].Valid() && gs[k] != {} && Number(stream[k]) in seen
    ensures t.pending == t.pending[Number(stream[k]) := t.pending[Number(stream[k])]]
    ensures var p := t.pending[Number(stream[k])];
      && Row(p, stream[k], gs[k])
      && (i in gs[k] ==> p.completed || (p.fragCount == stream[k].Count() == |p.fragments| && p.fragments[i] != []))
      && (i !in gs[k] ==> !p.completed && p.fragCount == stream[k].Count() && Collecting(p, stream[k], gs[k]))
  {
    FullBySize(gs[k], stream[k].Count());
    hide Payload, FragmentCount, IsNewest;
  }

  lemma OpenFacts(t: Table<int>, s: Sent, i: nat, r: bool)
    requires s.Valid() && i < s.Count()
    ensures var o := Open(t, Number(s), AsFragment(s, i, r));
      && o.retired == t.retired && o.ready == t.ready && Number(s) in o.pending
      && o.pending == t.pending[Number(s) := o.pending[Number(s)]]
      && Collecting(o.pending[Number(s)], s, {})
  {
    BlankCollects(s);
    hide Payload, FragmentCount, Wrap, Collecting;
  }

  lemma SameGots(stream: seq<Sent>, gs: seq<set<nat>>, k: nat, i: nat)
    requires k < |stream| == |gs| && i in gs[k]
    ensures Grow(gs, k, i) == gs && !Completes(stream, gs, k, i)
  {
    assert gs[k] + {i} == gs[k];
  }

  // ----- One more packet, by the branches of the admission rules -----

  ghost predicate Step(t: Table<int>, u: Table<int>, stream: seq<Sent>, max: nat, seen: set<int>, gs: seq<set<nat>>, x: Item)
    requires ValidStream(stream) && |gs| == |stream| && x.frame < |stream|
  {
    var live := |Above(seen, Number(stream[x.frame]))| < max;
    && Rows(u, stream, max, seen + {Number(stream[x.frame])}, Added(max, seen, stream, gs, x))
    && u.ready == t.ready + if live && Completes(stream, gs, x.frame, x.frag) then [WholeFrame(stream[x.frame])] else []
  }

  /** Too late: older than everything held, with no room left. */
  lemma OldIsIgnored(t: Table<int>, stream: seq<Sent>, max: nat, seen: set<int>, gs: seq<set<nat>>, x: Item)
    requires ValidStream(stream) && |gs| == |stream| && Rows(t, stream, max, seen, gs) && x.frame < |stream|
    requires |t.pending| == max && forall w :: w in t.pending ==> Number(stream[x.frame]) < w
    ensures Step(t, t, stream, max, seen, gs, x)
  {
    hide Row, Number, IsNewest, Above, Completes;
    var id, keys := Number(stream[x.frame]), t.pending.Keys;
    assert |keys| == |t.pending|;
    AddOld(seen, keys, max, id);
    NewestByCount(seen + {id}, keys, max, id);
    AboveOfMore(seen, id);
    assert t.ready + [] == t.ready;
  }

  /** The frame has a row. */
  lemma HeldIsStored(t: Table<int>, stream: seq<Sent>, max: nat, seen: set<int>, gs: seq<set<nat>>, x: Item)
    requires ValidStream(stream) && |gs| == |stream| && ValidGots(stream, gs) && ValidItem(stream, x)
    requires Rows(t, stream, max, seen, gs) && Number(stream[x.frame]) in t.pending
    requires stream[x.frame].Valid() && ValidTable(t) && ValidFragment(AsItsFragment(stream, x))
    ensures Step(t, IntoHeld(t, Number(stream[x.frame]), AsItsFragment(stream, x)).table, stream, max, seen, gs, x)
  {
    hide *;
    ItemFacts(stream, x);
    var k, i, r := x.frame, x.frag, x.retransmitted;
    var s, id, f := stream[k], Number(stream[k]), AsItsFragment(stream, x);
    StreamFacts(stream, k, i, r);
    ItsFragment(stream, x);
    RowFacts(t, stream, max, seen, gs, k, i);
    RowsAreNewest(t, stream, max, seen, gs);
    NewestByCount(seen, t.pending.Keys, max, id);
    assert seen + {id} == seen;
    HeldCases(t, id, f);
    if i in gs[k] {
      SameGots(stream, gs, k, i);
      StepIs(t, t, stream, max, seen, gs, x);
      assert t.ready + [] == t.ready;
    } else {
      StoreFills(t, stream, gs, k, i, r, false);
      var u := Store(t, id, f, false).table;
      assert u.pending.Keys == t.pending.Keys;
      RowsAfter(t, u, stream, max, seen, gs, k, i);
      StepIs(t, u, stream, max, seen, gs, x);
    }
  }

  function AsItsFragment(stream: seq<Sent>, x: Item): Fragment
    requires ValidItem(stream, x) && stream[x.frame].Valid()
  {
    AsFragment(stream[x.frame], x.frag, x.retransmitted)
  }

  lemma ItemFacts(stream: seq<Sent>, x: Item)
    requires ValidItem(stream, x)
    ensures x.frame < |stream| && x.frag < stream[x.frame].Count()
  {
  }

  lemma ItsFragment(stream: seq<Sent>, x: Item)
    requires ValidItem(stream, x) && stream[x.frame].Valid()
    ensures AsItsFragment(stream, x) == AsFragment(stream[x.frame], x.frag, x.retransmitted)
  {
  }

  lemma RowsAreNewest(t: Table<int>, stream: seq<Sent>, max: nat, seen: set<int>, gs: seq<set<nat>>)
    requires ValidStream(stream) && |gs| == |stream| && Rows(t, stream, max, seen, gs)
    ensures IsNewest(seen, t.pending.Keys, max)
    ensures t.retired.Some? ==> |t.pending| == max && forall w :: w in t.pending ==> w > t.retired.value
  {
  }

  lemma StepIs(t: Table<int>, u: Table<int>, stream: seq<Sent>, max: nat, seen: set<int>, gs: seq<set<nat>>, x: Item)
    requires ValidStream(stream) && |gs| == |stream| && x.frame < |stream|
    requires |Above(seen, Number(stream[x.frame]))| < max
    requires Rows(u, stream, max, seen + {Number(stream[x.frame])}, Grow(gs, x.frame, x.frag))
    requires u.ready == t.ready + if Completes(stream, gs, x.frame, x.frag) then [WholeFrame(stream[x.frame])] else []
    ensures Step(t, u, stream, max, seen, gs, x)
  {
  }

  lemma HeldCases(t: Table<int>, id: int, f: Fragment)
    requires ValidTable(t) && ValidFragment(f) && id in t.pending
    ensures var p, u := t.pending[id], IntoHeld(t, id, f).table;
      && (p.completed ==> u == t)
      && (!p.completed && p.fragCount == f.data.fragCount ==>
            u == Store(t, id, f, false).table && (p.fragments[f.data.fragIndex] != [] ==> u == t))
  {
  }

  /** What is left of a table `t` before a new entry for frame `k` goes in: there is room, and the entry will
      be among the newest. */
  ghost predicate RoomFor(t: Table<int>, e: Table<int>, stream: seq<Sent>, max: nat, seen: set<int>, k: nat)
    requires k < |stream|
  {
    var id := Number(stream[k]);
    && id !in seen && e.ready == t.ready && id !in e.pending
    && (forall w :: w in e.pending ==> w in t.pending && e.pending[w] == t.pending[w])
    && IsNewest(seen + {id}, e.pending.Keys + {id}, max)
    && (e.retired.Some? ==>
          |e.pending| + 1 == max && id > e.retired.value && forall w :: w in e.pending ==> w > e.retired.value)
  }

  ghost function WithEntry(e: Table<int>, id: int, f: Fragment, partial: bool): Table<int>
    requires ValidFragment(f)
  {
    Store(Open(e, id, f), id, f, partial).table
  }

  /** The frame has no row and gets one. */
  lemma NewIsOpened(t: Table<int>, e: Table<int>, stream: seq<Sent>, max: nat, seen: set<int>, gs: seq<set<nat>>, x: Item, partial: bool)
    requires ValidStream(stream) && |gs| == |stream| && ValidGots(stream, gs) && ValidItem(stream, x) && stream[x.frame].Valid()
    requires Rows(t, stream, max, seen, gs) && RoomFor(t, e, stream, max, seen, x.frame)
    requires ValidFragment(AsItsFragment(stream, x))
    ensures Step(t, WithEntry(e, Number(stream[x.frame]), AsItsFragment(stream, x), partial), stream, max, seen, gs, x)
  {
    hide *;
    ItemFacts(stream, x);
    var k, i := x.frame, x.frag;
    var id := Number(stream[k]);
    RoomIs(t, e, stream, max, seen, k);
    NothingYet(t, stream, max, seen, gs, k);
    NewEntryFills(e, stream, gs, x, partial);
    var u := WithEntry(e, id, AsItsFragment(stream, x), partial);
    OneMoreKey(e.pending, u.pending, id);
    NewestByCount(seen + {id}, u.pending.Keys, max, id);
    AboveOfMore(seen, id);
    RowsAfter(t, u, stream, max, seen, gs, k, i);
    StepIs(t, u, stream, max, seen, gs, x);
  }

  lemma RoomIs(t: Table<int>, e: Table<int>, stream: seq<Sent>, max: nat, seen: set<int>, k: nat)
    requires k < |stream|
    ensures var id := Number(stream[k]);
      RoomFor(t, e, stream, max, seen, k) <==>
      && id !in seen && e.ready == t.ready && id !in e.pending
      && (forall w :: w in e.pending ==> w in t.pending && e.pending[w] == t.pending[w])
      && IsNewest(seen + {id}, e.pending.Keys + {id}, max)
      && (e.retired.Some? ==>
            |e.pending| + 1 == max && id > e.retired.value && forall w :: w in e.pending ==> w > e.retired.value)
  {
    hide Number, IsNewest;
  }

  lemma NewEntryFills(e: Table<int>, stream: seq<Sent>, gs: seq<set<nat>>, x: Item, partial: bool)
    requires ValidStream(stream) && |gs| == |stream| && ValidGots(stream, gs) && ValidItem(stream, x)
    requires stream[x.frame].Valid() && gs[x.frame] == {} && ValidFragment(AsItsFragment(stream, x))
    ensures var k, id := x.frame, Number(stream[x.frame]);
      var u := WithEntry(e, id, AsItsFragment(stream, x), partial);
      && u.retired == e.retired && id in u.pending && u.pending == e.pending[id := u.pending[id]]
      && Row(u.pending[id], stream[k], gs[k] + {x.frag})
      && u.ready == e.ready + if Completes(stream, gs, k, x.frag) then [WholeFrame(stream[k])] else []
  {
    hide *;
    ItemFacts(stream, x);
    ItsFragment(stream, x);
    var s := stream[x.frame];
    var id, f := Number(s), AsItsFragment(stream, x);
    OpenFacts(e, s, x.frag, x.retransmitted);
    StoreFills(Open(e, id, f), stream, gs, x.frame, x.frag, x.retransmitted, partial);
    WithEntryIs(e, id, f, partial);
  }

  lemma WithEntryIs(e: Table<int>, id: int, f: Fragment, partial: bool)
    requires ValidFragment(f)
    ensures id in Open(e, id, f).pending && f.data.fragIndex < |Open(e, id, f).pending[id].fragments|
    ensures WithEntry(e, id, f, partial) == Store(Open(e, id, f), id, f, partial).table
  {
    hide Store;
  }

  lemma OneMoreKey(before: map<int, Pending>, after: map<int, Pending>, id: int)
    requires id !in before && id in after && after == before[id := after[id]]
    ensures after.Keys == before.Keys + {id} && |after| == |before| + 1
    ensures forall w :: w in after && w != id ==> w in before && after[w] == before[w]
    ensures forall w :: w in after ==> w == id || w in before
  {
    assert after.Keys == before.Keys + {id};
    assert |after| == |after.Keys| && |before| == |before.Keys|;
  }

  lemma NothingYet(t: Table<int>, stream: seq<Sent>, max: nat, seen: set<int>, gs: seq<set<nat>>, k: nat)
    requires ValidStream(stream) && |gs| == |stream| && Rows(t, stream, max, seen, gs) && k < |stream|
    requires Number(stream[k]) !in seen
    ensures gs[k] == {}
  {
  }

  /** One fragment, whatever it is and whenever it comes. */
  lemma AcceptKeepsRows(t: Table<int>, stream: seq<Sent>, max: nat, seen: set<int>, gs: seq<set<nat>>, x: Item)
    requires ValidStream(stream) && |gs| == |stream| && ValidGots(stream, gs) && ValidItem(stream, x) && max >= 1
    requires ValidTable(t) && Rows(t, stream, max, seen, gs)
    requires stream[x.frame].Valid() && ValidFragment(AsItsFragment(stream, x))
    ensures Step(t, AR.IdealStep(t, max, AR.Arrival(Number(stream[x.frame]), AsItsFragment(stream, x))).table,
                 stream, max, seen, gs, x)
  {
    hide *;
    ItemFacts(stream, x);
    var id, f, keys := Number(stream[x.frame]), AsItsFragment(stream, x), t.pending.Keys;
    RowsAreNewest(t, stream, max, seen, gs);
    NewestFacts(seen, keys, max);
    assert |keys| == |t.pending|;
    var oldest := AR.Least(keys);
    IdealBranch(t, max, id, f, oldest);
    AcceptIs(AR.Later, t, max, id, f, oldest);
    match BranchOf(AR.Later, t, max, id, oldest)
    case Behind => OldIsIgnored(t, stream, max, seen, gs, x);
    case Held => HeldIsStored(t, stream, max, seen, gs, x);
    case Older =>
      AR.LeastIs(keys);
      OldIsIgnored(t, stream, max, seen, gs, x);
    case Displaces =>
      AR.LeastIs(keys);
      AddForOldest(seen, keys, max, id, oldest);
      EvictedTable(t, oldest);
      RoomIs(t, Evict(t, oldest), stream, max, seen, x.frame);
      WithEntryIs(Evict(t, oldest), id, f, IsPartial(t, oldest));
      NewIsOpened(t, Evict(t, oldest), stream, max, seen, gs, x, IsPartial(t, oldest));
    case Opens =>
      AddToRoom(seen, keys, max, id);
      RoomIs(t, t, stream, max, seen, x.frame);
      WithEntryIs(t, id, f, false);
      NewIsOpened(t, t, stream, max, seen, gs, x, false);
  }

  lemma IdealBranch(t: Table<int>, max: nat, id: int, f: Fragment, oldest: int)
    requires ValidTable(t) && ValidFragment(f) && oldest == AR.Least(t.pending.Keys)
    ensures AR.IdealStep(t, max, AR.Arrival(id, f)) == Accept(AR.Later, t, max, id, f, oldest)
    ensures var b := BranchOf(AR.Later, t, max, id, oldest);
      && (b.Behind? ==> t.retired.Some? && id <= t.retired.value)
      && (b.Held? ==> id in t.pending)
      && (b.Opens? ==> id !in t.pending && |t.pending| < max)
      && (b.Older? ==> id !in t.pending && |t.pending| >= max && id <= oldest)
      && (b.Displaces? ==> id !in t.pending && |t.pending| >= max && id > oldest)
  {
    hide Accept, AR.Least;
  }

  lemma NewestFacts(seen: set<int>, keys: set<int>, max: nat)
    requires IsNewest(seen, keys, max)
    ensures |keys| <= max
  {
  }

  lemma EvictedTable(t: Table<int>, oldest: int)
    requires oldest in t.pending
    ensures var e := Evict(t, oldest);
      && e.ready == t.ready && e.retired == Some(oldest) && e.pending.Keys == t.pending.Keys - {oldest}
      && |e.pending| + 1 == |t.pending|
      && forall w :: w in e.pending ==> w in t.pending && e.pending[w] == t.pending[w]
  {
    var e := Evict(t, oldest);
    assert t.pending == e.pending[oldest := t.pending[oldest]];
  }

  // ----- Runs -----

  ghost function Arrivals(stream: seq<Sent>, items: seq<Item>): (as_: seq<AR.Arrival>)
    requires ValidStream(stream) && ValidItems(stream, items)
    ensures |as_| == |items| && AR.ValidArrivals(as_)
  {
    if items == [] then []
    else
      var n := |items| - 1;
      StreamFacts(stream, items[n].frame, items[n].frag, items[n].retransmitted);
      Arrivals(stream, items[..n]) + [AR.Arrival(Number(stream[items[n].frame]), AsItsFragment(stream, items[n]))]
  }

  /** The frames of the stream in the order in which their last missing fragment came. */
  ghost function Completions(max: nat, stream: seq<Sent>, items: seq<Item>): (order: seq<nat>)
    requires ValidItems(stream, items)
    ensures forall k :: k in order ==> k < |stream|
  {
    if items == [] then []
    else
      var front, x := items[..|items| - 1], items[|items| - 1];
      Completions(max, stream, front)
      + if InTime(max, stream, front, x.frame) && Completes(stream, Gots(max, stream, front), x.frame, x.frag) then [x.frame] else []
  }

  ghost function WholeFrames(stream: seq<Sent>, order: seq<nat>): seq<Assembled<int>>
    requires forall k :: k in order ==> k < |stream|
  {
    seq(|order|, a requires 0 <= a < |order| => assert order[a] in order; WholeFrame(stream[order[a]]))
  }

  ghost function Wholes(stream: seq<Sent>, order: seq<nat>): seq<Assembled<u32>>
    requires forall k :: k in order ==> k < |stream|
  {
    AR.WrapFrames(WholeFrames(stream, order))
  }

  lemma WholesMore(stream: seq<Sent>, order: seq<nat>, k: nat)
    requires k < |stream| && forall j :: j in order ==> j < |stream|
    ensures forall j :: j in order + [k] ==> j < |stream|
    ensures WholeFrames(stream, order + [k]) == WholeFrames(stream, order) + [WholeFrame(stream[k])]
  {
    hide WholeFrame;
  }

  lemma GotsInRange(max: nat, stream: seq<Sent>, items: seq<Item>)
    requires ValidItems(stream, items)
    ensures ValidGots(stream, Gots(max, stream, items))
  {
    hide Got;
    forall k | 0 <= k < |stream|
      ensures Got(max, stream, items, k) <= All(stream[k].Count())
    {
      GotInRange(max, stream, items, k);
    }
  }

  /** On unbounded numbers, over any run: the table's rows, and what was delivered. */
  lemma {:induction false} RunKeepsRows(max: nat, stream: seq<Sent>, items: seq<Item>)
    requires ValidStream(stream) && ValidItems(stream, items) && max >= 1
    ensures Rows(AR.Ideal(max, Arrivals(stream, items)), stream, max, Numbers(stream, items), Gots(max, stream, items))
    ensures AR.Ideal(max, Arrivals(stream, items)).ready == WholeFrames(stream, Completions(max, stream, items))
    decreases |items|
  {
    hide *;
    if items == [] {
      NothingArrived(max, stream);
    } else {
      var front, x := items[..|items| - 1], items[|items| - 1];
      OneMore(max, stream, items);
      ItemFacts(stream, x);
      RunKeepsRows(max, stream, front);
      GotsMore(max, stream, items);
      GotsInRange(max, stream, front);
      var before, gs := AR.Ideal(max, Arrivals(stream, front)), Gots(max, stream, front);
      AcceptKeepsRows(before, stream, max, Numbers(stream, front), gs, x);
      StepMeans(before, AR.Ideal(max, Arrivals(stream, items)), stream, max, front, x);
      var order := Completions(max, stream, front);
      if InTime(max, stream, front, x.frame) && Completes(stream, gs, x.frame, x.frag) {
        WholesMore(stream, order, x.frame);
      } else {
        assert order + [] == order && before.ready + [] == before.ready;
      }
    }
  }

  lemma StepMeans(t: Table<int>, u: Table<int>, stream: seq<Sent>, max: nat, front: seq<Item>, x: Item)
    requires ValidStream(stream) && ValidItems(stream, front) && ValidItem(stream, x)
    requires Step(t, u, stream, max, Numbers(stream, front), Gots(max, stream, front), x)
    ensures var gs := Gots(max, stream, front);
      && Rows(u, stream, max, Numbers(stream, front) + {Number(stream[x.frame])}, Added(max, Numbers(stream, front), stream, gs, x))
      && u.ready == t.ready + if InTime(max, stream, front, x.frame) && Completes(stream, gs, x.frame, x.frag)
                              then [WholeFrame(stream[x.frame])] else []
  {
    hide Rows, Gots, Numbers, Added, Completes, Number, Above;
  }

  /** How a run grows by one packet. */
  lemma OneMore(max: nat, stream: seq<Sent>, items: seq<Item>)
    requires ValidStream(stream) && ValidItems(stream, items) && items != []
    ensures var front, x := items[..|items| - 1], items[|items| - 1];
      && ValidItems(stream, front) && ValidItem(stream, x) && stream[x.frame].Valid() && ValidFragment(AsItsFragment(stream, x))
      && Arrivals(stream, items) == Arrivals(stream, front) + [AR.Arrival(Number(stream[x.frame]), AsItsFragment(stream, x))]
      && ValidTable(AR.Ideal(max, Arrivals(stream, front)))
      && AR.Ideal(max, Arrivals(stream, items))
         == AR.IdealStep(AR.Ideal(max, Arrivals(stream, front)), max, AR.Arrival(Number(stream[x.frame]), AsItsFragment(stream, x))).table
      && Numbers(stream, items) == Numbers(stream, front) + {Number(stream[x.frame])}
      && Completions(max, stream, items)
         == Completions(max, stream, front)
            + (if InTime(max, stream, front, x.frame) && Completes(stream, Gots(max, stream, front), x.frame, x.frag) then [x.frame] else [])
  {
    hide AR.IdealStep, InTime, Completes, Gots, Number, AsItsFragment;
    var front, x := items[..|items| - 1], items[|items| - 1];
    StreamFacts(stream, x.frame, x.frag, x.retransmitted);
    ItsFragment(stream, x);
    var as_ := Arrivals(stream, items);
    assert as_[..|as_| - 1] == Arrivals(stream, front);
  }

  lemma NothingArrived(max: nat, stream: seq<Sent>)
    requires ValidStream(stream)
    ensures Arrivals(stream, []) == [] && Completions(max, stream, []) == [] && WholeFrames(stream, []) == []
    ensures AR.Ideal(max, []).ready == []
    ensures Rows(AR.Ideal(max, []), stream, max, Numbers(stream, []), Gots(max, stream, []))
  {
  }

  // ----- Which frames are delivered -----

  lemma FullStaysFull(stream: seq<Sent>, gs: seq<set<nat>>, k: nat, i: nat)
    requires |gs| == |stream| && ValidGots(stream, gs) && k < |stream| && i < stream[k].Count()
    requires Full(stream, gs, k)
    ensures Full(stream, Grow(gs, k, i), k)
  {
    FullBySize(gs[k], stream[k].Count());
    assert gs[k] + {i} == gs[k];
  }

  /** `order` lists each full frame once. */
  ghost predicate ListsFull(stream: seq<Sent>, gs: seq<set<nat>>, order: seq<nat>)
    requires |gs| == |stream|
  {
    && (forall a, b :: 0 <= a < b < |order| ==> order[a] != order[b])
    && (forall k :: k in order ==> k < |stream|)
    && (forall k :: 0 <= k < |stream| ==> (k in order <==> Full(stream, gs, k)))
  }

  lemma ListsOneMore(stream: seq<Sent>, gs: seq<set<nat>>, order: seq<nat>, k: nat, i: nat)
    requires |gs| == |stream| && ValidGots(stream, gs) && k < |stream| && i < stream[k].Count() && ListsFull(stream, gs, order)
    ensures ListsFull(stream, Grow(gs, k, i), order + if Completes(stream, gs, k, i) then [k] else [])
  {
    hide FragmentCount, ValidGots;
    if Full(stream, gs, k) { FullStaysFull(stream, gs, k, i); }
    hide Full;
    var more := order + if Completes(stream, gs, k, i) then [k] else [];
    assert forall j :: j in more <==> j in order || (j == k && Completes(stream, gs, k, i));
    forall j | 0 <= j < |stream|
      ensures Full(stream, Grow(gs, k, i), j) <==> Full(stream, gs, j) || (j == k && Completes(stream, gs, k, i))
    {
      FullElsewhere(stream, gs, k, i, j);
    }
  }

  lemma FullElsewhere(stream: seq<Sent>, gs: seq<set<nat>>, k: nat, i: nat, j: nat)
    requires |gs| == |stream| && k < |stream| && j < |stream|
    ensures j != k ==> (Full(stream, Grow(gs, k, i), j) <==> Full(stream, gs, j))
  {
  }

  /** Each frame all of which came in time is completed exactly once, and no other frame is. */
  lemma {:induction false} CompletionsAreFull(max: nat, stream: seq<Sent>, items: seq<Item>)
    requires ValidStream(stream) && ValidItems(stream, items)
    ensures ListsFull(stream, Gots(max, stream, items), Completions(max, stream, items))
    decreases |items|
  {
    hide *;
    if items != [] {
      var front, x := items[..|items| - 1], items[|items| - 1];
      OneMore(max, stream, items);
      ItemFacts(stream, x);
      CompletionsAreFull(max, stream, front);
      GotsMore(max, stream, items);
      GotsInRange(max, stream, front);
      var gs, order := Gots(max, stream, front), Completions(max, stream, front);
      AddedIs(max, stream, front, gs, x);
      if InTime(max, stream, front, x.frame) { ListsOneMore(stream, gs, order, x.frame, x.frag); }
      assert order + [] == order;
    } else {
      NothingIsFull(max, stream);
    }
  }

  lemma AddedIs(max: nat, stream: seq<Sent>, front: seq<Item>, gs: seq<set<nat>>, x: Item)
    requires ValidItems(stream, front) && x.frame < |stream| == |gs|
    ensures Added(max, Numbers(stream, front), stream, gs, x)
         == if InTime(max, stream, front, x.frame) then Grow(gs, x.frame, x.frag) else gs
  {
  }

  lemma NothingIsFull(max: nat, stream: seq<Sent>)
    requires ValidStream(stream)
    ensures ListsFull(stream, Gots(max, stream, []), Completions(max, stream, []))
  {
    forall k | 0 <= k < |stream|
      ensures !Full(stream, Gots(max, stream, []), k)
    {
      assert Got(max, stream, [], k) == {} && stream[k].Count() > 0;
    }
  }

  /** Every fragment of frame `k` came, in some copy, when fewer than `max` newer frames had been seen. */
  ghost predicate CameInTime(max: nat, stream: seq<Sent>, items: seq<Item>, k: nat)
    requires ValidItems(stream, items) && k < |stream|
  {
    forall i :: 0 <= i < stream[k].Count() ==> FragmentInTime(max, stream, items, k, i)
  }

  lemma FullMeansEvery(max: nat, stream: seq<Sent>, items: seq<Item>, k: nat)
    requires ValidItems(stream, items) && k < |stream|
    ensures Full(stream, Gots(max, stream, items), k) <==> CameInTime(max, stream, items, k)
  {
    hide Got, FragmentInTime;
    var got, n := Got(max, stream, items, k), stream[k].Count();
    GotInRange(max, stream, items, k);
    FullBySize(got, n);
    forall i | 0 <= i < n
      ensures i in got <==> FragmentInTime(max, stream, items, k, i)
    {
      GotMeans(max, stream, items, k, i);
    }
    hide FragmentCount;
    assert got == All(n) <==> forall i :: 0 <= i < n ==> i in got;
  }

  // ----- On the wire -----

  /** The scan for the oldest entry of a table. */
  ghost function Scan(t: Table<u32>): u32 {
    SomeOldest(t.pending.Keys)
  }

  /** The assembler after copies of fragments were offered to it one by one. */
  ghost function Assemble(max: nat, stream: seq<Sent>, items: seq<Item>): (st: State)
    requires ValidStream(stream) && ValidItems(stream, items)
    ensures ValidState(st)
  {
    if items == [] then EMPTY
    else
      var n := |items| - 1;
      var before := Assemble(max, stream, items[..n]);
      OfferedKeepsValid(before, max, Image(stream, items[n]), Scan(before.table));
      Offered(before, max, Image(stream, items[n]), Scan(before.table))
  }

  /** Offering a copy of a fragment does to the table what accepting that fragment does. */
  lemma OfferedTable(st: State, max: nat, stream: seq<Sent>, x: Item, scan: u32)
    requires ValidState(st) && ValidStream(stream) && ValidItem(stream, x)
    ensures ValidFragment(AsItsFragment(stream, x))
    ensures Offered(st, max, Image(stream, x), scan).table
         == Accept(SeqNewer, st.table, max, Id(stream[x.frame]), AsItsFragment(stream, x), scan).table
  {
    hide Accept, ReadDatagram, Payload;
    CopyReads(stream[x.frame], x.frag, x.retransmitted);
  }

  /** The table of the 32-bit assembler is the one `AssemblerRuns` relates to the unbounded one. */
  lemma {:induction false} AssembleIsWire(max: nat, stream: seq<Sent>, items: seq<Item>)
    requires ValidStream(stream) && ValidItems(stream, items)
    ensures Assemble(max, stream, items).table == AR.Wire(max, Arrivals(stream, items))
    decreases |items|
  {
    hide *;
    if items == [] {
      StartsAlike(max, stream);
    } else {
      var front, x := items[..|items| - 1], items[|items| - 1];
      OneMore(max, stream, items);
      ItemFacts(stream, x);
      AssembleIsWire(max, stream, front);
      var before := Assemble(max, stream, front);
      OneMoreOffered(max, stream, items);
      OfferedTable(before, max, stream, x, Scan(before.table));
      OneMoreOnWire(max, Arrivals(stream, front), AR.Arrival(Number(stream[x.frame]), AsItsFragment(stream, x)));
      IdIs(stream[x.frame], before.table);
    }
  }

  lemma StartsAlike(max: nat, stream: seq<Sent>)
    requires ValidStream(stream)
    ensures Assemble(max, stream, []).table == AR.Wire(max, Arrivals(stream, []))
  {
  }

  lemma OneMoreOffered(max: nat, stream: seq<Sent>, items: seq<Item>)
    requires ValidStream(stream) && ValidItems(stream, items) && items != []
    ensures var front, x := items[..|items| - 1], items[|items| - 1];
      && ValidItems(stream, front) && ValidItem(stream, x) && stream[x.frame].Valid()
      && ValidState(Assemble(max, stream, front))
      && Assemble(max, stream, items)
         == Offered(Assemble(max, stream, front), max, Image(stream, x), Scan(Assemble(max, stream, front).table))
  {
    hide Offered, Image, Scan;
  }

  lemma OneMoreOnWire(max: nat, front: seq<AR.Arrival>, a: AR.Arrival)
    requires AR.ValidArrivals(front + [a]) && AR.ValidArrivals(front)
    ensures ValidFragment(a.fragment) && ValidTable(AR.Wire(max, front))
    ensures AR.Wire(max, front + [a])
         == Accept(SeqNewer, AR.Wire(max, front), max, Wrap(a.id), a.fragment, SomeOldest(AR.Wire(max, front).pending.Keys)).table
  {
    hide Accept;
    var all := front + [a];
    assert all[..|front|] == front && all[|front|] == a;
  }

  lemma IdIs(s: Sent, t: Table<u32>)
    ensures Id(s) == Wrap(Number(s)) && Scan(t) == SomeOldest(t.pending.Keys)
  {
  }

  /** Every fragment's frame number is within half a turn of the entries and the watermark it meets. */
  ghost predicate InWindow(max: nat, stream: seq<Sent>, items: seq<Item>)
    requires ValidStream(stream) && ValidItems(stream, items)
  {
    AR.InWindow(max, Arrivals(stream, items))
  }

  /** Reassembly of a stream of any length. While arriving frame numbers stay within half a turn of what they
      meet, any interleaving of copies of fragments, in any order and with any repetitions, delivers exactly the
      frames each of whose fragments came when fewer than `max` newer frames had been seen: each once, with its
      payloads joined in index order, in the order in which they became complete. */
  lemma AnyOrder(max: nat, stream: seq<Sent>, items: seq<Item>)
    requires ValidStream(stream) && ValidItems(stream, items) && max >= 1 && InWindow(max, stream, items)
    ensures var order := Completions(max, stream, items);
      && (forall a, b :: 0 <= a < b < |order| ==> order[a] != order[b])
      && (forall k :: k in order ==> k < |stream|)
      && (forall k :: 0 <= k < |stream| ==> (k in order <==> CameInTime(max, stream, items, k)))
      && Assemble(max, stream, items).table.ready == Wholes(stream, order)
  {
    hide *;
    var order := Completions(max, stream, items);
    RunKeepsRows(max, stream, items);
    CompletionsAreFull(max, stream, items);
    ListsMeans(stream, Gots(max, stream, items), order);
    forall k | 0 <= k < |stream|
      ensures Full(stream, Gots(max, stream, items), k) <==> CameInTime(max, stream, items, k)
    {
      FullMeansEvery(max, stream, items, k);
    }
    AssembleIsWire(max, stream, items);
    WireIsWrapped(max, stream, items);
    WholesAre(stream, order);
  }

  lemma ListsMeans(stream: seq<Sent>, gs: seq<set<nat>>, order: seq<nat>)
    requires |gs| == |stream| && ListsFull(stream, gs, order)
    ensures forall a, b :: 0 <= a < b < |order| ==> order[a] != order[b]
    ensures forall k :: k in order ==> k < |stream|
    ensures forall k :: 0 <= k < |stream| ==> (k in order <==> Full(stream, gs, k))
  {
  }

  lemma WireIsWrapped(max: nat, stream: seq<Sent>, items: seq<Item>)
    requires ValidStream(stream) && ValidItems(stream, items) && max >= 1 && InWindow(max, stream, items)
    ensures AR.Wire(max, Arrivals(stream, items)).ready == AR.WrapFrames(AR.Ideal(max, Arrivals(stream, items)).ready)
  {
    hide AR.Wire, AR.Ideal, Arrivals, AR.WrapFrames;
    AR.WireRefinesIdeal(max, Arrivals(stream, items));
  }

  lemma WholesAre(stream: seq<Sent>, order: seq<nat>)
    requires forall k :: k in order ==> k < |stream|
    ensures Wholes(stream, order) == AR.WrapFrames(WholeFrames(stream, order))
    ensures |Wholes(stream, order)| == |order|
    ensures forall a :: 0 <= a < |order| ==> order[a] in order && Wholes(stream, order)[a] == Whole(stream[order[a]])
  {
  }

  // ----- When everything is in the window -----

  ghost function StreamNumbers(stream: seq<Sent>): (s: set<int>)
    ensures |s| <= |stream|
    ensures forall k :: 0 <= k < |stream| ==> Number(stream[k]) in s
  {
    if stream == [] then {}
    else
      var n := |stream| - 1;
      assert forall k :: 0 <= k < n ==> stream[k] == stream[..n][k];
      StreamNumbers(stream[..n]) + {Number(stream[n])}
  }

  /** Frame numbers within half a turn of one another are always in the window. */
  lemma CloseFramesAreInWindow(max: nat, stream: seq<Sent>, items: seq<Item>)
    requires ValidStream(stream) && ValidItems(stream, items) && max >= 1
    requires forall j, k :: 0 <= j < |stream| && 0 <= k < |stream| ==> Near(Number(stream[j]), Number(stream[k]))
    ensures InWindow(max, stream, items)
  {
    var as_ := Arrivals(stream, items);
    hide Number, AR.Ideal, Near;
    forall n | 0 <= n < |as_|
      ensures AR.NearAll(as_[n].id, AR.Ids(AR.Ideal(max, as_[..n])))
    {
      ArrivalsAreTheStreams(stream, items, n);
      AR.IdsFromArrivals(max, as_[..n]);
      forall w | w in AR.Ids(AR.Ideal(max, as_[..n]))
        ensures Near(as_[n].id, w)
      {
        var m :| 0 <= m < n && as_[..n][m].id == w;
        ArrivalsAreTheStreams(stream, items, m);
      }
    }
  }

  lemma {:induction false} ArrivalsAreTheStreams(stream: seq<Sent>, items: seq<Item>, n: nat)
    requires ValidStream(stream) && ValidItems(stream, items) && n < |items|
    ensures items[n].frame < |stream| && Arrivals(stream, items)[n].id == Number(stream[items[n].frame])
    decreases |items|
  {
    hide Number, AsItsFragment, AsFragment;
    if n < |items| - 1 { ArrivalsAreTheStreams(stream, items[..|items| - 1], n); }
  }
}
