/**
 The SYN to SYN-ACK latency tracker (internal/agent/setup_dataplane.go, UpdateTCPMetrics and
 the loop of ProcessFlowStream).  The clock is a parameter; times are nanoseconds.  The
 handshake is that of section 3.5 of RFC 9293.
 */
module TcpLatency {
  import opened Prelude

  datatype Tuple = Tuple(srcIP: string, dstIP: string, srcPort: nat, dstPort: nat)

  datatype Flow = Flow(protocol: nat, tuple: Tuple, flags: bv32)

  datatype Event = Event(flow: Flow, now: int)

  const PROTO_TCP: nat := 6
  const TCP_SYN: bv32 := 0x02
  const TCP_ACK: bv32 := 0x10
  const MAX_TRACKED: nat := 10000
  const WINDOW: int := 10_000_000_000

  function Reverse(t: Tuple): Tuple
  {
    Tuple(t.dstIP, t.srcIP, t.dstPort, t.srcPort)
  }

  predicate IsSyn(f: Flow)
  {
    f.protocol == PROTO_TCP && f.flags & TCP_SYN != 0 && f.flags & TCP_ACK == 0
  }

  predicate IsSynAck(f: Flow)
  {
    f.protocol == PROTO_TCP && f.flags & TCP_SYN != 0 && f.flags & TCP_ACK != 0
  }

  type Times = map<Tuple, int>

  // ------------------------------------------------------------------ one event

  /** The latency observed at an event, if any. */
  function Sample(pending: Times, e: Event): Option<int>
  {
    var k := Reverse(e.flow.tuple);
    if IsSynAck(e.flow) && k in pending && 0 < e.now - pending[k] < WINDOW then Some(e.now - pending[k]) else None
  }

  /** A SYN that finds the tracker full. */
  predicate Refused(pending: Times, e: Event)
  {
    IsSyn(e.flow) && |pending| >= MAX_TRACKED
  }

  function Recorded(pending: Times, e: Event): Times
  {
    if IsSyn(e.flow) then
      if |pending| < MAX_TRACKED then pending[e.flow.tuple := e.now] else pending
    else if IsSynAck(e.flow) then pending - {Reverse(e.flow.tuple)}
    else pending
  }

  /** Entries older than the window, dropped once more than half of the room is taken. */
  function Evicted(pending: Times, now: int): Times
  {
    if |pending| > MAX_TRACKED / 2 then map k | k in pending && pending[k] >= now - WINDOW :: pending[k]
    else pending
  }

  function Next(pending: Times, e: Event): Times
  {
    if e.flow.protocol == PROTO_TCP then Evicted(Recorded(pending, e), e.now) else pending
  }

  /** The unbounded tracker that never evicts. */
  function IdealNext(pending: Times, e: Event): Times
  {
    if IsSyn(e.flow) then pending[e.flow.tuple := e.now]
    else if IsSynAck(e.flow) then pending - {Reverse(e.flow.tuple)}
    else pending
  }

  class Tracker {
    var pending: Times

    constructor ()
      ensures pending == map[]
    {
      pending := map[];
    }

    /** `UpdateTCPMetrics` on a TCP flow. */
    method UpdateTCPMetrics(f: Flow, now: int) returns (sample: Option<int>)
      requires f.protocol == PROTO_TCP
      modifies this
      ensures sample == Sample(old(pending), Event(f, now))
      ensures pending == Next(old(pending), Event(f, now))
    {
      sample := None;
      var fwd := f.tuple;
      var rev := Tuple(fwd.dstIP, fwd.srcIP, fwd.dstPort, fwd.srcPort);
      if f.flags & TCP_SYN != 0 && f.flags & TCP_ACK == 0 {
        if |pending| < MAX_TRACKED {
          pending := pending[fwd := now];
        }
      } else if f.flags & TCP_SYN != 0 && f.flags & TCP_ACK != 0 {
        if rev in pending {
          var rtt := now - pending[rev];
          if rtt > 0 && rtt < WINDOW {
            sample := Some(rtt);
          }
          pending := pending - {rev};
        }
      }
      assert pending == Recorded(old(pending), Event(f, now));
      if |pending| > MAX_TRACKED / 2 {
        Evict(now - WINDOW);
      }
    }

    /** The eviction loop. */
    method Evict(cutoff: int)
      modifies this
      ensures pending == map k | k in old(pending) && old(pending)[k] >= cutoff :: old(pending)[k]
    {
      var todo := pending.Keys;
      ghost var before := pending;
      while todo != {}
        invariant todo <= before.Keys
        invariant forall k :: k in pending <==> k in before && (k in todo || before[k] >= cutoff)
        invariant forall k :: k in pending ==> pending[k] == before[k]
        decreases |todo|
      {
        var k :| k in todo;
        if pending[k] < cutoff {
          pending := pending - {k};
        }
        todo := todo - {k};
      }
    }
  }

  /** `ProcessFlowStream` over the events received before the stream ends. */
  method ProcessFlowStream(events: seq<Event>) returns (samples: seq<Option<int>>)
    ensures samples == Samples(events)
  {
    var tracker := new Tracker();
    samples := [];
    for i := 0 to |events|
      invariant tracker.pending == Pending(events[..i])
      invariant samples == Samples(events[..i])
      invariant fresh(tracker)
    {
      assert events[..i + 1][..i] == events[..i];
      var sample := None;
      if events[i].flow.protocol == PROTO_TCP {
        sample := tracker.UpdateTCPMetrics(events[i].flow, events[i].now);
      }
      samples := samples + [sample];
    }
    assert events[..|events|] == events;
  }

  // ------------------------------------------------------------------ runs

  function Pending(events: seq<Event>): Times
  {
    if events == [] then map[] else Next(Pending(events[..|events| - 1]), events[|events| - 1])
  }

  /** One entry per event: the sample it produced, if any. */
  function Samples(events: seq<Event>): (r: seq<Option<int>>)
    ensures |r| == |events|
  {
    if events == [] then []
    else
      var init := events[..|events| - 1];
      Samples(init) + [Sample(Pending(init), events[|events| - 1])]
  }

  function IdealPending(events: seq<Event>): Times
  {
    if events == [] then map[] else IdealNext(IdealPending(events[..|events| - 1]), events[|events| - 1])
  }

  function IdealSamples(events: seq<Event>): (r: seq<Option<int>>)
    ensures |r| == |events|
  {
    if events == [] then []
    else
      var init := events[..|events| - 1];
      IdealSamples(init) + [Sample(IdealPending(init), events[|events| - 1])]
  }

  lemma {:induction false} SamplesAt(events: seq<Event>, j: nat)
    requires j < |events|
    ensures Samples(events)[j] == Sample(Pending(events[..j]), events[j])
  {
    var last := |events| - 1;
    if j < last {
      SamplesAt(events[..last], j);
      assert events[..last][..j] == events[..j];
    }
  }

  // ------------------------------------------------------------------ refinement

  ghost predicate Monotonic(events: seq<Event>)
  {
    forall i, j :: 0 <= i < j < |events| ==> events[i].now <= events[j].now
  }

  ghost predicate NoneRefused(events: seq<Event>)
  {
    forall i :: 0 <= i < |events| ==> !Refused(Pending(events[..i]), events[i])
  }

  /** The tracker agrees with the ideal one except for entries that are too old to matter. */
  ghost predicate Simulates(pending: Times, ideal: Times, now: int)
  {
    && (forall k :: k in pending ==> k in ideal && ideal[k] == pending[k])
    && (forall k :: k in ideal && k !in pending ==> ideal[k] < now - WINDOW)
  }

  lemma StepSimulates(pending: Times, ideal: Times, now: int, e: Event)
    requires Simulates(pending, ideal, now) && now <= e.now && !Refused(pending, e)
    ensures Simulates(Next(pending, e), IdealNext(ideal, e), e.now)
    ensures Sample(pending, e) == Sample(ideal, e)
  {
    hide Evicted, Recorded, IdealNext, Simulates, Sample, Refused;
    RecordSimulates(pending, ideal, now, e);
    SampleAgrees(pending, ideal, now, e);
    EvictSimulates(Recorded(pending, e), IdealNext(ideal, e), e.now);
    if e.flow.protocol != PROTO_TCP {
      assert Recorded(pending, e) == pending by { OtherProtocol(pending, e); }
    }
  }

  lemma OtherProtocol(pending: Times, e: Event)
    requires e.flow.protocol != PROTO_TCP
    ensures Recorded(pending, e) == pending
  {}

  lemma RecordSimulates(pending: Times, ideal: Times, now: int, e: Event)
    requires Simulates(pending, ideal, now) && now <= e.now && !Refused(pending, e)
    ensures Simulates(Recorded(pending, e), IdealNext(ideal, e), e.now)
  {
    hide IsSyn, IsSynAck;
  }

  lemma SampleAgrees(pending: Times, ideal: Times, now: int, e: Event)
    requires Simulates(pending, ideal, now) && now <= e.now
    ensures Sample(pending, e) == Sample(ideal, e)
  {
    hide IsSynAck;
  }

  lemma EvictSimulates(pending: Times, ideal: Times, now: int)
    requires Simulates(pending, ideal, now)
    ensures Simulates(Evicted(pending, now), ideal, now)
  {}

  /** With a clock that does not run backwards and room for every SYN, bounding and evicting
      are invisible: exactly the samples of the unbounded tracker are emitted. */
  lemma {:induction false} RefinesIdeal(events: seq<Event>)
    requires Monotonic(events) && NoneRefused(events)
    ensures Samples(events) == IdealSamples(events)
    ensures events != [] ==> Simulates(Pending(events), IdealPending(events), events[|events| - 1].now)
  {
    hide Next, IdealNext, Sample, Refused;
    if events != [] {
      var last := |events| - 1;
      var init := events[..last];
      forall i | 0 <= i < last
        ensures !Refused(Pending(init[..i]), init[i])
      {
        assert init[..i] == events[..i];
      }
      RefinesIdeal(init);
      assert !Refused(Pending(init), events[last]);
      var now := if init == [] then events[last].now else init[last - 1].now;
      StepSimulates(Pending(init), IdealPending(init), now, events[last]);
    }
  }

  /** A refused SYN does lose its sample: the unbounded tracker times the answer, this one
      does not. */
  lemma RefusedSynLosesSample(pending: Times, syn: Event, ack: Event)
    requires Refused(pending, syn) && syn.flow.tuple !in pending
    requires IsSynAck(ack.flow) && Reverse(ack.flow.tuple) == syn.flow.tuple && 0 < ack.now - syn.now < WINDOW
    ensures Sample(Next(pending, syn), ack) == None
    ensures Sample(IdealNext(pending, syn), ack) == Some(ack.now - syn.now)
  {}

  // ------------------------------------------------------------------ every run

  lemma {:induction false} PendingBounded(events: seq<Event>)
    ensures |Pending(events)| <= 10000
  {
    if events != [] {
      var init := events[..|events| - 1];
      PendingBounded(init);
      StepBounded(Pending(init), events[|events| - 1]);
    }
  }

  lemma StepBounded(pending: Times, e: Event)
    requires |pending| <= MAX_TRACKED
    ensures |Next(pending, e)| <= MAX_TRACKED
  {
    var p := Recorded(pending, e);
    assert p.Keys <= pending.Keys + {e.flow.tuple};
    SubMapSize(pending - {Reverse(e.flow.tuple)}, pending);
    SubMapSize(Evicted(p, e.now), p);
  }

  lemma SubMapSize(a: Times, b: Times)
    requires a.Keys <= b.Keys
    ensures |a| <= |b|
  {
    assert |a.Keys| == |a| && |b.Keys| == |b|;
    assert b.Keys == a.Keys + (b.Keys - a.Keys);
  }

  /** The two directions of one connection. */
  ghost predicate Opposite(a: Tuple, b: Tuple)
  {
    a.srcIP == b.dstIP && a.dstIP == b.srcIP && a.srcPort == b.dstPort && a.dstPort == b.srcPort
  }

  lemma ReverseIsOpposite(a: Tuple, b: Tuple)
    ensures Opposite(a, b) <==> Reverse(a) == b
  {}

  /** Two packets, whatever their other flags: the second is timed from the first exactly if
      the first has SYN without ACK, the second both, they are the two directions of one
      connection, and less than ten seconds but some time has passed. */
  lemma Handshake(first: Flow, second: Flow, t: int, d: int)
    requires first.protocol == 6 && first.flags & 0x12 == 0x02
    ensures var sampled := && second.protocol == 6 && second.flags & 0x12 == 0x12
                           && Opposite(first.tuple, second.tuple) && 0 < d < 10_000_000_000;
            Samples([Event(first, t), Event(second, t + d)]) == [None, if sampled then Some(d) else None]
  {
    var events := [Event(first, t), Event(second, t + d)];
    FlagsOfSyn(first.flags);
    FlagsOfSynAck(second.flags);
    assert events[..0] == [] && events[..1] == [events[0]] && [events[0]][..0] == [];
    SamplesAt(events, 0);
    SamplesAt(events, 1);
    assert Pending([]) == map[];
    assert Pending([events[0]]) == Next(map[], events[0]);
    FirstSyn(events[0]);
    ReverseIsOpposite(second.tuple, first.tuple);
  }

  lemma FirstSyn(e: Event)
    requires IsSyn(e.flow)
    ensures Next(map[], e) == map[e.flow.tuple := e.now] && Sample(map[], e) == None
  {
    var p: Times := map[e.flow.tuple := e.now];
    assert p.Keys == {e.flow.tuple};
    assert |p| == |p.Keys| == 1;
  }

  lemma FlagsOfSyn(x: bv32)
    ensures x & 0x12 == 0x02 <==> x & TCP_SYN != 0 && x & TCP_ACK == 0
  {}

  lemma FlagsOfSynAck(x: bv32)
    ensures x & 0x12 == 0x12 <==> x & TCP_SYN != 0 && x & TCP_ACK != 0
  {}

  /** Event `i` is a SYN of tuple `k` that nothing has answered before event `n`. */
  ghost predicate Unanswered(events: seq<Event>, i: int, n: int, k: Tuple)
  {
    && 0 <= i < n <= |events| && IsSyn(events[i].flow) && events[i].flow.tuple == k
    && forall m :: i < m < n ==> !(IsSynAck(events[m].flow) && Opposite(events[m].flow.tuple, k))
  }

  /** Every pending time is that of an unanswered SYN. */
  lemma {:induction false} PendingHasSyn(events: seq<Event>, k: Tuple)
    requires k in Pending(events)
    ensures exists i :: Unanswered(events, i, |events|, k) && events[i].now == Pending(events)[k]
  {
    var last := |events| - 1;
    var init, e := events[..last], events[last];
    var p := Pending(init);
    if IsSyn(e.flow) && e.flow.tuple == k && Pending(events)[k] == e.now {
      assert Unanswered(events, last, |events|, k);
    } else {
      StepKeeps(p, e, k);
      PendingHasSyn(init, k);
      var i :| Unanswered(init, i, last, k) && init[i].now == p[k];
      assert Unanswered(events, i, |events|, k);
    }
  }

  lemma StepKeeps(pending: Times, e: Event, k: Tuple)
    requires k in Next(pending, e)
    requires !(IsSyn(e.flow) && e.flow.tuple == k && Next(pending, e)[k] == e.now)
    ensures k in pending && Next(pending, e)[k] == pending[k]
    ensures !(IsSynAck(e.flow) && Reverse(e.flow.tuple) == k)
  {}

  /** In every run a sample is the time from a SYN of the opposite direction to this SYN-ACK, lies
      strictly between zero and ten seconds, and no SYN-ACK of that connection came between. */
  lemma {:induction false} SampleIsRoundTrip(events: seq<Event>, j: nat)
    requires j < |events| && Samples(events)[j].Some?
    ensures 0 < Samples(events)[j].value < 10_000_000_000
    ensures exists i ::
              && 0 <= i < j && Opposite(events[i].flow.tuple, events[j].flow.tuple)
              && Unanswered(events, i, j, events[i].flow.tuple)
              && Samples(events)[j].value == events[j].now - events[i].now
  {
    hide IsSyn, IsSynAck;
    var k := Reverse(events[j].flow.tuple);
    SamplesAt(events, j);
    PendingHasSyn(events[..j], k);
    var i :| Unanswered(events[..j], i, j, k) && events[..j][i].now == Pending(events[..j])[k];
    assert Unanswered(events, i, j, events[i].flow.tuple);
  }

  /** Hence no SYN is timed twice. */
  lemma {:induction false} SynTimedOnce(events: seq<Event>, i: nat, j: nat, j': nat)
    requires j < j' < |events| && Samples(events)[j].Some?
    requires i < j && Opposite(events[i].flow.tuple, events[j].flow.tuple)
    ensures !Unanswered(events, i, j', events[i].flow.tuple)
  {
    SamplesAt(events, j);
    assert IsSynAck(events[j].flow);
  }
}
