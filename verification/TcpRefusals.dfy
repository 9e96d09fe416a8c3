/**
 What refused SYNs cost the latency tracker (internal/agent/setup_dataplane.go): exactly when
 the bounded tracker emits other samples than the unbounded one, and a run in which it does.
 */
module TcpRefusals {
  import opened Prelude
  import opened TcpLatency

  ghost predicate IsSynOf(e: Event, k: Tuple)
  {
    IsSyn(e.flow) && e.flow.tuple == k
  }

  ghost predicate Answers(e: Event, k: Tuple)
  {
    IsSynAck(e.flow) && Reverse(e.flow.tuple) == k
  }

  /** SYN `i` found the tracker full. */
  ghost predicate RefusedAt(events: seq<Event>, i: nat)
  {
    i < |events| && Refused(Pending(events[..i]), events[i])
  }

  /** The latest SYN of `k` since the last answer. */
  ghost function LatestSyn(events: seq<Event>, k: Tuple): (r: Option<nat>)
    ensures r.Some? ==> r.value < |events|
  {
    if events == [] then None
    else
      var last := |events| - 1;
      if IsSynOf(events[last], k) then Some(last)
      else if Answers(events[last], k) then None
      else LatestSyn(events[..last], k)
  }

  /** The latest of those that was not refused. */
  ghost function LatestAccepted(events: seq<Event>, k: Tuple): (r: Option<nat>)
    ensures r.Some? ==> r.value < |events|
  {
    if events == [] then None
    else
      var last := |events| - 1;
      if IsSynOf(events[last], k) && !RefusedAt(events, last) then Some(last)
      else if Answers(events[last], k) then None
      else LatestAccepted(events[..last], k)
  }

  /** The sample that timing from event `from` gives at `now`. */
  function Timed(events: seq<Event>, from: Option<nat>, now: int): Option<int>
    requires from.Some? ==> from.value < |events|
  {
    if from.Some? && 0 < now - events[from.value].now < WINDOW then Some(now - events[from.value].now) else None
  }

  // ------------------------------------------------------------------ both trackers by events

  lemma {:induction false} IdealByEvents(events: seq<Event>, k: Tuple)
    ensures k in IdealPending(events) <==> LatestSyn(events, k).Some?
    ensures k in IdealPending(events) ==> IdealPending(events)[k] == events[LatestSyn(events, k).value].now
  {
    hide IsSyn, IsSynAck;
    if events != [] {
      NotBoth(events[|events| - 1].flow);
      IdealByEvents(events[..|events| - 1], k);
    }
  }

  /** One event, seen from one tuple. */
  lemma NextAt(pending: Times, e: Event, k: Tuple)
    ensures k in Next(pending, e) ==>
              if IsSynOf(e, k) && !Refused(pending, e) then Next(pending, e)[k] == e.now
              else k in pending && !Answers(e, k) && Next(pending, e)[k] == pending[k]
    ensures k !in Next(pending, e) ==>
              if IsSynOf(e, k) && !Refused(pending, e) then false
              else Answers(e, k) || k !in pending || pending[k] < e.now - WINDOW
  {
    hide IsSyn, IsSynAck, Evicted;
    var p := Recorded(pending, e);
    EvictedAt(p, e.now, k);
    NotBoth(e.flow);
    OnlyTcp(e.flow);
  }

  lemma EvictedAt(p: Times, now: int, k: Tuple)
    ensures k in Evicted(p, now) ==> k in p && Evicted(p, now)[k] == p[k]
    ensures k !in Evicted(p, now) ==> k !in p || p[k] < now - WINDOW
  {}

  lemma NotBoth(f: Flow)
    ensures !(IsSyn(f) && IsSynAck(f))
  {}

  lemma OnlyTcp(f: Flow)
    ensures IsSyn(f) || IsSynAck(f) ==> f.protocol == PROTO_TCP
  {}

  /** The tracker has the latest accepted SYN, unless that is too old to matter. */
  lemma {:induction false} TrackerByEvents(events: seq<Event>, k: Tuple)
    requires Monotonic(events)
    ensures var from := LatestAccepted(events, k);
            && (k in Pending(events) ==> from.Some? && Pending(events)[k] == events[from.value].now)
            && (k !in Pending(events) && from.Some? ==>
                  events[from.value].now < events[|events| - 1].now - WINDOW)
  {
    hide Next, Refused, IsSynOf, Answers;
    if events != [] {
      var last := |events| - 1;
      var init, e := events[..last], events[last];
      TrackerByEvents(init, k);
      NextAt(Pending(init), e, k);
      assert last > 0 ==> init[last - 1] == events[last - 1] && events[last - 1].now <= e.now;
    }
  }

  lemma SampleByEvents(events: seq<Event>, j: nat)
    requires Monotonic(events) && j < |events|
    ensures var k := Reverse(events[j].flow.tuple);
            Samples(events)[j] ==
            if IsSynAck(events[j].flow) then Timed(events, LatestAccepted(events[..j], k), events[j].now) else None
  {
    hide IsSynAck, Pending, LatestAccepted, Samples, Monotonic;
    var k, before := Reverse(events[j].flow.tuple), events[..j];
    SamplesAt(events, j);
    MonotonicPrefix(events, j);
    TrackerByEvents(before, k);
    var from := LatestAccepted(before, k);
    assert from.Some? ==> before[from.value] == events[from.value];
    assert j > 0 ==> before[|before| - 1] == events[j - 1];
  }

  lemma MonotonicPrefix(events: seq<Event>, j: nat)
    requires Monotonic(events) && j < |events|
    ensures Monotonic(events[..j])
    ensures j > 0 ==> events[j - 1].now <= events[j].now
  {}

  lemma IdealSampleByEvents(events: seq<Event>, j: nat)
    requires j < |events|
    ensures var k := Reverse(events[j].flow.tuple);
            IdealSamples(events)[j] ==
            if IsSynAck(events[j].flow) then Timed(events, LatestSyn(events[..j], k), events[j].now) else None
  {
    hide IsSynAck, IdealPending, LatestSyn;
    IdealSamplesAt(events, j);
    IdealByEvents(events[..j], Reverse(events[j].flow.tuple));
  }

  lemma {:induction false} IdealSamplesAt(events: seq<Event>, j: nat)
    requires j < |events|
    ensures IdealSamples(events)[j] == Sample(IdealPending(events[..j]), events[j])
  {
    hide Sample, IdealNext;
    var last := |events| - 1;
    if j < last {
      IdealSamplesAt(events[..last], j);
      assert events[..last][..j] == events[..j];
    }
  }

  /** They differ only when the latest SYN was refused. */
  lemma {:induction false} AcceptedIsLatest(events: seq<Event>, k: Tuple)
    ensures var latest, accepted := LatestSyn(events, k), LatestAccepted(events, k);
            && (accepted.Some? ==> latest.Some? && accepted.value <= latest.value && !RefusedAt(events, accepted.value))
            && (latest.Some? && !RefusedAt(events, latest.value) ==> accepted == latest)
  {
    hide IsSynOf, Answers, Refused, Pending;
    if events != [] {
      var last := |events| - 1;
      AcceptedIsLatest(events[..last], k);
      forall i: nat | i < last
        ensures RefusedAt(events[..last], i) <==> RefusedAt(events, i)
      {
        assert events[..last][..i] == events[..i];
      }
    }
  }

  // ------------------------------------------------------------------ the exact condition

  /** SYN-ACK `j` answers a refused SYN `i`, and timing from the last accepted one instead, if
      there is one, does not give the same. */
  ghost predicate Spoiled(events: seq<Event>, i: nat, j: nat)
    requires i < j < |events|
  {
    var k, now := Reverse(events[j].flow.tuple), events[j].now;
    var accepted := LatestAccepted(events[..j], k);
    && IsSynAck(events[j].flow) && LatestSyn(events[..j], k) == Some(i) && RefusedAt(events, i)
    && (if 0 < now - events[i].now < WINDOW then accepted.None? || events[accepted.value].now != events[i].now
        else accepted.Some? && 0 < now - events[accepted.value].now < WINDOW)
  }

  lemma SampleDiffersIff(events: seq<Event>, j: nat)
    requires Monotonic(events) && j < |events|
    ensures Samples(events)[j] != IdealSamples(events)[j] <==> exists i: nat :: i < j && Spoiled(events, i, j)
  {
    hide IsSynAck, Pending, LatestAccepted, LatestSyn, Samples, IdealSamples, Refused;
    var k := Reverse(events[j].flow.tuple);
    SampleByEvents(events, j);
    IdealSampleByEvents(events, j);
    AcceptedIsLatest(events[..j], k);
    var latest, accepted := LatestSyn(events[..j], k), LatestAccepted(events[..j], k);
    if latest.Some? {
      var i := latest.value;
      assert events[..j][..i] == events[..i];
      assert RefusedAt(events[..j], i) <==> RefusedAt(events, i);
      assert Spoiled(events, i, j) <==> Samples(events)[j] != IdealSamples(events)[j];
    }
  }

  /** With a clock that does not run backwards the tracker emits exactly the samples of the
      unbounded one if and only if no SYN-ACK is spoiled by a refused SYN. */
  lemma RefinesIdealIff(events: seq<Event>)
    requires Monotonic(events)
    ensures Samples(events) == IdealSamples(events) <==>
            forall i: nat, j: nat :: i < j < |events| ==> !Spoiled(events, i, j)
  {
    hide Samples, IdealSamples, Spoiled;
    forall j: nat | j < |events|
      ensures Samples(events)[j] != IdealSamples(events)[j] <==> exists i: nat :: i < j && Spoiled(events, i, j)
    {
      SampleDiffersIff(events, j);
    }
    assert forall i: nat, j: nat :: i < j < |events| && Spoiled(events, i, j) ==>
           Samples(events)[j] != IdealSamples(events)[j];
    if forall i: nat, j: nat :: i < j < |events| ==> !Spoiled(events, i, j) {
      assert forall j: nat :: j < |events| ==> Samples(events)[j] == IdealSamples(events)[j];
    }
  }

  ghost predicate StrictlyMonotonic(events: seq<Event>)
  {
    forall i, j :: 0 <= i < j < |events| ==> events[i].now < events[j].now
  }

  /** SYN-ACK `j` answers SYN `i`, the latest of its connection, which was refused. */
  ghost predicate AnswersRefused(events: seq<Event>, i: nat, j: nat)
    requires i < j < |events|
  {
    && IsSynAck(events[j].flow) && RefusedAt(events, i)
    && LatestSyn(events[..j], Reverse(events[j].flow.tuple)) == Some(i)
  }

  /** When no two events share a time the condition is plain: every SYN-ACK that answers a
      refused SYN comes at least the window after it. */
  lemma RefinesIdealIffLate(events: seq<Event>)
    requires StrictlyMonotonic(events)
    ensures Samples(events) == IdealSamples(events) <==>
            forall i: nat, j: nat :: i < j < |events| && AnswersRefused(events, i, j) ==>
              events[j].now - events[i].now >= WINDOW
  {
    hide Samples, IdealSamples, Spoiled, AnswersRefused;
    RefinesIdealIff(events);
    forall i: nat, j: nat | i < j < |events|
      ensures Spoiled(events, i, j) <==> AnswersRefused(events, i, j) && events[j].now - events[i].now < WINDOW
    {
      SpoiledIffEarly(events, i, j);
    }
  }

  lemma SpoiledIffEarly(events: seq<Event>, i: nat, j: nat)
    requires StrictlyMonotonic(events) && i < j < |events|
    ensures Spoiled(events, i, j) <==> AnswersRefused(events, i, j) && events[j].now - events[i].now < WINDOW
  {
    hide IsSynAck, LatestSyn, LatestAccepted, Refused, Pending;
    var k := Reverse(events[j].flow.tuple);
    AcceptedIsLatest(events[..j], k);
    assert events[..j][..i] == events[..i];
    assert RefusedAt(events[..j], i) <==> RefusedAt(events, i);
  }

  // ------------------------------------------------------------------ a run that loses a sample

  function Client(i: nat): Tuple
  {
    Tuple("10.0.0.1", "10.0.0.2", i, 80)
  }

  function SynFrom(i: nat): Event
  {
    Event(Flow(PROTO_TCP, Client(i), TCP_SYN), i)
  }

  /** One SYN from each of `n` ports, one nanosecond apart. */
  function Flood(n: nat): (r: seq<Event>)
    ensures |r| == n && forall i :: 0 <= i < n ==> r[i] == SynFrom(i)
  {
    seq(n, i requires 0 <= i < n => SynFrom(i))
  }

  /** As many unanswered connections as the tracker holds, one more, and the answer to it. */
  function FloodRun(): seq<Event>
  {
    Flood(MAX_TRACKED + 1) + [Event(Flow(PROTO_TCP, Reverse(Client(MAX_TRACKED)), TCP_SYN | TCP_ACK), MAX_TRACKED + 1)]
  }

  /** All of them are pending. */
  ghost predicate Flooded(pending: Times, n: nat)
  {
    && |pending| == n
    && forall k :: k in pending ==> k.srcPort < n && k == Client(k.srcPort) && pending[k] == k.srcPort
  }

  lemma SynIsSyn(i: nat)
    ensures IsSyn(SynFrom(i).flow)
    ensures IsSynAck(Flow(PROTO_TCP, Reverse(Client(i)), TCP_SYN | TCP_ACK))
  {}

  lemma {:induction false} FloodPending(n: nat)
    requires n <= MAX_TRACKED
    ensures Flooded(Pending(Flood(n)), n)
  {
    hide IsSyn, IsSynAck;
    if n > 0 {
      FloodPending(n - 1);
      assert Flood(n)[..n - 1] == Flood(n - 1);
      FloodStep(Pending(Flood(n - 1)), n - 1);
    }
  }

  lemma FloodStep(pending: Times, n: nat)
    requires n < MAX_TRACKED && Flooded(pending, n)
    ensures Flooded(Next(pending, SynFrom(n)), n + 1)
  {
    hide IsSyn, IsSynAck;
    SynIsSyn(n);
    var p := Recorded(pending, SynFrom(n));
    assert p == pending[Client(n) := n];
    assert Evicted(p, n) == p;
  }

  lemma FloodRefused()
    ensures RefusedAt(FloodRun(), MAX_TRACKED)
  {
    assert FloodRun()[..MAX_TRACKED] == Flood(MAX_TRACKED);
    assert FloodRun()[MAX_TRACKED] == SynFrom(MAX_TRACKED);
    FloodPending(MAX_TRACKED);
    SynIsSyn(MAX_TRACKED);
  }

  /** The run is in time, its one SYN-ACK answers a refused SYN at once, and its sample is
      lost. */
  lemma FloodLosesSample()
    ensures StrictlyMonotonic(FloodRun()) && |FloodRun()| == 10002
    ensures Samples(FloodRun()) != IdealSamples(FloodRun())
  {
    hide IsSyn, IsSynAck, Samples, IdealSamples, Refused, Pending, LatestSyn;
    FloodRefused();
    FloodAnswer();
    RefinesIdealIffLate(FloodRun());
    assert AnswersRefused(FloodRun(), MAX_TRACKED, MAX_TRACKED + 1);
  }

  lemma FloodAnswer()
    ensures IsSynAck(FloodRun()[MAX_TRACKED + 1].flow)
    ensures Reverse(FloodRun()[MAX_TRACKED + 1].flow.tuple) == Client(MAX_TRACKED)
    ensures LatestSyn(FloodRun()[..MAX_TRACKED + 1], Client(MAX_TRACKED)) == Some(MAX_TRACKED)
  {
    SynIsSyn(MAX_TRACKED);
    assert FloodRun()[..MAX_TRACKED + 1] == Flood(MAX_TRACKED + 1);
  }
}
