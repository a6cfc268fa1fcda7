/**
  The cooperative loop of `mqtt_run_test` once the connect request has been
  made, and the publish-completion callback `mqtt_pub_request_cb`.

  One iteration reads the clock, and when no publish timer is armed or the
  timer has expired and the client reports itself connected, it subscribes
  once, then publishes; only an accepted publish bumps the counter and re-arms
  the timer 5000 ms ahead. The network stack is an input: the connection flag,
  the publish call's result, and the clock readings arrive with each tick.
 */
module PollLoop {
  import opened Types

  /** The publish period: `make_timeout_time_ms(5000)`, in microseconds. */
  const PublishIntervalUs: int := 5000 * 1000

  const PublishTopic: string := "pico_w/test"
  const SubscribeTopic: string := "pico_w/recv"

  /**
    `timeout` (`nil_time` as `None`, microseconds otherwise) and `subscribed`
    are locals of the loop; `counter` and `received` are fields of the client
    state that the publish payload reports.
   */
  datatype Session = Session(timeout: Option<int>, subscribed: bool, counter: nat, received: nat)

  /**
    The state on entry to the loop: nothing subscribed or counted yet, no timer
    armed before the first subscribe, and the first iteration due at any time.
   */
  function Init(): (s: Session)
    ensures Fresh(s) && !s.subscribed
    ensures s.counter == 0 && s.received == 0
    ensures forall now :: Due(s, now)
  {
    Session(None, false, 0, 0)
  }

  /** The requests the loop hands to the MQTT engine. */
  datatype Action =
    | Subscribe(topic: string)
    | Publish(at: int, topic: string, received: nat, counter: nat, err: int)

  /**
    What can happen between two observations of the loop: one iteration, with
    the clock read at the top (`now`) and again when the timer is re-armed
    (`armedAt`), the connection flag and the publish call's result; or the MQTT
    engine reporting a publish as done.
   */
  datatype Event =
    | Tick(now: int, armedAt: int, connected: bool, publishErr: int)
    | PublishDone(err: int)

  datatype Outcome = Outcome(session: Session, actions: seq<Action>)

  /** `is_nil_time(timeout) || absolute_time_diff_us(now, timeout) <= 0`. */
  predicate Due(s: Session, now: int) {
    s.timeout.None? || s.timeout.value - now <= 0
  }

  /**
    One iteration of the loop. Nothing happens unless the timer is due and the
    client is connected; then the subscribe is issued if it has not been, the
    session counts as subscribed whatever the subscribe returned, and one publish
    is attempted, which bumps the counter and re-arms the timer only on `ERR_OK`.
   */
  function Poll(s: Session, now: int, armedAt: int, connected: bool, publishErr: int): (r: Outcome)
    requires now <= armedAt
    ensures !connected || !Due(s, now) ==> r == Outcome(s, [])
    ensures connected && Due(s, now) ==>
      && r.session.subscribed
      && r.session.received == s.received
      && |r.actions| == (if s.subscribed then 1 else 2)
      && (!s.subscribed ==> r.actions[0] == Subscribe(SubscribeTopic))
      && r.actions[|r.actions| - 1] == Publish(now, PublishTopic, s.received, s.counter, publishErr)
    ensures connected && Due(s, now) && publishErr == ErrOk ==>
      r.session.counter == s.counter + 1 && r.session.timeout == Some(armedAt + PublishIntervalUs)
    ensures connected && Due(s, now) && publishErr != ErrOk ==>
      r.session.counter == s.counter && r.session.timeout == s.timeout
  {
    if Due(s, now) && connected then
      var subscribe := if s.subscribed then [] else [Subscribe(SubscribeTopic)];
      var publish := Publish(now, PublishTopic, s.received, s.counter, publishErr);
      var s' :=
        if publishErr == ErrOk then
          s.(subscribed := true, timeout := Some(armedAt + PublishIntervalUs), counter := s.counter + 1)
        else
          s.(subscribed := true);
      Outcome(s', subscribe + [publish])
    else
      Outcome(s, [])
  }

  /** `mqtt_pub_request_cb`: counts the completion whatever its error code. */
  function PublishCompleted(s: Session, err: int): (r: Session)
    ensures r.received == s.received + 1
    ensures r.(received := s.received) == s
  {
    s.(received := s.received + 1)
  }

  /** Each tick's second clock reading is no earlier than its first. */
  predicate Clocked(e: Event) {
    e.Tick? ==> e.now <= e.armedAt
  }

  predicate AllClocked(events: seq<Event>) {
    forall k :: 0 <= k < |events| ==> Clocked(events[k])
  }

  function Step(s: Session, e: Event): Outcome
    requires Clocked(e)
  {
    match e
    case Tick(now, armedAt, connected, err) => Poll(s, now, armedAt, connected, err)
    case PublishDone(err) => Outcome(PublishCompleted(s, err), [])
  }

  /** Runs the loop over a sequence of events, collecting the requests made. */
  function Run(s: Session, events: seq<Event>): Outcome
    requires AllClocked(events)
    decreases |events|
  {
    if events == [] then Outcome(s, [])
    else
      var o := Step(s, events[0]);
      var rest := Run(o.session, events[1..]);
      Outcome(rest.session, o.actions + rest.actions)
  }

  /** The number of subscribe requests among the actions. */
  function SubscribeCount(actions: seq<Action>): nat {
    if actions == [] then 0
    else (if actions[0].Subscribe? then 1 else 0) + SubscribeCount(actions[1..])
  }

  /** The times of the publishes the MQTT engine accepted, in order. */
  function Accepted(actions: seq<Action>): seq<int> {
    if actions == [] then []
    else
      (if actions[0].Publish? && actions[0].err == ErrOk then [actions[0].at] else [])
      + Accepted(actions[1..])
  }

  /** The number of publish completions reported. */
  function Completions(events: seq<Event>): nat {
    if events == [] then 0
    else (if events[0].PublishDone? then 1 else 0) + Completions(events[1..])
  }

  /** Some iteration saw the client connected. */
  predicate EverConnected(events: seq<Event>) {
    exists k :: 0 <= k < |events| && events[k].Tick? && events[k].connected
  }

  lemma {:induction false} SubscribeCountAppend(a: seq<Action>, b: seq<Action>)
    ensures SubscribeCount(a + b) == SubscribeCount(a) + SubscribeCount(b)
    decreases |a|
  {
    if a != [] {
      assert (a + b)[1..] == a[1..] + b;
      SubscribeCountAppend(a[1..], b);
    } else {
      assert a + b == b;
    }
  }

  lemma {:induction false} AcceptedAppend(a: seq<Action>, b: seq<Action>)
    ensures Accepted(a + b) == Accepted(a) + Accepted(b)
    decreases |a|
  {
    if a != [] {
      assert (a + b)[1..] == a[1..] + b;
      AcceptedAppend(a[1..], b);
    } else {
      assert a + b == b;
    }
  }

  /** Before the first subscribe no publish can have armed the timer. */
  predicate Fresh(s: Session) {
    !s.subscribed ==> s.timeout.None?
  }

  /**
    Starting with the timer unarmed until the first subscribe, the subscribe is
    issued exactly once if some iteration sees the client connected and not at
    all otherwise; if it was already issued, it is never issued again.
   */
  lemma {:induction false} SubscribeAtMostOnce(s: Session, events: seq<Event>)
    requires Fresh(s) && AllClocked(events)
    ensures SubscribeCount(Run(s, events).actions) ==
              if !s.subscribed && EverConnected(events) then 1 else 0
    ensures Run(s, events).session.subscribed <==> s.subscribed || EverConnected(events)
    decreases |events|
  {
    if events != [] {
      var e := events[0];
      var rest := events[1..];
      assert AllClocked(rest);
      var o := Step(s, e);
      SubscribeAtMostOnce(o.session, rest);
      SubscribeCountAppend(o.actions, Run(o.session, rest).actions);
      assert EverConnected(events) <==> (e.Tick? && e.connected) || EverConnected(rest) by {
        if EverConnected(rest) {
          var k :| 0 <= k < |rest| && rest[k].Tick? && rest[k].connected;
          assert events[k + 1] == rest[k];
        }
        if EverConnected(events) && !(e.Tick? && e.connected) {
          var k :| 0 <= k < |events| && events[k].Tick? && events[k].connected;
          assert rest[k - 1] == events[k];
        }
      }
      if e.Tick? && e.connected && !s.subscribed {
        assert o.actions[0] == Subscribe(SubscribeTopic) && o.actions[1].Publish?;
        assert SubscribeCount(o.actions) == 1;
      } else if e.Tick? && e.connected && Due(s, e.now) {
        assert SubscribeCount(o.actions) == 0;
      }
    }
  }

  /** From the loop's entry state the subscribe is issued once exactly when some iteration sees a connection. */
  lemma SubscribeOnceFromStart(events: seq<Event>)
    requires AllClocked(events)
    ensures SubscribeCount(Run(Init(), events).actions) == if EverConnected(events) then 1 else 0
  {
    SubscribeAtMostOnce(Init(), events);
  }

  /** The counter counts exactly the publishes the MQTT engine accepted. */
  lemma {:induction false} CounterCountsAccepted(s: Session, events: seq<Event>)
    requires AllClocked(events)
    ensures Run(s, events).session.counter == s.counter + |Accepted(Run(s, events).actions)|
    decreases |events|
  {
    if events != [] {
      var o := Step(s, events[0]);
      assert AllClocked(events[1..]);
      CounterCountsAccepted(o.session, events[1..]);
      AcceptedAppend(o.actions, Run(o.session, events[1..]).actions);
      match events[0]
      case Tick(now, armedAt, connected, err) =>
        if connected && Due(s, now) {
          if !s.subscribed {
            assert o.actions[0].Subscribe? && o.actions[1..] == [o.actions[1]];
            assert Accepted(o.actions) == Accepted(o.actions[1..]);
          }
          assert Accepted([o.actions[|o.actions| - 1]]) == if err == ErrOk then [now] else [];
        }
      case PublishDone(_) =>
    }
  }

  /** `received` counts exactly the completions reported, failed ones included. */
  lemma {:induction false} ReceivedCountsCompletions(s: Session, events: seq<Event>)
    requires AllClocked(events)
    ensures Run(s, events).session.received == s.received + Completions(events)
    decreases |events|
  {
    if events != [] {
      var o := Step(s, events[0]);
      assert AllClocked(events[1..]);
      ReceivedCountsCompletions(o.session, events[1..]);
    }
  }

  /** Accepted publishes lie at least one period apart. */
  predicate Spaced(ts: seq<int>) {
    forall i, j :: 0 <= i < j < |ts| ==> ts[i] + PublishIntervalUs <= ts[j]
  }

  /** Every accepted publish so far lies at least one period before the armed timer. */
  predicate Armed(s: Session, ts: seq<int>) {
    forall k :: 0 <= k < |ts| ==> s.timeout.Some? && ts[k] + PublishIntervalUs <= s.timeout.value
  }

  /** What one step contributes to the accepted publishes, and where it leaves the timer. */
  lemma StepAccepted(s: Session, e: Event)
    requires Clocked(e)
    ensures var o := Step(s, e);
      if e.Tick? && e.connected && Due(s, e.now) && e.publishErr == ErrOk then
        Accepted(o.actions) == [e.now] && o.session.timeout == Some(e.armedAt + PublishIntervalUs)
      else
        Accepted(o.actions) == [] && o.session.timeout == s.timeout
  {
    var o := Step(s, e);
    if e.Tick? && e.connected && Due(s, e.now) {
      var p := o.actions[|o.actions| - 1];
      if !s.subscribed {
        assert o.actions == [o.actions[0]] + [p];
        AcceptedAppend([o.actions[0]], [p]);
      } else {
        assert o.actions == [p];
      }
      assert [p][1..] == [];
    } else {
      assert o.actions == [];
    }
  }

  /** Appending a publish made no earlier than the old timer keeps the times spaced. */
  lemma AppendKeepsSpacing(ts: seq<int>, timeout: int, now: int, rearmed: int)
    requires Spaced(ts)
    requires forall k :: 0 <= k < |ts| ==> ts[k] + PublishIntervalUs <= timeout
    requires timeout <= now <= rearmed
    ensures Spaced(ts + [now])
    ensures forall k :: 0 <= k < |ts + [now]| ==> (ts + [now])[k] + PublishIntervalUs <= rearmed + PublishIntervalUs
  {
    var ts' := ts + [now];
    forall i, j | 0 <= i < j < |ts'|
      ensures ts'[i] + PublishIntervalUs <= ts'[j]
    {
      if j < |ts| {
        assert ts'[i] == ts[i] && ts'[j] == ts[j];
      } else {
        assert ts'[j] == now && ts'[i] == ts[i];
      }
    }
    forall k | 0 <= k < |ts'|
      ensures ts'[k] + PublishIntervalUs <= rearmed + PublishIntervalUs
    {
      if k < |ts| {
        assert ts'[k] == ts[k];
      }
    }
  }

  /** One step keeps the accepted publishes spaced and behind the timer. */
  lemma StepKeepsSpacing(s: Session, ts: seq<int>, e: Event)
    requires Clocked(e) && Spaced(ts) && Armed(s, ts)
    ensures var o := Step(s, e);
      Spaced(ts + Accepted(o.actions)) && Armed(o.session, ts + Accepted(o.actions))
  {
    var o := Step(s, e);
    StepAccepted(s, e);
    if e.Tick? && e.connected && Due(s, e.now) && e.publishErr == ErrOk {
      if ts == [] {
        assert ts + [e.now] == [e.now];
      } else {
        assert s.timeout.Some? && ts[0] + PublishIntervalUs <= s.timeout.value;
        AppendKeepsSpacing(ts, s.timeout.value, e.now, e.armedAt);
      }
    } else {
      assert ts + [] == ts;
    }
  }

  /** Accepted publishes stay spaced over any run from a state that respects the timer. */
  lemma {:induction false} RunKeepsSpacing(s: Session, ts: seq<int>, events: seq<Event>)
    requires AllClocked(events) && Spaced(ts) && Armed(s, ts)
    ensures Spaced(ts + Accepted(Run(s, events).actions))
    decreases |events|
  {
    if events == [] {
      assert ts + Accepted([]) == ts;
    } else {
      var o := Step(s, events[0]);
      var rest := Run(o.session, events[1..]);
      StepKeepsSpacing(s, ts, events[0]);
      assert AllClocked(events[1..]);
      RunKeepsSpacing(o.session, ts + Accepted(o.actions), events[1..]);
      AcceptedAppend(o.actions, rest.actions);
      assert ts + Accepted(o.actions + rest.actions) == (ts + Accepted(o.actions)) + Accepted(rest.actions);
    }
  }

  /** From the loop's entry state, any two accepted publishes are at least 5000 ms apart. */
  lemma PublishesAtLeastIntervalApart(events: seq<Event>)
    requires AllClocked(events)
    ensures Spaced(Accepted(Run(Init(), events).actions))
  {
    RunKeepsSpacing(Init(), [], events);
    assert [] + Accepted(Run(Init(), events).actions) == Accepted(Run(Init(), events).actions);
  }

  /** Before the subscribe is issued, no request of any kind has been made. */
  lemma {:induction false} SubscribeComesFirst(s: Session, events: seq<Event>)
    requires !s.subscribed && s.timeout.None? && AllClocked(events)
    ensures var acts := Run(s, events).actions;
      acts != [] ==> acts[0] == Subscribe(SubscribeTopic)
    decreases |events|
  {
    if events != [] {
      var o := Step(s, events[0]);
      assert AllClocked(events[1..]);
      if o.actions == [] {
        assert o.session.timeout.None? && !o.session.subscribed;
        SubscribeComesFirst(o.session, events[1..]);
        assert Run(s, events).actions == Run(o.session, events[1..]).actions;
      } else {
        assert o.actions[0] == Subscribe(SubscribeTopic);
      }
    }
  }

  /**
    A publish the MQTT engine rejects leaves the expired timer as it was, so the
    next iteration that finds the client connected publishes again, however soon
    it comes: only accepted publishes are spaced, not attempts.
   */
  lemma RejectedPublishRetriedAtOnce(s: Session, now: int, armedAt: int, err: int, later: int, armedAt2: int, err2: int)
    requires Due(s, now) && err != ErrOk
    requires now <= armedAt && now <= later <= armedAt2
    ensures var r1 := Poll(s, now, armedAt, true, err);
      var r2 := Poll(r1.session, later, armedAt2, true, err2);
      && r1.actions[|r1.actions| - 1] == Publish(now, PublishTopic, s.received, s.counter, err)
      && |r2.actions| == 1
      && r2.actions[0] == Publish(later, PublishTopic, s.received, s.counter, err2)
  {
    var r1 := Poll(s, now, armedAt, true, err);
    assert r1.session.timeout == s.timeout && r1.session.subscribed;
    assert Due(r1.session, later);
  }

  /** From the entry state, a rejected publish at time 0 is retried at time 0. */
  lemma RejectedPublishScenario()
    ensures var acts := Run(Init(), [Tick(0, 0, true, 1), Tick(0, 0, true, ErrOk)]).actions;
      && |acts| == 3
      && acts[1] == Publish(0, PublishTopic, 0, 0, 1)
      && acts[2] == Publish(0, PublishTopic, 0, 0, ErrOk)
  {
    var events := [Tick(0, 0, true, 1), Tick(0, 0, true, ErrOk)];
    assert AllClocked(events);
    var o1 := Step(Init(), events[0]);
    assert o1.actions == [Subscribe(SubscribeTopic), Publish(0, PublishTopic, 0, 0, 1)];
    assert events[1..] == [Tick(0, 0, true, ErrOk)];
    assert AllClocked(events[1..]);
    var o2 := Step(o1.session, events[1]);
    assert o2.actions == [Publish(0, PublishTopic, 0, 0, ErrOk)];
    assert events[1..][1..] == [];
    assert Run(o1.session, events[1..]).actions == o2.actions + [];
  }
}
