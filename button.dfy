/** The debounce and click-classification state machine of one push button.
    `update()` is fed the current time and pin level; `perform_clicks()` runs one
    update, then reads and clears at most one of the two sticky click flags. */
module ButtonInput {

  datatype Option<T> = None | Some(value: T)

  /** `unsigned long` on the controller is 32 bits wide. */
  const Wrap: nat := 0x1_0000_0000

  /** A reading of the millisecond clock. */
  type Millis = x: nat | x < Wrap

  /** Minimum time a level must hold before it is trusted. */
  const DebounceThreshold: nat := 50
  /** Time after the press start within which a second press makes a double click. */
  const ClickThreshold: nat := 300

  /** `now - since` evaluated in 32-bit unsigned arithmetic: the time that must
      pass after `since`, modulo 2^32, for the clock to read `now`. */
  function Elapsed(now: Millis, since: Millis): (d: Millis)
    ensures (since + d) % Wrap == now
    ensures since <= now ==> d == now - since
    ensures now < since ==> d == Wrap - (since - now)
  {
    (now - since) % Wrap
  }

  lemma ThresholdsOrdered()
    ensures 0 < DebounceThreshold < ClickThreshold
  {
  }

  /** The four states, in the order of the enumeration. */
  datatype State = Released | Pressed | ClickedSingle | ClickedDouble

  /** The value the enumeration gives a state; the source keeps it in a `uint8_t`. */
  function Code(st: State): (c: nat)
    ensures c < 4
    ensures c == 0 <==> st == Released
  {
    match st
    case Released => 0
    case Pressed => 1
    case ClickedSingle => 2
    case ClickedDouble => 3
  }

  /** The state a stored code stands for; codes past the enumeration stand for none. */
  function Decode(c: nat): (r: Option<State>)
    ensures r.Some? <==> c < 4
    ensures r.Some? ==> Code(r.value) == c
  {
    if c == 0 then Some(Released)
    else if c == 1 then Some(Pressed)
    else if c == 2 then Some(ClickedSingle)
    else if c == 3 then Some(ClickedDouble)
    else None
  }

  lemma DecodeCode(st: State)
    ensures Decode(Code(st)) == Some(st)
  {
  }

  /** Everything `update()` and `perform_clicks()` read and write. */
  datatype ButtonState = ButtonState(
    state: State,
    startTime: Millis,
    stopTime: Millis,
    singleClicked: bool,
    doubleClicked: bool)

  /** What the constructor establishes. */
  const Initial: ButtonState := ButtonState(Released, 0, 0, false, false)

  /** The invariant the button keeps: a flag is pending only while the machine
      rests in `Released`, and never both flags at once. */
  predicate Inv(s: ButtonState) {
    (s.state != Released ==> !s.singleClicked && !s.doubleClicked)
    && !(s.singleClicked && s.doubleClicked)
  }

  /** No flag pending. */
  predicate NoFlag(s: ButtonState) {
    !s.singleClicked && !s.doubleClicked
  }

  /** Ready for a new gesture: released and nothing pending. */
  predicate Idle(s: ButtonState) {
    s.state == Released && NoFlag(s)
  }

  /** One run of `update()` at time `now` with the pin reading `pressed`. */
  function Step(s: ButtonState, now: Millis, pressed: bool): (r: ButtonState)
    ensures Inv(s) ==> Inv(r)
  {
    match s.state
    case Released =>
      if pressed && !(s.singleClicked || s.doubleClicked) then s.(state := Pressed, startTime := now)
      else s
    case Pressed =>
      if !pressed && Elapsed(now, s.startTime) < DebounceThreshold then s.(state := Released)
      else if !pressed then s.(state := ClickedSingle, stopTime := now)
      else s
    case ClickedSingle =>
      if Elapsed(now, s.startTime) > ClickThreshold then s.(singleClicked := true, state := Released)
      else if pressed && Elapsed(now, s.stopTime) > DebounceThreshold then s.(state := ClickedDouble, startTime := now)
      else s
    case ClickedDouble =>
      if !pressed && Elapsed(now, s.startTime) > DebounceThreshold then
        s.(singleClicked := false, doubleClicked := true, state := Released)
      else s
  }

  /** The click a poll resolves. */
  datatype Click = NoClick | SingleClick | DoubleClick

  /** The flag read-and-clear of `perform_clicks()`: the single flag wins, only
      the flag that is reported is cleared, and nothing else changes. */
  function Resolve(s: ButtonState): (r: (Click, ButtonState))
    ensures r.0 == SingleClick <==> s.singleClicked
    ensures r.0 == DoubleClick <==> !s.singleClicked && s.doubleClicked
    ensures r.0 == SingleClick ==> r.1 == s.(singleClicked := false)
    ensures r.0 == DoubleClick ==> r.1 == s.(doubleClicked := false)
    ensures r.0 == NoClick ==> r.1 == s
    ensures Inv(s) ==> Inv(r.1) && NoFlag(r.1)
  {
    if s.singleClicked then (SingleClick, s.(singleClicked := false))
    else if s.doubleClicked then (DoubleClick, s.(doubleClicked := false))
    else (NoClick, s)
  }

  /** One `perform_clicks()`: an update, then the read-and-clear. */
  function Poll(s: ButtonState, now: Millis, pressed: bool): (r: (Click, ButtonState))
    ensures Inv(s) ==> Inv(r.1) && NoFlag(r.1)
  {
    Resolve(Step(s, now, pressed))
  }

  /** Whether a callback runs for the resolved click: a click whose action
      pointer is missing is consumed without effect. */
  function Dispatches(c: Click, hasSingleAction: bool, hasDoubleAction: bool): (r: bool)
    ensures r ==> c != NoClick
    ensures c == SingleClick ==> (r <==> hasSingleAction)
    ensures c == DoubleClick ==> (r <==> hasDoubleAction)
  {
    match c
    case NoClick => false
    case SingleClick => hasSingleAction
    case DoubleClick => hasDoubleAction
  }

  /** `update()` only produces flags: a pending flag survives every update. */
  lemma StepKeepsFlags(s: ButtonState, now: Millis, pressed: bool)
    requires Inv(s)
    ensures s.singleClicked ==> Step(s, now, pressed).singleClicked
    ensures s.doubleClicked ==> Step(s, now, pressed).doubleClicked
    ensures NoFlag(s) ==> Step(s, now, pressed).state == Released || NoFlag(Step(s, now, pressed))
  {
  }

  /** With a flag pending, the button is busy: updates change nothing. */
  lemma PendingFlagFreezes(s: ButtonState, now: Millis, pressed: bool)
    requires Inv(s)
    requires s.singleClicked || s.doubleClicked
    ensures Step(s, now, pressed) == s
  {
  }

  /** The read-and-clear only consumes flags: it never raises one and never
      touches the state or the timestamps. */
  lemma ResolveOnlyConsumes(s: ButtonState)
    ensures Resolve(s).1.singleClicked ==> s.singleClicked
    ensures Resolve(s).1.doubleClicked ==> s.doubleClicked
    ensures Resolve(s).1.state == s.state
    ensures Resolve(s).1.startTime == s.startTime && Resolve(s).1.stopTime == s.stopTime
  {
  }

  /** A gesture is reported once: after a poll that reports a click, the next
      poll reports none, whatever time and level it sees. */
  lemma ClickReportedOnce(s: ButtonState, t1: Millis, p1: bool, t2: Millis, p2: bool)
    requires Inv(s)
    requires Poll(s, t1, p1).0 != NoClick
    ensures Idle(Poll(s, t1, p1).1)
    ensures Poll(Poll(s, t1, p1).1, t2, p2).0 == NoClick
  {
  }

  /** A reading of the clock and the pin. It is taken either by the interrupt
      routine's `update()` (`polled` false) or by the main loop's
      `perform_clicks()` (`polled` true). */
  datatype Event = Event(now: Millis, pressed: bool, polled: bool)

  /** One reading: a poll reports the click it resolves; an interrupt update
      reports nothing. */
  function Apply(s: ButtonState, e: Event): (r: (Click, ButtonState))
    ensures Inv(s) ==> Inv(r.1)
    ensures !e.polled ==> r.0 == NoClick
  {
    if e.polled then Poll(s, e.now, e.pressed) else (NoClick, Step(s, e.now, e.pressed))
  }

  /** The click reported at each reading of a series, first reading first,
      and the state after the last one. */
  function Trace(s: ButtonState, evs: seq<Event>): (r: (seq<Click>, ButtonState))
    ensures |r.0| == |evs|
    ensures Inv(s) ==> Inv(r.1)
    decreases |evs|
  {
    if evs == [] then ([], s)
    else
      var first := Apply(s, evs[0]);
      var rest := Trace(first.1, evs[1..]);
      ([first.0] + rest.0, rest.1)
  }

  lemma TraceOne(s: ButtonState, e: Event)
    ensures Trace(s, [e]) == ([Apply(s, e).0], Apply(s, e).1)
  {
    assert [e][1..] == [];
    assert Trace(Apply(s, e).1, []) == ([], Apply(s, e).1);
    assert [Apply(s, e).0] + [] == [Apply(s, e).0];
  }

  /** How often `c` occurs among the reported clicks. */
  function Count(cs: seq<Click>, c: Click): (n: nat)
    ensures n <= |cs|
    decreases |cs|
  {
    if cs == [] then 0 else (if cs[0] == c then 1 else 0) + Count(cs[1..], c)
  }

  lemma {:induction false} CountAppend(a: seq<Click>, b: seq<Click>, c: Click)
    ensures Count(a + b, c) == Count(a, c) + Count(b, c)
    decreases |a|
  {
    if a == [] {
      assert a + b == b;
    } else {
      assert (a + b)[1..] == a[1..] + b;
      CountAppend(a[1..], b, c);
    }
  }

  /** Readings taken one after the other: the trace of `a + b` is the trace
      of `a` followed by the trace of `b` from where `a` left the button. */
  lemma {:induction false} TraceAppend(s: ButtonState, a: seq<Event>, b: seq<Event>)
    ensures Trace(s, a + b) == (Trace(s, a).0 + Trace(Trace(s, a).1, b).0, Trace(Trace(s, a).1, b).1)
    decreases |a|
  {
    if a == [] {
      assert a + b == b;
      assert Trace(s, a) == ([], s);
      assert [] + Trace(s, b).0 == Trace(s, b).0;
    } else {
      var next := Apply(s, a[0]);
      assert (a + b)[0] == a[0];
      assert (a + b)[1..] == a[1..] + b;
      TraceAppend(next.1, a[1..], b);
      var mid := Trace(next.1, a[1..]);
      var tail := Trace(mid.1, b);
      assert Trace(s, a) == ([next.0] + mid.0, mid.1);
      assert Trace(s, a + b) == ([next.0] + (mid.0 + tail.0), tail.1);
      assert [next.0] + (mid.0 + tail.0) == ([next.0] + mid.0) + tail.0;
    }
  }

  /** `TraceAppend`, counted: the single and double clicks reported along
      `a + b` are those along `a` plus those along `b`. */
  lemma TraceThen(s: ButtonState, a: seq<Event>, b: seq<Event>)
    ensures Trace(s, a + b).1 == Trace(Trace(s, a).1, b).1
    ensures Count(Trace(s, a + b).0, SingleClick)
      == Count(Trace(s, a).0, SingleClick) + Count(Trace(Trace(s, a).1, b).0, SingleClick)
    ensures Count(Trace(s, a + b).0, DoubleClick)
      == Count(Trace(s, a).0, DoubleClick) + Count(Trace(Trace(s, a).1, b).0, DoubleClick)
  {
    TraceAppend(s, a, b);
    CountAppend(Trace(s, a).0, Trace(Trace(s, a).1, b).0, SingleClick);
    CountAppend(Trace(s, a).0, Trace(Trace(s, a).1, b).0, DoubleClick);
  }

  /** Readings that each leave the button as it is, with no flag pending,
      report nothing and leave it where it was. */
  lemma {:induction false} TraceSteady(s: ButtonState, evs: seq<Event>)
    requires NoFlag(s)
    requires forall i :: 0 <= i < |evs| ==> Step(s, evs[i].now, evs[i].pressed) == s
    ensures Trace(s, evs).1 == s
    ensures Count(Trace(s, evs).0, SingleClick) == 0 && Count(Trace(s, evs).0, DoubleClick) == 0
    decreases |evs|
  {
    if evs != [] {
      var rest := evs[1..];
      assert forall i :: 0 <= i < |rest| ==> rest[i] == evs[i + 1];
      TraceSteady(s, rest);
      assert Apply(s, evs[0]) == (NoClick, s);
    }
  }

  /** While the button is held, further pressed readings change nothing. */
  lemma HeldIsSteady(s: ButtonState, now: Millis)
    requires s.state == Pressed
    ensures Step(s, now, true) == s
  {
  }

  /** After the first release and inside the click window, a released
      reading, or a pressed one no more than the debounce threshold after the
      release (a bounce of the release), changes nothing. */
  lemma WaitIsSteady(s: ButtonState, now: Millis, pressed: bool)
    requires s.state == ClickedSingle
    requires Elapsed(now, s.startTime) <= ClickThreshold
    requires !pressed || Elapsed(now, s.stopTime) <= DebounceThreshold
    ensures Step(s, now, pressed) == s
  {
  }

  /** While the second press is held, a pressed reading, or a released one no
      more than the debounce threshold after the second press, changes nothing. */
  lemma SecondHoldIsSteady(s: ButtonState, now: Millis, pressed: bool)
    requires s.state == ClickedDouble
    requires pressed || Elapsed(now, s.startTime) <= DebounceThreshold
    ensures Step(s, now, pressed) == s
  {
  }

  /** Released readings after the second release: the first poll among them
      reports the pending double click, and nothing else is reported. */
  lemma {:induction false} ReleasedTail(s: ButtonState, evs: seq<Event>)
    requires Inv(s) && s.state == Released && !s.singleClicked
    requires forall i :: 0 <= i < |evs| ==> !evs[i].pressed
    ensures Trace(s, evs).1.state == Released && !Trace(s, evs).1.singleClicked
    ensures Trace(s, evs).1.startTime == s.startTime && Trace(s, evs).1.stopTime == s.stopTime
    ensures Count(Trace(s, evs).0, SingleClick) == 0
    ensures Count(Trace(s, evs).0, DoubleClick) + (if Trace(s, evs).1.doubleClicked then 1 else 0)
      == if s.doubleClicked then 1 else 0
    ensures (exists i :: 0 <= i < |evs| && evs[i].polled) ==> !Trace(s, evs).1.doubleClicked
    decreases |evs|
  {
    if evs != [] {
      var next := Apply(s, evs[0]).1;
      var rest := evs[1..];
      assert forall i :: 0 <= i < |rest| ==> rest[i] == evs[i + 1];
      ReleasedTail(next, rest);
      if !evs[0].polled && exists i :: 0 <= i < |evs| && evs[i].polled {
        var i :| 0 <= i < |evs| && evs[i].polled;
        assert rest[i - 1].polled;
      }
    }
  }

  /** No click under way: released or held, nothing pending. */
  predicate Quiet(s: ButtonState) {
    (s.state == Released || s.state == Pressed) && NoFlag(s)
  }

  /** Every press in the series is released less than the debounce threshold
      after it began, and no reading comes before the latest change of level.
      `held` is the level before the first reading and `since` the time of the
      latest change. */
  predicate ShortPresses(evs: seq<Event>, held: bool, since: Millis)
    decreases |evs|
  {
    evs == [] ||
    (since <= evs[0].now &&
     if evs[0].pressed == held then ShortPresses(evs[1..], held, since)
     else (held ==> evs[0].now < since + DebounceThreshold) && ShortPresses(evs[1..], evs[0].pressed, evs[0].now))
  }

  /** The pin level after the last reading of `evs`, or `held` if there is none. */
  function LastLevel(evs: seq<Event>, held: bool): bool {
    if evs == [] then held else evs[|evs| - 1].pressed
  }

  /** Bounce absorption: with no click under way, presses shorter than the
      debounce threshold, read by updates and polls in any mix, are all
      discarded; nothing is reported and no click gets under way. */
  lemma {:induction false} BounceAbsorbed(s: ButtonState, evs: seq<Event>, held: bool, since: Millis)
    requires Quiet(s)
    requires s.state == Pressed <==> held
    requires held ==> s.startTime == since
    requires ShortPresses(evs, held, since)
    ensures Quiet(Trace(s, evs).1)
    ensures Trace(s, evs).1.state == Pressed <==> LastLevel(evs, held)
    ensures Count(Trace(s, evs).0, SingleClick) == 0 && Count(Trace(s, evs).0, DoubleClick) == 0
    decreases |evs|
  {
    if evs != [] {
      var e := evs[0];
      var next := Apply(s, e).1;
      if e.pressed == held {
        assert next == s;
        BounceAbsorbed(next, evs[1..], held, since);
      } else {
        if held {
          assert Elapsed(e.now, s.startTime) < DebounceThreshold;
        }
        BounceAbsorbed(next, evs[1..], e.pressed, e.now);
      }
    }
  }

  /** Alternating edges, each less than the debounce threshold after the one
      before it, in non-decreasing time. `level` is the level before the
      first edge and `since` the time of the edge before it. */
  predicate CloseEdges(evs: seq<Event>, level: bool, since: Millis)
    decreases |evs|
  {
    evs == [] ||
    (evs[0].pressed != level && since <= evs[0].now < since + DebounceThreshold
     && CloseEdges(evs[1..], evs[0].pressed, evs[0].now))
  }

  lemma {:induction false} CloseEdgesAreShortPresses(evs: seq<Event>, level: bool, since: Millis)
    requires CloseEdges(evs, level, since)
    ensures ShortPresses(evs, level, since)
    decreases |evs|
  {
    if evs != [] {
      CloseEdgesAreShortPresses(evs[1..], evs[0].pressed, evs[0].now);
    }
  }

  /** Edges whose gaps are all shorter than the debounce threshold, starting
      with a press on an idle button, never produce a click. */
  lemma EdgeBounceAbsorbed(s: ButtonState, evs: seq<Event>)
    requires Idle(s)
    requires |evs| > 0 && evs[0].pressed
    requires CloseEdges(evs[1..], true, evs[0].now)
    ensures Quiet(Trace(s, evs).1)
    ensures Trace(s, evs).1.state == Pressed <==> evs[|evs| - 1].pressed
    ensures Count(Trace(s, evs).0, SingleClick) == 0 && Count(Trace(s, evs).0, DoubleClick) == 0
  {
    CloseEdgesAreShortPresses(evs[1..], true, evs[0].now);
    assert ShortPresses(evs, false, 0);
    BounceAbsorbed(s, evs, false, 0);
  }

  /** A 100 ms burst of 20 ms bounces is absorbed. */
  lemma BurstOfBounces()
    ensures var r := Trace(Initial, [Event(0, true, false), Event(20, false, false), Event(40, true, false),
                                     Event(60, false, false), Event(80, true, false), Event(100, false, true)]);
      Idle(r.1) && Count(r.0, SingleClick) == 0 && Count(r.0, DoubleClick) == 0
  {
    var evs := [Event(0, true, false), Event(20, false, false), Event(40, true, false),
                Event(60, false, false), Event(80, true, false), Event(100, false, true)];
    assert CloseEdges(evs[6..], false, 100);
    assert CloseEdges(evs[5..], true, 80);
    assert CloseEdges(evs[4..], false, 60);
    assert CloseEdges(evs[3..], true, 40);
    assert CloseEdges(evs[2..], false, 20);
    assert CloseEdges(evs[1..], true, 0);
    EdgeBounceAbsorbed(Initial, evs);
  }

  /** Concatenation regrouped so that a phase's readings form one block. */
  lemma RegroupFour(a: seq<Event>, b: seq<Event>, c: seq<Event>, d: seq<Event>)
    ensures a + b + c + d == a + (b + c + d)
  {
  }

  lemma RegroupSix(a: seq<Event>, b: seq<Event>, c: seq<Event>, d: seq<Event>, e: seq<Event>, f: seq<Event>)
    ensures a + b + c + d + e + f == a + (b + c + d + e + f)
  {
  }

  /** A press on an idle button, then readings while it is held: the button
      is `Pressed` since the press and nothing is reported. */
  lemma {:induction false} PressAndHold(s: ButtonState, t0: Millis, q0: bool, hold: seq<Event>)
    requires Idle(s)
    requires forall i :: 0 <= i < |hold| ==> hold[i].pressed
    ensures var r := Trace(s, [Event(t0, true, q0)] + hold);
      r.1 == s.(state := Pressed, startTime := t0)
      && Count(r.0, SingleClick) == 0 && Count(r.0, DoubleClick) == 0
  {
    var s1 := s.(state := Pressed, startTime := t0);
    TraceOne(s, Event(t0, true, q0));
    forall i | 0 <= i < |hold| ensures Step(s1, hold[i].now, hold[i].pressed) == s1 {
      HeldIsSteady(s1, hold[i].now);
    }
    TraceSteady(s1, hold);
    TraceThen(s, [Event(t0, true, q0)], hold);
  }

  /** A release at least the debounce threshold after the press, then
      readings inside the click window that are released or bounces of the
      release: the button waits in `ClickedSingle` and nothing is reported. */
  lemma {:induction false} ReleaseAndWait(s: ButtonState, t1: Millis, q1: bool, wait: seq<Event>)
    requires s.state == Pressed && NoFlag(s)
    requires s.startTime + DebounceThreshold <= t1
    requires forall i :: 0 <= i < |wait| ==> t1 <= wait[i].now <= s.startTime + ClickThreshold
    requires forall i :: 0 <= i < |wait| ==> !wait[i].pressed || wait[i].now <= t1 + DebounceThreshold
    ensures var r := Trace(s, [Event(t1, false, q1)] + wait);
      r.1 == s.(state := ClickedSingle, stopTime := t1)
      && Count(r.0, SingleClick) == 0 && Count(r.0, DoubleClick) == 0
  {
    var s3 := s.(state := ClickedSingle, stopTime := t1);
    TraceOne(s, Event(t1, false, q1));
    forall i | 0 <= i < |wait| ensures Step(s3, wait[i].now, wait[i].pressed) == s3 {
      WaitIsSteady(s3, wait[i].now, wait[i].pressed);
    }
    TraceSteady(s3, wait);
    TraceThen(s, [Event(t1, false, q1)], wait);
  }

  /** The first click of a gesture: `PressAndHold` then `ReleaseAndWait`.
      Any mix of updates and polls reports nothing, and the button waits in
      `ClickedSingle` with the press and release times recorded. */
  lemma {:induction false} FirstClick(s: ButtonState, t0: Millis, q0: bool, hold: seq<Event>, t1: Millis, q1: bool, wait: seq<Event>)
    requires Idle(s)
    requires forall i :: 0 <= i < |hold| ==> hold[i].pressed
    requires t0 + DebounceThreshold <= t1
    requires forall i :: 0 <= i < |wait| ==> t1 <= wait[i].now <= t0 + ClickThreshold
    requires forall i :: 0 <= i < |wait| ==> !wait[i].pressed || wait[i].now <= t1 + DebounceThreshold
    ensures var r := Trace(s, [Event(t0, true, q0)] + hold + [Event(t1, false, q1)] + wait);
      r.1 == s.(state := ClickedSingle, startTime := t0, stopTime := t1)
      && Count(r.0, SingleClick) == 0 && Count(r.0, DoubleClick) == 0
  {
    var a := [Event(t0, true, q0)] + hold;
    var b := [Event(t1, false, q1)] + wait;
    assert a + [Event(t1, false, q1)] + wait == a + b;
    PressAndHold(s, t0, q0, hold);
    ReleaseAndWait(Trace(s, a).1, t1, q1, wait);
    TraceThen(s, a, b);
  }

  /** A press held at least the debounce threshold, then released, with no
      second press in the click window: any mix of updates and polls during
      the hold and the wait reports nothing, and the first poll more than the
      click threshold after the press reports one single click, whatever level
      it reads. No double click is reported and the button ends idle. */
  lemma {:induction false} SingleClickGesture(s: ButtonState, t0: Millis, q0: bool, hold: seq<Event>, t1: Millis, q1: bool,
                           wait: seq<Event>, t2: Millis, p2: bool)
    requires Idle(s)
    requires forall i :: 0 <= i < |hold| ==> hold[i].pressed
    requires t0 + DebounceThreshold <= t1
    requires forall i :: 0 <= i < |wait| ==> t1 <= wait[i].now <= t0 + ClickThreshold
    requires forall i :: 0 <= i < |wait| ==> !wait[i].pressed || wait[i].now <= t1 + DebounceThreshold
    requires t0 + ClickThreshold < t2
    ensures var r := Trace(s, [Event(t0, true, q0)] + hold + [Event(t1, false, q1)] + wait + [Event(t2, p2, true)]);
      Count(r.0, SingleClick) == 1 && Count(r.0, DoubleClick) == 0 && r.0[|r.0| - 1] == SingleClick && Idle(r.1)
  {
    var first := [Event(t0, true, q0)] + hold + [Event(t1, false, q1)] + wait;
    FirstClick(s, t0, q0, hold, t1, q1, wait);
    var s3 := Trace(s, first).1;
    TraceOne(s3, Event(t2, p2, true));
    TraceThen(s, first, [Event(t2, p2, true)]);
    TraceAppend(s, first, [Event(t2, p2, true)]);
  }

  /** While a flag is pending, interrupt updates change nothing and report
      nothing: the flag waits for the main loop's poll. */
  lemma {:induction false} IsrWhilePending(s: ButtonState, evs: seq<Event>)
    requires Inv(s) && (s.singleClicked || s.doubleClicked)
    requires forall i :: 0 <= i < |evs| ==> !evs[i].polled
    ensures Trace(s, evs).1 == s
    ensures Count(Trace(s, evs).0, SingleClick) == 0 && Count(Trace(s, evs).0, DoubleClick) == 0
    decreases |evs|
  {
    if evs != [] {
      var rest := evs[1..];
      assert forall i :: 0 <= i < |rest| ==> rest[i] == evs[i + 1];
      PendingFlagFreezes(s, evs[0].now, evs[0].pressed);
      IsrWhilePending(s, rest);
    }
  }

  /** `SingleClickGesture` with a late main loop: the first reading after the
      click window is an interrupt update, which raises the single flag;
      further interrupt updates follow before the loop's poll. The poll
      reports the single click, the series reports no other click, and the
      button ends idle. */
  lemma {:induction false} SingleClickLateIsr(s: ButtonState, t0: Millis, q0: bool, hold: seq<Event>, t1: Millis, q1: bool,
                                              wait: seq<Event>, t2: Millis, p2: bool, late: seq<Event>, t3: Millis, p3: bool)
    requires Idle(s)
    requires forall i :: 0 <= i < |hold| ==> hold[i].pressed
    requires t0 + DebounceThreshold <= t1
    requires forall i :: 0 <= i < |wait| ==> t1 <= wait[i].now <= t0 + ClickThreshold
    requires forall i :: 0 <= i < |wait| ==> !wait[i].pressed || wait[i].now <= t1 + DebounceThreshold
    requires t0 + ClickThreshold < t2
    requires forall i :: 0 <= i < |late| ==> !late[i].polled
    ensures Trace(s, [Event(t0, true, q0)] + hold + [Event(t1, false, q1)] + wait + [Event(t2, p2, false)]).1
      == s.(startTime := t0, stopTime := t1, singleClicked := true)
    ensures Trace(s, [Event(t0, true, q0)] + hold + [Event(t1, false, q1)] + wait + [Event(t2, p2, false)] + late).1
      == s.(startTime := t0, stopTime := t1, singleClicked := true)
    ensures var r := Trace(s, [Event(t0, true, q0)] + hold + [Event(t1, false, q1)] + wait + [Event(t2, p2, false)]
                              + late + [Event(t3, p3, true)]);
      Count(r.0, SingleClick) == 1 && Count(r.0, DoubleClick) == 0 && r.0[|r.0| - 1] == SingleClick && Idle(r.1)
  {
    var first := [Event(t0, true, q0)] + hold + [Event(t1, false, q1)] + wait;
    var isr := first + [Event(t2, p2, false)];
    var pending := isr + late;
    FirstClick(s, t0, q0, hold, t1, q1, wait);
    var s3 := Trace(s, first).1;
    var s4 := s3.(singleClicked := true, state := Released);
    TraceOne(s3, Event(t2, p2, false));
    TraceThen(s, first, [Event(t2, p2, false)]);
    IsrWhilePending(s4, late);
    TraceThen(s, isr, late);
    TraceOne(s4, Event(t3, p3, true));
    PendingFlagFreezes(s4, t3, p3);
    TraceThen(s, pending, [Event(t3, p3, true)]);
    TraceAppend(s, pending, [Event(t3, p3, true)]);
  }

  /** A second press more than the debounce threshold after the first
      release and inside the click window, then readings while it is held or
      bouncing: the button is `ClickedDouble` since the second press and
      nothing is reported. */
  lemma {:induction false} SecondPressAndHold(s: ButtonState, t2: Millis, q2: bool, hold: seq<Event>)
    requires s.state == ClickedSingle && NoFlag(s)
    requires s.stopTime + DebounceThreshold < t2 && s.startTime <= t2 <= s.startTime + ClickThreshold
    requires forall i :: 0 <= i < |hold| ==> hold[i].pressed || t2 <= hold[i].now <= t2 + DebounceThreshold
    ensures var r := Trace(s, [Event(t2, true, q2)] + hold);
      r.1 == s.(state := ClickedDouble, startTime := t2)
      && Count(r.0, SingleClick) == 0 && Count(r.0, DoubleClick) == 0
  {
    var s1 := s.(state := ClickedDouble, startTime := t2);
    TraceOne(s, Event(t2, true, q2));
    forall i | 0 <= i < |hold| ensures Step(s1, hold[i].now, hold[i].pressed) == s1 {
      SecondHoldIsSteady(s1, hold[i].now, hold[i].pressed);
    }
    TraceSteady(s1, hold);
    TraceThen(s, [Event(t2, true, q2)], hold);
  }

  /** Released readings and then a poll, with at most a double flag pending:
      the pending double click is reported once, nothing else is, and no flag
      is left. */
  lemma {:induction false} TailAndPoll(s: ButtonState, after: seq<Event>, t4: Millis, p4: bool)
    requires Inv(s) && s.state == Released && !s.singleClicked
    requires forall i :: 0 <= i < |after| ==> !after[i].pressed
    ensures var r := Trace(s, after + [Event(t4, p4, true)]);
      Count(r.0, DoubleClick) == (if s.doubleClicked then 1 else 0) && Count(r.0, SingleClick) == 0
      && Inv(r.1) && NoFlag(r.1)
  {
    ReleasedTail(s, after);
    var s4 := Trace(s, after).1;
    TraceOne(s4, Event(t4, p4, true));
    TraceThen(s, after, [Event(t4, p4, true)]);
  }

  /** The second release, more than the debounce threshold after the second
      press, then released readings and a poll: exactly one double click and
      no single click are reported, and no flag is left. */
  lemma {:induction false} SecondRelease(s: ButtonState, t3: Millis, q3: bool, after: seq<Event>, t4: Millis, p4: bool)
    requires s.state == ClickedDouble && NoFlag(s)
    requires s.startTime + DebounceThreshold < t3
    requires forall i :: 0 <= i < |after| ==> !after[i].pressed
    ensures var r := Trace(s, [Event(t3, false, q3)] + after + [Event(t4, p4, true)]);
      Count(r.0, DoubleClick) == 1 && Count(r.0, SingleClick) == 0 && Inv(r.1) && NoFlag(r.1)
  {
    var rest := after + [Event(t4, p4, true)];
    assert [Event(t3, false, q3)] + after + [Event(t4, p4, true)] == [Event(t3, false, q3)] + rest;
    var s2 := s.(doubleClicked := true, state := Released);
    var s3 := if q3 then s2.(doubleClicked := false) else s2;
    TraceOne(s, Event(t3, false, q3));
    assert Trace(s, [Event(t3, false, q3)]) == ([if q3 then DoubleClick else NoClick], s3);
    TailAndPoll(s3, after, t4, p4);
    TraceThen(s, [Event(t3, false, q3)], rest);
  }

  /** The second click of a gesture, from `ClickedSingle`:
      `SecondPressAndHold` then `SecondRelease`. Exactly one double click and
      no single click are reported. */
  lemma {:induction false} SecondClick(s: ButtonState, t2: Millis, q2: bool, hold: seq<Event>, t3: Millis, q3: bool,
                    after: seq<Event>, t4: Millis, p4: bool)
    requires s.state == ClickedSingle && NoFlag(s)
    requires s.stopTime + DebounceThreshold < t2 && s.startTime <= t2 <= s.startTime + ClickThreshold
    requires forall i :: 0 <= i < |hold| ==> hold[i].pressed || t2 <= hold[i].now <= t2 + DebounceThreshold
    requires t2 + DebounceThreshold < t3
    requires forall i :: 0 <= i < |after| ==> !after[i].pressed
    ensures var r := Trace(s, [Event(t2, true, q2)] + hold + [Event(t3, false, q3)] + after + [Event(t4, p4, true)]);
      Count(r.0, DoubleClick) == 1 && Count(r.0, SingleClick) == 0 && Inv(r.1) && NoFlag(r.1)
  {
    var a := [Event(t2, true, q2)] + hold;
    var b := [Event(t3, false, q3)] + after + [Event(t4, p4, true)];
    RegroupFour(a, [Event(t3, false, q3)], after, [Event(t4, p4, true)]);
    SecondPressAndHold(s, t2, q2, hold);
    SecondRelease(Trace(s, a).1, t3, q3, after, t4, p4);
    TraceThen(s, a, b);
  }

  /** A whole double click: `FirstClick` followed by `SecondClick`. Any mix
      of updates and polls, with the allowed bounces, reports exactly one
      double click and no single click, and leaves no flag pending. */
  lemma {:induction false} DoubleClickGesture(s: ButtonState, t0: Millis, q0: bool, hold1: seq<Event>, t1: Millis, q1: bool,
                           wait: seq<Event>, t2: Millis, q2: bool, hold2: seq<Event>, t3: Millis, q3: bool,
                           after: seq<Event>, t4: Millis, p4: bool)
    requires Idle(s)
    requires forall i :: 0 <= i < |hold1| ==> hold1[i].pressed
    requires t0 + DebounceThreshold <= t1
    requires forall i :: 0 <= i < |wait| ==> t1 <= wait[i].now <= t0 + ClickThreshold
    requires forall i :: 0 <= i < |wait| ==> !wait[i].pressed || wait[i].now <= t1 + DebounceThreshold
    requires t1 + DebounceThreshold < t2 <= t0 + ClickThreshold
    requires forall i :: 0 <= i < |hold2| ==> hold2[i].pressed || t2 <= hold2[i].now <= t2 + DebounceThreshold
    requires t2 + DebounceThreshold < t3
    requires forall i :: 0 <= i < |after| ==> !after[i].pressed
    ensures var r := Trace(s, [Event(t0, true, q0)] + hold1 + [Event(t1, false, q1)] + wait + [Event(t2, true, q2)]
                              + hold2 + [Event(t3, false, q3)] + after + [Event(t4, p4, true)]);
      Count(r.0, DoubleClick) == 1 && Count(r.0, SingleClick) == 0 && Inv(r.1) && NoFlag(r.1)
  {
    var first := [Event(t0, true, q0)] + hold1 + [Event(t1, false, q1)] + wait;
    var second := [Event(t2, true, q2)] + hold2 + [Event(t3, false, q3)] + after + [Event(t4, p4, true)];
    RegroupSix(first, [Event(t2, true, q2)], hold2, [Event(t3, false, q3)], after, [Event(t4, p4, true)]);
    FirstClick(s, t0, q0, hold1, t1, q1, wait);
    SecondClick(Trace(s, first).1, t2, q2, hold2, t3, q3, after, t4, p4);
    TraceThen(s, first, second);
  }

  /** Worked timelines: press at 0 and release at 60, polled at 400, is a
      single click; a second press at 120 released at 180 makes it a double
      click. A press 20 ms before the clock wraps, released 40 ms after it,
      has been held 60 ms. */
  lemma ExampleTimelines()
    ensures Step(Step(Initial, 0, true), 60, false).state == ClickedSingle
    ensures Poll(Step(Step(Initial, 0, true), 60, false), 400, false).0 == SingleClick
    ensures Poll(Step(Step(Step(Step(Initial, 0, true), 60, false), 120, true), 180, false), 400, false).0
      == DoubleClick
    ensures Elapsed(40, Wrap - 20) == 60
    ensures Step(Step(Initial, Wrap - 20, true), 40, false).state == ClickedSingle
  {
  }

  /** One button. The pin and the interrupt hookup are hardware and are not
      modelled; the two action pointers are modelled by whether they are set. */
  class Button {
    var state: State
    var startTime: Millis
    var stopTime: Millis
    var singleClicked: bool
    var doubleClicked: bool
    const hasSingleAction: bool
    const hasDoubleAction: bool

    function Model(): ButtonState
      reads this
    {
      ButtonState(state, startTime, stopTime, singleClicked, doubleClicked)
    }

    predicate Valid()
      reads this
    {
      Inv(Model())
    }

    /** The double-click action may be left out; the single-click one is
        given but may itself be a null pointer. */
    constructor (singleAction: bool, doubleAction: bool := false)
      ensures Model() == Initial && Valid()
      ensures hasSingleAction == singleAction && hasDoubleAction == doubleAction
    {
      state := Released;
      startTime := 0;
      stopTime := 0;
      singleClicked := false;
      doubleClicked := false;
      hasSingleAction := singleAction;
      hasDoubleAction := doubleAction;
    }

    /** `update()`, with the clock reading and the pin level as parameters. */
    method Update(now: Millis, pressed: bool)
      requires Valid()
      modifies this
      ensures Valid()
      ensures Model() == Step(old(Model()), now, pressed)
    {
      match state
      case Released =>
        if pressed {
          if !(singleClicked || doubleClicked) {
            state := Pressed;
            startTime := now;
          }
        }
      case Pressed =>
        if !pressed && Elapsed(now, startTime) < DebounceThreshold {
          state := Released;
        } else if !pressed {
          state := ClickedSingle;
          stopTime := now;
        }
      case ClickedSingle =>
        if Elapsed(now, startTime) > ClickThreshold {
          singleClicked := true;
          state := Released;
        } else if pressed && Elapsed(now, stopTime) > DebounceThreshold {
          state := ClickedDouble;
          startTime := now;
        }
      case ClickedDouble =>
        if !pressed && Elapsed(now, startTime) > DebounceThreshold {
          singleClicked := false;
          doubleClicked := true;
          state := Released;
        }
    }

    /** `perform_clicks()`, taken as one atomic step: returns the click it
        resolves and whether the matching action is invoked. */
    method PerformClicks(now: Millis, pressed: bool) returns (click: Click, invoked: bool)
      requires Valid()
      modifies this
      ensures Valid() && NoFlag(Model())
      ensures (click, Model()) == Poll(old(Model()), now, pressed)
      ensures invoked == Dispatches(click, hasSingleAction, hasDoubleAction)
    {
      Update(now, pressed);
      if singleClicked {
        singleClicked := false;
        click := SingleClick;
        invoked := hasSingleAction;
      } else if doubleClicked {
        doubleClicked := false;
        click := DoubleClick;
        invoked := hasDoubleAction;
      } else {
        click := NoClick;
        invoked := false;
      }
    }
  }
}
