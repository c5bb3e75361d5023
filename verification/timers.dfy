/** `lTimer`: a periodic ticker that delivers its interval length to an ordered
    list of callbacks.  It is stopped while its interval handle `iObj` is null and
    running otherwise.  The host's `setInterval` handle is an opaque number here,
    and the callback list is an array held by reference. */
module Timers {
  import opened Js
  import opened JsArrays

  /** The value the host's `setInterval` returns. */
  type Handle = nat

  datatype Timer = Timer(iObj: Option<Handle>, deltaT: real, name: string, callbacks: Ref)

  /** One call `cb(deltaT)` made by a firing. */
  datatype Invocation<C> = Invocation(callback: C, deltaT: real)

  /** The argument of `addCallback`: one callback, or an array of them. */
  datatype CallbackArg<C> = Single(callback: C) | Batch(list: Ref)

  const DefaultDeltaT: real := 1000.0
  const DefaultName: string := "unnamed"

  predicate Running(t: Timer) {
    t.iObj.Some?
  }

  /** The timer's callback array exists. */
  predicate WellFormed<C>(t: Timer, h: Heap<C>) {
    Valid(h) && t.callbacks in h.arrays
  }

  /** The `callbacks` getter: the contents of the array the timer holds. */
  function Callbacks<C>(t: Timer, h: Heap<C>): seq<C>
    requires t.callbacks in h.arrays
  {
    h.arrays[t.callbacks]
  }

  /** `new lTimer(deltaT, name)`: `deltaT || 1000` and `name || "unnamed"`, where
      an absent argument, a zero delta and an empty name are falsy. */
  function New<C>(h: Heap<C>, deltaT: Option<real>, name: Option<string>): (res: (Timer, Heap<C>))
    requires Valid(h)
    ensures WellFormed(res.0, res.1) && Keeps(h, res.1)
    ensures res.0.callbacks !in h.arrays && Callbacks(res.0, res.1) == []
    ensures !Running(res.0)
    ensures deltaT.Some? && deltaT.value != 0.0 ==> res.0.deltaT == deltaT.value
    ensures deltaT.None? || deltaT.value == 0.0 ==> res.0.deltaT == DefaultDeltaT
    ensures res.0.deltaT != 0.0
    ensures name.Some? && name.value != "" ==> res.0.name == name.value
    ensures name.None? || name.value == "" ==> res.0.name == DefaultName
  {
    var (cbs, h') := Alloc(h, []);
    var d := if deltaT.Some? && deltaT.value != 0.0 then deltaT.value else DefaultDeltaT;
    var n := if name.Some? && |name.value| != 0 then name.value else DefaultName;
    (Timer(None, d, n, cbs), h')
  }

  /** The `callbacks` setter: the timer shares the given array, it does not copy it. */
  function SetCallbacks(t: Timer, cbs: Ref): (r: Timer)
    ensures r.callbacks == cbs
    ensures r.(callbacks := t.callbacks) == t
  {
    t.(callbacks := cbs)
  }

  /** `addCallback(cb)`: a single callback is pushed onto the timer's array in
      place; an array of callbacks is concatenated into a new array. */
  function AddCallback<C>(t: Timer, h: Heap<C>, arg: CallbackArg<C>): (res: (Timer, Heap<C>))
    requires WellFormed(t, h)
    requires arg.Batch? ==> arg.list in h.arrays
    ensures WellFormed(res.0, res.1) && Grows(h, res.1)
    ensures res.0.(callbacks := t.callbacks) == t
    ensures arg.Single? ==> Callbacks(res.0, res.1) == Callbacks(t, h) + [arg.callback]
    ensures arg.Single? ==> res.0 == t && res.1.arrays.Keys == h.arrays.Keys
    ensures arg.Single? ==>
              forall q :: q in h.arrays && q != t.callbacks ==> res.1.arrays[q] == h.arrays[q]
    ensures arg.Batch? ==> Callbacks(res.0, res.1) == Callbacks(t, h) + h.arrays[arg.list]
    ensures arg.Batch? ==> Keeps(h, res.1) && res.0.callbacks !in h.arrays
  {
    match arg
    case Single(cb) => (t, Push(h, t.callbacks, cb))
    case Batch(a) =>
      var (r, h') := Alloc(h, h.arrays[t.callbacks] + h.arrays[a]);
      (t.(callbacks := r), h')
  }

  /** One firing of the interval closure when no callback throws: `forEach` over
      the callbacks, calling each with `deltaT`. */
  function Fire<C>(cbs: seq<C>, deltaT: real): (r: seq<Invocation<C>>)
    ensures |r| == |cbs|
    ensures forall i :: 0 <= i < |cbs| ==> r[i] == Invocation(cbs[i], deltaT)
  {
    if |cbs| == 0 then [] else [Invocation(cbs[0], deltaT)] + Fire(cbs[1..], deltaT)
  }

  /** Firing the list piecewise makes the same calls as firing it whole. */
  lemma FireAppend<C>(a: seq<C>, b: seq<C>, deltaT: real)
    ensures Fire(a + b, deltaT) == Fire(a, deltaT) + Fire(b, deltaT)
  {
    var whole, parts := Fire(a + b, deltaT), Fire(a, deltaT) + Fire(b, deltaT);
    forall i | 0 <= i < |whole|
      ensures whole[i] == parts[i]
    {
      if i < |a| {
        assert parts[i] == Fire(a, deltaT)[i];
      } else {
        assert parts[i] == Fire(b, deltaT)[i - |a|];
      }
    }
  }

  /** One firing when callbacks may throw: an exception escapes `forEach`, so the
      callbacks after the throwing one are not called in that firing. */
  function FireChecked<C>(cbs: seq<C>, deltaT: real, behave: (C, real) -> Outcome)
    : (res: (seq<Invocation<C>>, Outcome))
    ensures res.0 <= Fire(cbs, deltaT)
    ensures res.1.Done? <==> forall i :: 0 <= i < |cbs| ==> behave(cbs[i], deltaT).Done?
    ensures res.1.Done? ==> res.0 == Fire(cbs, deltaT)
    ensures res.1.Threw? ==>
              0 < |res.0| && behave(cbs[|res.0| - 1], deltaT) == res.1
              && forall i :: 0 <= i < |res.0| - 1 ==> behave(cbs[i], deltaT).Done?
  {
    if |cbs| == 0 then ([], Done)
    else
      match behave(cbs[0], deltaT)
      case Threw(e) => ([Invocation(cbs[0], deltaT)], Threw(e))
      case Done =>
        var (rest, o) := FireChecked(cbs[1..], deltaT, behave);
        ([Invocation(cbs[0], deltaT)] + rest, o)
  }

  /** `start()`: schedules the interval unless one is already scheduled. */
  function Start(t: Timer, handle: Handle): (r: Timer)
    ensures Running(r)
    ensures Running(t) ==> r == t
    ensures !Running(t) ==> r.iObj == Some(handle)
    ensures r.(iObj := t.iObj) == t
  {
    if t.iObj.None? then t.(iObj := Some(handle)) else t
  }

  /** `stop()`: cancels the interval if one is scheduled. */
  function Stop(t: Timer): (r: Timer)
    ensures !Running(r)
    ensures r.(iObj := t.iObj) == t
  {
    if t.iObj.Some? then t.(iObj := None) else t
  }

  /** Start and stop are idempotent, stop undoes a start, and neither touches the
      interval length or the callback list. */
  lemma StartStopLaws(t: Timer, h1: Handle, h2: Handle)
    ensures Start(Start(t, h1), h2) == Start(t, h1)
    ensures Stop(Stop(t)) == Stop(t)
    ensures !Running(t) ==> Stop(t) == t && Stop(Start(t, h1)) == t
    ensures Running(Start(Stop(t), h2)) && Start(Stop(t), h2).iObj == Some(h2)
    ensures Start(Stop(t), h2).callbacks == t.callbacks && Start(Stop(t), h2).deltaT == t.deltaT
  {
  }

  /** The setter shares the caller's array: pushing onto that array afterwards
      changes what the timer fires. */
  lemma CallbacksSetterShares<C>(t: Timer, h: Heap<C>, cbs: Ref, cb: C)
    requires cbs in h.arrays
    ensures Callbacks(SetCallbacks(t, cbs), h) == h.arrays[cbs]
    ensures Callbacks(SetCallbacks(t, cbs), Push(h, cbs, cb)) == h.arrays[cbs] + [cb]
  {
  }

  /** What the timer's owner and the host do to it. */
  datatype Event<C> =
    | StartCalled(handle: Handle)
    | StopCalled
    | IntervalElapsed
    | AddCalled(arg: CallbackArg<C>)

  /** Every array an `addCallback` batch refers to exists. */
  ghost predicate BatchesExist<C>(evs: seq<Event<C>>, h: Heap<C>) {
    forall i :: 0 <= i < |evs| && evs[i].AddCalled? && evs[i].arg.Batch? ==> evs[i].arg.list in h.arrays
  }

  /** The effect of one event and the calls it makes.  The interval closure reads
      the callback list and `deltaT` at the moment it fires. */
  function Step<C>(t: Timer, h: Heap<C>, e: Event<C>): (res: (Timer, Heap<C>, seq<Invocation<C>>))
    requires WellFormed(t, h)
    requires e.AddCalled? && e.arg.Batch? ==> e.arg.list in h.arrays
    ensures WellFormed(res.0, res.1) && Grows(h, res.1)
    ensures res.0.deltaT == t.deltaT
    ensures Callbacks(t, h) <= Callbacks(res.0, res.1)
    ensures e.IntervalElapsed? && Running(t) ==> res.2 == Fire(Callbacks(t, h), t.deltaT)
    ensures !e.IntervalElapsed? || !Running(t) ==> res.2 == []
    ensures !e.StartCalled? && !Running(t) ==> !Running(res.0)
  {
    match e
    case StartCalled(handle) => (Start(t, handle), h, [])
    case StopCalled => (Stop(t), h, [])
    case IntervalElapsed =>
      if Running(t) then (t, h, Fire(Callbacks(t, h), t.deltaT)) else (t, h, [])
    case AddCalled(arg) =>
      var (t', h') := AddCallback(t, h, arg);
      (t', h', [])
  }

  /** A sequence of events applied in order, with all the calls they make. */
  function Run<C>(t: Timer, h: Heap<C>, evs: seq<Event<C>>): (res: (Timer, Heap<C>, seq<Invocation<C>>))
    requires WellFormed(t, h) && BatchesExist(evs, h)
    ensures WellFormed(res.0, res.1) && Grows(h, res.1)
    ensures res.0.deltaT == t.deltaT
    ensures Callbacks(t, h) <= Callbacks(res.0, res.1)
    decreases |evs|
  {
    if |evs| == 0 then (t, h, [])
    else
      var first := Step(t, h, evs[0]);
      var rest := Run(first.0, first.1, evs[1..]);
      (rest.0, rest.1, first.2 + rest.2)
  }

  /** A stopped timer that is never started makes no calls, whatever else happens. */
  lemma {:induction false} StoppedTimerIsSilent<C>(t: Timer, h: Heap<C>, evs: seq<Event<C>>)
    requires WellFormed(t, h) && BatchesExist(evs, h)
    requires !Running(t)
    requires forall i :: 0 <= i < |evs| ==> !evs[i].StartCalled?
    ensures Run(t, h, evs).2 == []
    ensures !Running(Run(t, h, evs).0)
    decreases |evs|
  {
    if |evs| > 0 {
      var first := Step(t, h, evs[0]);
      StoppedTimerIsSilent(first.0, first.1, evs[1..]);
    }
  }

  /** A run is its first step followed by the run of the remaining events. */
  lemma RunFirstStep<C>(t: Timer, h: Heap<C>, evs: seq<Event<C>>)
    requires WellFormed(t, h) && BatchesExist(evs, h) && |evs| > 0
    ensures var st := Step(t, h, evs[0]);
            WellFormed(st.0, st.1) && BatchesExist(evs[1..], st.1)
            && Run(t, h, evs).0 == Run(st.0, st.1, evs[1..]).0
            && Run(t, h, evs).1 == Run(st.0, st.1, evs[1..]).1
            && Run(t, h, evs).2 == st.2 + Run(st.0, st.1, evs[1..]).2
  {
  }

  /** The callback list is read when the interval fires, not when it is started:
      a callback added to a running timer is called by the next firing, after
      every callback registered before it. */
  lemma AddedWhileRunningFiresNext<C>(t: Timer, h: Heap<C>, cb: C)
    requires WellFormed(t, h) && Running(t)
    ensures Run(t, h, [AddCalled(Single(cb)), IntervalElapsed]).2
            == Fire(Callbacks(t, h), t.deltaT) + [Invocation(cb, t.deltaT)]
  {
    var evs: seq<Event<C>> := [AddCalled(Single(cb)), IntervalElapsed];
    var h1 := Push(h, t.callbacks, cb);
    RunFirstStep(t, h, evs);
    assert Step(t, h, evs[0]) == (t, h1, []);
    assert evs[1..] == [IntervalElapsed];
    RunFirstStep(t, h1, evs[1..]);
    assert evs[1..][1..] == [];
    FireAppend(Callbacks(t, h), [cb], t.deltaT);
  }

  lemma BatchesSplit<C>(a: seq<Event<C>>, b: seq<Event<C>>, h: Heap<C>)
    requires BatchesExist(a + b, h)
    ensures BatchesExist(a, h) && BatchesExist(b, h)
  {
    forall i | 0 <= i < |a| ensures (a + b)[i] == a[i] { }
    forall i | 0 <= i < |b| ensures (a + b)[|a| + i] == b[i] { }
  }

  lemma BatchesGrow<C>(evs: seq<Event<C>>, h: Heap<C>, h': Heap<C>)
    requires BatchesExist(evs, h) && Grows(h, h')
    ensures BatchesExist(evs, h')
  {
  }

  /** Running two event lists one after the other is running their concatenation. */
  lemma {:induction false} RunAppend<C>(t: Timer, h: Heap<C>, a: seq<Event<C>>, b: seq<Event<C>>)
    requires WellFormed(t, h) && BatchesExist(a + b, h)
    ensures BatchesExist(a, h)
    ensures BatchesExist(b, Run(t, h, a).1)
    ensures Run(t, h, a + b).2 == Run(t, h, a).2 + Run(Run(t, h, a).0, Run(t, h, a).1, b).2
    decreases |a|
  {
    BatchesSplit(a, b, h);
    BatchesGrow(b, h, Run(t, h, a).1);
    if |a| > 0 {
      var st := Step(t, h, a[0]);
      RunAppendStep(t, h, a, b);
      RunAppend(st.0, st.1, a[1..], b);
    } else {
      assert a + b == b;
    }
  }

  /** The first event of `a + b` is the first event of `a`, and the rest of the
      runs of `a + b` and of `a` start from the same state. */
  lemma RunAppendStep<C>(t: Timer, h: Heap<C>, a: seq<Event<C>>, b: seq<Event<C>>)
    requires WellFormed(t, h) && BatchesExist(a + b, h) && |a| > 0
    ensures BatchesExist(a, h)
    ensures var st := Step(t, h, a[0]);
            WellFormed(st.0, st.1) && BatchesExist(a[1..] + b, st.1) && BatchesExist(a[1..], st.1)
            && Run(t, h, a + b).2 == st.2 + Run(st.0, st.1, a[1..] + b).2
            && Run(t, h, a) == (Run(st.0, st.1, a[1..]).0, Run(st.0, st.1, a[1..]).1,
                                st.2 + Run(st.0, st.1, a[1..]).2)
  {
    BatchesSplit(a, b, h);
    assert (a + b)[0] == a[0] && (a + b)[1..] == a[1..] + b;
    RunFirstStep(t, h, a + b);
    RunFirstStep(t, h, a);
    BatchesSplit(a[1..], b, Step(t, h, a[0]).1);
  }

  /** Stopping suspends firing, and starting again resumes it with the same
      callbacks and the same delta. */
  lemma StopPauseRestart<C>(t: Timer, h: Heap<C>, hd: Handle)
    requires WellFormed(t, h) && Running(t)
    ensures Run(t, h, [StopCalled, IntervalElapsed, StartCalled(hd), IntervalElapsed]).2
            == Fire(Callbacks(t, h), t.deltaT)
  {
    var a: seq<Event<C>> := [StopCalled, IntervalElapsed];
    var b: seq<Event<C>> := [StartCalled(hd), IntervalElapsed];
    assert a + b == [StopCalled, IntervalElapsed, StartCalled(hd), IntervalElapsed];
    StopThenElapse(t, h);
    StartThenElapse(Stop(t), h, hd);
    RunAppend(t, h, a, b);
  }

  /** A stop followed by an elapsed interval stops the timer and makes no call. */
  lemma StopThenElapse<C>(t: Timer, h: Heap<C>)
    requires WellFormed(t, h)
    ensures Run(t, h, [StopCalled, IntervalElapsed]) == (Stop(t), h, [])
  {
    var evs: seq<Event<C>> := [StopCalled, IntervalElapsed];
    RunFirstStep(t, h, evs);
    assert evs[1..] == [IntervalElapsed];
    RunFirstStep(Stop(t), h, evs[1..]);
    assert evs[1..][1..] == [];
  }

  /** A start of a stopped timer followed by an elapsed interval fires the list once. */
  lemma StartThenElapse<C>(t: Timer, h: Heap<C>, hd: Handle)
    requires WellFormed(t, h) && !Running(t)
    ensures Run(t, h, [StartCalled(hd), IntervalElapsed]) == (Start(t, hd), h, Fire(Callbacks(t, h), t.deltaT))
  {
    var evs: seq<Event<C>> := [StartCalled(hd), IntervalElapsed];
    var t1 := Start(t, hd);
    assert t1.callbacks == t.callbacks && t1.deltaT == t.deltaT;
    assert Step(t, h, evs[0]) == (t1, h, []);
    assert Step(t1, h, IntervalElapsed) == (t1, h, Fire(Callbacks(t, h), t.deltaT));
    RunFirstStep(t, h, evs);
    assert evs[1..] == [IntervalElapsed];
    RunFirstStep(t1, h, evs[1..]);
    assert evs[1..][1..] == [];
    assert Run(t1, h, evs[1..][1..]) == (t1, h, []);
    var fired := Fire(Callbacks(t, h), t.deltaT);
    assert Run(t1, h, evs[1..]) == (t1, h, fired + []);
    assert Run(t, h, evs).0 == t1;
    assert fired + [] == fired == [] + fired;
  }

  /** A fresh timer given one callback, started, then given a second callback
      calls both, in that order, at its first firing. */
  lemma RegisterStartFire<C>(t: Timer, h: Heap<C>, first: C, second: C, hd: Handle)
    requires WellFormed(t, h) && !Running(t) && Callbacks(t, h) == []
    ensures var r := Run(t, h, [AddCalled(Single(first)), StartCalled(hd), AddCalled(Single(second)), IntervalElapsed]);
            Running(r.0) && Callbacks(r.0, r.1) == [first, second]
            && r.2 == [Invocation(first, t.deltaT), Invocation(second, t.deltaT)]
  {
    var evs: seq<Event<C>> := [AddCalled(Single(first)), StartCalled(hd), AddCalled(Single(second)), IntervalElapsed];
    var h1 := Push(h, t.callbacks, first);
    var t2 := Start(t, hd);
    var h3 := Push(h1, t.callbacks, second);
    assert Callbacks(t2, h3) == [first, second];
    RunFirstStep(t, h, evs);
    assert evs[1..] == [StartCalled(hd), AddCalled(Single(second)), IntervalElapsed];
    RunFirstStep(t, h1, evs[1..]);
    assert evs[1..][1..] == [AddCalled(Single(second)), IntervalElapsed];
    RunFirstStep(t2, h1, evs[1..][1..]);
    assert evs[1..][1..][1..] == [IntervalElapsed];
    RunFirstStep(t2, h3, evs[1..][1..][1..]);
    assert evs[1..][1..][1..][1..] == [];
    assert Fire([first, second], t.deltaT) == [Invocation(first, t.deltaT), Invocation(second, t.deltaT)];
  }

  /** The demonstration script: a 500 ms timer gets one callback, is started,
      gets a second callback, fires, is stopped, does not fire, is started again
      and fires.  Both firings call both callbacks in registration order with
      500, and the stopped period calls nothing. */
  lemma DemoScript<C>(h: Heap<C>, first: C, second: C, hd1: Handle, hd2: Handle)
    requires Valid(h)
    ensures var made := New(h, Some(500.0), Some("testTimer1"));
            var evs := [AddCalled(Single(first)), StartCalled(hd1), AddCalled(Single(second)), IntervalElapsed,
                        StopCalled, IntervalElapsed, StartCalled(hd2), IntervalElapsed];
            BatchesExist(evs, made.1)
            && Run(made.0, made.1, evs).2 == [Invocation(first, 500.0), Invocation(second, 500.0),
                                                Invocation(first, 500.0), Invocation(second, 500.0)]
  {
    var made := New(h, Some(500.0), Some("testTimer1"));
    var t, h0 := made.0, made.1;
    var a: seq<Event<C>> := [AddCalled(Single(first)), StartCalled(hd1), AddCalled(Single(second)), IntervalElapsed];
    var b: seq<Event<C>> := [StopCalled, IntervalElapsed, StartCalled(hd2), IntervalElapsed];
    var evs := a + b;
    assert evs == [AddCalled(Single(first)), StartCalled(hd1), AddCalled(Single(second)), IntervalElapsed,
                   StopCalled, IntervalElapsed, StartCalled(hd2), IntervalElapsed];
    assert BatchesExist(evs, h0);
    RegisterStartFire(t, h0, first, second, hd1);
    var ra := Run(t, h0, a);
    RunAppend(t, h0, a, b);
    StopPauseRestart(ra.0, ra.1, hd2);
    var both := [Invocation(first, 500.0), Invocation(second, 500.0)];
    assert ra.2 == both;
    assert Run(ra.0, ra.1, b).2 == both;
    assert Run(t, h0, evs).2 == both + both;
  }
}
