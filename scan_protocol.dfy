/** The fixed order of effects of one `scan` call, as a function of how the
    OCR engine behaves, and what that order means for each listener. */
module ScanProtocol {
  import opened ListenerList
  import opened Trace

  /** The value the scanner passes as `preserve_interword_spaces`. */
  const PreserveInterwordSpaces: string := "1"

  /** How the engine behaves during one scan: the first engine call that
      throws, with what it throws, or the recognized text when nothing
      before `terminate` throws. */
  datatype Outcome =
    | CreateFails(error: Error)
    | SetParamsFails(error: Error)
    | RecognizeFails(error: Error)
    | TerminateFails(text: string, error: Error)
    | Recognized(text: string)

  /** One step of `scan`: an emission to the current listeners, or an engine call. */
  datatype Step = Notify(event: Event) | Invoke(call: EngineCall)

  /** What the `try` block throws, if anything. */
  function Thrown(o: Outcome): (r: Option<Error>)
    ensures r.None? <==> o.Recognized?
    ensures r.Some? ==> r.value == o.error
  {
    match o
    case CreateFails(err) => Some(err)
    case SetParamsFails(err) => Some(err)
    case RecognizeFails(err) => Some(err)
    case TerminateFails(_, err) => Some(err)
    case Recognized(_) => None
  }

  /** The steps of the `try` block, up to the call that throws. */
  function TrySteps(image: Image, o: Outcome): seq<Step>
  {
    [Invoke(CreateWorker)] +
    if o.CreateFails? then [] else
    [Invoke(SetParameters(PreserveInterwordSpaces))] +
    if o.SetParamsFails? then [] else
    [Invoke(Recognize(image))] +
    if o.RecognizeFails? then [] else
    [Notify(OnTextExtracted(o.text)), Invoke(Terminate)]
  }

  /** The steps of the `catch` block. */
  function CatchSteps(o: Outcome): seq<Step>
  {
    match Thrown(o)
    case Some(err) => [Notify(OnError(err))]
    case None => []
  }

  /** Every step of one `scan` call: `onScan(true)` before the `try`, the
      `try` and `catch` blocks, and `onScan(false)` in `finally`. */
  function ScanSteps(image: Image, o: Outcome): seq<Step>
  {
    [Notify(OnScan(true))] + TrySteps(image, o) + CatchSteps(o) + [Notify(OnScan(false))]
  }

  /** The events of the emissions among `steps`, in order. */
  function Events(steps: seq<Step>): seq<Event>
  {
    if steps == [] then []
    else if steps[0].Notify? then [steps[0].event] + Events(steps[1..])
    else Events(steps[1..])
  }

  /** The engine calls among `steps`, in order. */
  function Calls(steps: seq<Step>): seq<EngineCall>
  {
    if steps == [] then []
    else if steps[0].Invoke? then [steps[0].call] + Calls(steps[1..])
    else Calls(steps[1..])
  }

  /** Each event of `es` repeated `k` times in place. */
  function Stutter(es: seq<Event>, k: nat): seq<Event>
  {
    if es == [] then [] else Repeat(es[0], k) + Stutter(es[1..], k)
  }

  /** What has been observed so far, and the listener list at that point. */
  datatype Observed = Observed(log: seq<Action>, listeners: seq<Listener>)

  /** The effect of one step: an emission delivers to the list as it is
      when the emission starts, and the callbacks then leave the survivors. */
  function Advance(st: Observed, s: Step, reacts: Reactions): Observed
  {
    match s
    case Notify(e) => Observed(st.log + Broadcast(st.listeners, e), Survivors(st.listeners, e, reacts))
    case Invoke(c) => Observed(st.log + [Call(c)], st.listeners)
  }

  /** Running `steps` from the observed state `st`. */
  function Replay(st: Observed, steps: seq<Step>, reacts: Reactions): Observed
    decreases |steps|
  {
    if steps == [] then st
    else Replay(Advance(st, steps[0], reacts), steps[1..], reacts)
  }

  /** Running one more step after `steps`. */
  lemma {:induction false} ReplaySnoc(st: Observed, steps: seq<Step>, s: Step, reacts: Reactions)
    ensures Replay(st, steps + [s], reacts) == Advance(Replay(st, steps, reacts), s, reacts)
    decreases |steps|
  {
    if steps == [] {
      assert steps + [s] == [s];
    } else {
      assert (steps + [s])[1..] == steps[1..] + [s];
      ReplaySnoc(Advance(st, steps[0], reacts), steps[1..], s, reacts);
    }
  }

  /** Running one step is advancing by it. */
  lemma ReplayOne(st: Observed, s: Step, reacts: Reactions)
    ensures Replay(st, [s], reacts) == Advance(st, s, reacts)
  {
  }

  /** Running `a + b` is running `a`, then `b` from where `a` stopped. */
  lemma {:induction false} ReplayAppend(st: Observed, a: seq<Step>, b: seq<Step>, reacts: Reactions)
    ensures Replay(st, a + b, reacts) == Replay(Replay(st, a, reacts), b, reacts)
    decreases |a|
  {
    if a == [] {
      assert a + b == b;
    } else {
      assert (a + b)[1..] == a[1..] + b;
      ReplayAppend(Advance(st, a[0], reacts), a[1..], b, reacts);
    }
  }

  /** The state after the `try` block, by engine outcome: the engine calls
      up to the one that throws, with the text emitted in between once
      recognition has succeeded. */
  lemma TryReplay(st: Observed, image: Image, o: Outcome, reacts: Reactions)
    ensures var created := Advance(st, Invoke(CreateWorker), reacts);
            var configured := Advance(created, Invoke(SetParameters(PreserveInterwordSpaces)), reacts);
            var recognized := Advance(configured, Invoke(Recognize(image)), reacts);
            Replay(st, TrySteps(image, o), reacts) ==
              if o.CreateFails? then created
              else if o.SetParamsFails? then configured
              else if o.RecognizeFails? then recognized
              else Advance(Advance(recognized, Notify(OnTextExtracted(o.text)), reacts), Invoke(Terminate), reacts)
  {
    var created := Advance(st, Invoke(CreateWorker), reacts);
    var configured := Advance(created, Invoke(SetParameters(PreserveInterwordSpaces)), reacts);
    var recognized := Advance(configured, Invoke(Recognize(image)), reacts);
    var t := TrySteps(image, o);
    assert t[0] == Invoke(CreateWorker);
    assert Replay(st, t, reacts) == Replay(created, t[1..], reacts);
    if !o.CreateFails? {
      assert t[1..][0] == Invoke(SetParameters(PreserveInterwordSpaces));
      assert Replay(created, t[1..], reacts) == Replay(configured, t[2..], reacts) by {
        assert t[1..][1..] == t[2..];
      }
      if !o.SetParamsFails? {
        assert t[2..][0] == Invoke(Recognize(image));
        assert Replay(configured, t[2..], reacts) == Replay(recognized, t[3..], reacts) by {
          assert t[2..][1..] == t[3..];
        }
        if !o.RecognizeFails? {
          var texted := Advance(recognized, Notify(OnTextExtracted(o.text)), reacts);
          assert t[3..][0] == Notify(OnTextExtracted(o.text));
          assert Replay(recognized, t[3..], reacts) == Replay(texted, t[4..], reacts) by {
            assert t[3..][1..] == t[4..];
          }
          assert t[4..] == [Invoke(Terminate)];
          ReplayOne(texted, Invoke(Terminate), reacts);
        } else {
          assert t[3..] == [];
        }
      } else {
        assert t[2..] == [];
      }
    } else {
      assert t[1..] == [];
    }
  }

  /** The state after the `catch` block: one emission of the thrown error,
      or nothing when the `try` block did not throw. */
  lemma CatchReplay(st: Observed, o: Outcome, reacts: Reactions)
    ensures Replay(st, CatchSteps(o), reacts) ==
      if Thrown(o).Some? then Advance(st, Notify(OnError(Thrown(o).value)), reacts) else st
  {
  }

  /** A scan runs its four parts one after the other. */
  lemma ScanReplay(st: Observed, image: Image, o: Outcome, reacts: Reactions)
    ensures Replay(st, ScanSteps(image, o), reacts) ==
      Replay(Replay(Replay(Replay(st, [Notify(OnScan(true))], reacts), TrySteps(image, o), reacts),
                    CatchSteps(o), reacts), [Notify(OnScan(false))], reacts)
  {
    var first := [Notify(OnScan(true))];
    ReplayAppend(st, first + TrySteps(image, o) + CatchSteps(o), [Notify(OnScan(false))], reacts);
    ReplayAppend(st, first + TrySteps(image, o), CatchSteps(o), reacts);
    ReplayAppend(st, first, TrySteps(image, o), reacts);
  }

  lemma {:induction false} EventsAppend(a: seq<Step>, b: seq<Step>)
    ensures Events(a + b) == Events(a) + Events(b)
  {
    if a == [] {
      assert a + b == b;
    } else {
      assert (a + b)[1..] == a[1..] + b;
      EventsAppend(a[1..], b);
    }
  }

  lemma {:induction false} CallsAppend(a: seq<Step>, b: seq<Step>)
    ensures Calls(a + b) == Calls(a) + Calls(b)
  {
    if a == [] {
      assert a + b == b;
    } else {
      assert (a + b)[1..] == a[1..] + b;
      CallsAppend(a[1..], b);
    }
  }

  lemma {:induction false} StutterAppend(a: seq<Event>, b: seq<Event>, k: nat)
    ensures Stutter(a + b, k) == Stutter(a, k) + Stutter(b, k)
  {
    if a == [] {
      assert a + b == b;
    } else {
      assert (a + b)[1..] == a[1..] + b;
      StutterAppend(a[1..], b, k);
    }
  }

  /** A listener registered once receives each event once. */
  lemma {:induction false} StutterOnce(es: seq<Event>)
    ensures Stutter(es, 1) == es
  {
    if es != [] {
      StutterOnce(es[1..]);
      assert Repeat(es[0], 1) == [es[0]];
    }
  }

  /** The events one scan emits, by engine outcome: `onScan(true)` first and
      `onScan(false)` last on every outcome; in between the extracted text
      alone on success, the thrown error alone when creating, configuring or
      recognizing fails, and the text followed by the error when terminating
      fails. */
  lemma ScanEvents(image: Image, o: Outcome)
    ensures o.Recognized? ==>
      Events(ScanSteps(image, o)) == [OnScan(true), OnTextExtracted(o.text), OnScan(false)]
    ensures o.TerminateFails? ==>
      Events(ScanSteps(image, o)) == [OnScan(true), OnTextExtracted(o.text), OnError(o.error), OnScan(false)]
    ensures o.CreateFails? || o.SetParamsFails? || o.RecognizeFails? ==>
      Events(ScanSteps(image, o)) == [OnScan(true), OnError(o.error), OnScan(false)]
  {
    var t := TrySteps(image, o);
    EventsAppend([Notify(OnScan(true))] + t + CatchSteps(o), [Notify(OnScan(false))]);
    EventsAppend([Notify(OnScan(true))] + t, CatchSteps(o));
    EventsAppend([Notify(OnScan(true))], t);
    match o
    case CreateFails(_) =>
    case SetParamsFails(_) =>
      assert t == [Invoke(CreateWorker)] + [Invoke(SetParameters(PreserveInterwordSpaces))];
      EventsAppend([Invoke(CreateWorker)], [Invoke(SetParameters(PreserveInterwordSpaces))]);
    case RecognizeFails(_) =>
      var calls := [Invoke(CreateWorker), Invoke(SetParameters(PreserveInterwordSpaces)), Invoke(Recognize(image))];
      assert t == calls;
      assert Events(calls[2..]) == [];
      assert Events(calls[1..]) == [];
    case TerminateFails(text, _) =>
      TextThenTerminateEvents(image, text, t);
    case Recognized(text) =>
      TextThenTerminateEvents(image, text, t);
  }

  lemma TextThenTerminateEvents(image: Image, text: string, t: seq<Step>)
    requires t == [Invoke(CreateWorker), Invoke(SetParameters(PreserveInterwordSpaces)), Invoke(Recognize(image)),
                   Notify(OnTextExtracted(text)), Invoke(Terminate)]
    ensures Events(t) == [OnTextExtracted(text)]
  {
    assert Events(t[4..]) == [];
    assert Events(t[3..]) == [OnTextExtracted(text)];
    assert Events(t[2..]) == [OnTextExtracted(text)];
    assert Events(t[1..]) == [OnTextExtracted(text)];
  }

  /** The engine calls one scan makes, by engine outcome: the calls stop at
      the one that throws, so `terminate` is called only once recognition
      has succeeded, and the image and the spacing parameter are passed on
      unchanged. */
  lemma ScanCalls(image: Image, o: Outcome)
    ensures o.CreateFails? ==> Calls(ScanSteps(image, o)) == [CreateWorker]
    ensures o.SetParamsFails? ==>
      Calls(ScanSteps(image, o)) == [CreateWorker, SetParameters(PreserveInterwordSpaces)]
    ensures o.RecognizeFails? ==>
      Calls(ScanSteps(image, o)) == [CreateWorker, SetParameters(PreserveInterwordSpaces), Recognize(image)]
    ensures o.Recognized? || o.TerminateFails? ==>
      Calls(ScanSteps(image, o)) == [CreateWorker, SetParameters(PreserveInterwordSpaces), Recognize(image), Terminate]
  {
    var t := TrySteps(image, o);
    CallsAppend([Notify(OnScan(true))] + t + CatchSteps(o), [Notify(OnScan(false))]);
    CallsAppend([Notify(OnScan(true))] + t, CatchSteps(o));
    CallsAppend([Notify(OnScan(true))], t);
    assert Calls([Notify(OnScan(true))]) == [];
    assert Calls([Notify(OnScan(false))]) == [];
    assert Calls(CatchSteps(o)) == [];
    TryCalls(image, o);
  }

  /** The engine calls of the `try` block, by engine outcome. */
  lemma TryCalls(image: Image, o: Outcome)
    ensures o.CreateFails? ==> Calls(TrySteps(image, o)) == [CreateWorker]
    ensures o.SetParamsFails? ==>
      Calls(TrySteps(image, o)) == [CreateWorker, SetParameters(PreserveInterwordSpaces)]
    ensures o.RecognizeFails? ==>
      Calls(TrySteps(image, o)) == [CreateWorker, SetParameters(PreserveInterwordSpaces), Recognize(image)]
    ensures o.Recognized? || o.TerminateFails? ==>
      Calls(TrySteps(image, o)) == [CreateWorker, SetParameters(PreserveInterwordSpaces), Recognize(image), Terminate]
  {
    var t := TrySteps(image, o);
    match o
    case CreateFails(_) =>
      assert t == [Invoke(CreateWorker)];
    case SetParamsFails(_) =>
      assert t == [Invoke(CreateWorker), Invoke(SetParameters(PreserveInterwordSpaces))];
      assert Calls(t[1..]) == [SetParameters(PreserveInterwordSpaces)];
    case RecognizeFails(_) =>
      assert t == [Invoke(CreateWorker), Invoke(SetParameters(PreserveInterwordSpaces)), Invoke(Recognize(image))];
      assert Calls(t[2..]) == [Recognize(image)];
      assert Calls(t[1..]) == [SetParameters(PreserveInterwordSpaces), Recognize(image)];
    case TerminateFails(text, _) =>
      TextThenTerminateCalls(image, text, t);
    case Recognized(text) =>
      TextThenTerminateCalls(image, text, t);
  }

  lemma TextThenTerminateCalls(image: Image, text: string, t: seq<Step>)
    requires t == [Invoke(CreateWorker), Invoke(SetParameters(PreserveInterwordSpaces)), Invoke(Recognize(image)),
                   Notify(OnTextExtracted(text)), Invoke(Terminate)]
    ensures Calls(t) == [CreateWorker, SetParameters(PreserveInterwordSpaces), Recognize(image), Terminate]
  {
    assert Calls(t[4..]) == [Terminate];
    assert Calls(t[3..]) == [Terminate];
    assert Calls(t[2..]) == [Recognize(image), Terminate];
    assert Calls(t[1..]) == [SetParameters(PreserveInterwordSpaces), Recognize(image), Terminate];
  }

  /** Extending `a` by `b` and then by `c` is extending it by `b + c`. */
  lemma Chain<T>(a: seq<T>, b: seq<T>, c: seq<T>, x: seq<T>, y: seq<T>, z: seq<T>)
    requires x == a + b && y == x + c && z == b + c
    ensures y == a + z
  {
  }

  /** One step makes exactly the engine call it names, if it names one. */
  lemma AdvanceCalls(st: Observed, s: Step, reacts: Reactions)
    ensures EngineCalls(Advance(st, s, reacts).log) == EngineCalls(st.log) + Calls([s])
  {
    match s
    case Notify(e) =>
      EngineCallsAppend(st.log, Broadcast(st.listeners, e));
      BroadcastCallsNothing(st.listeners, e);
      assert Calls([s]) == [];
    case Invoke(c) =>
      EngineCallsAppend(st.log, [Call(c)]);
      assert Calls([s]) == [c];
  }

  /** The engine calls of a non-empty run of steps are those of its first
      step followed by those of the rest. */
  lemma CallsCons(steps: seq<Step>)
    requires steps != []
    ensures Calls(steps) == Calls([steps[0]]) + Calls(steps[1..])
  {
  }

  /** The engine calls observed while running `steps` are exactly the calls
      among the steps, whatever the callbacks do to the listener list. */
  lemma {:induction false} ReplayCalls(st: Observed, steps: seq<Step>, reacts: Reactions)
    ensures EngineCalls(Replay(st, steps, reacts).log) == EngineCalls(st.log) + Calls(steps)
    decreases |steps|
  {
    if steps == [] {
      assert EngineCalls(st.log) + [] == EngineCalls(st.log);
    } else {
      var next := Advance(st, steps[0], reacts);
      ReplayCalls(next, steps[1..], reacts);
      AdvanceCalls(st, steps[0], reacts);
      CallsCons(steps);
      Chain(EngineCalls(st.log), Calls([steps[0]]), Calls(steps[1..]),
        EngineCalls(next.log), EngineCalls(Replay(next, steps[1..], reacts).log), Calls(steps));
    }
  }

  /** Running steps only ever appends to the log. */
  lemma {:induction false} ReplayExtends(st: Observed, steps: seq<Step>, reacts: Reactions)
    ensures st.log <= Replay(st, steps, reacts).log
    decreases |steps|
  {
    if steps != [] {
      var next := Advance(st, steps[0], reacts);
      ReplayExtends(next, steps[1..], reacts);
      assert st.log <= next.log;
    }
  }

  /** The log of a prefix of the steps is a prefix of the log. */
  lemma {:induction false} ReplayPrefix(st: Observed, a: seq<Step>, b: seq<Step>, reacts: Reactions)
    ensures Replay(st, a, reacts).log <= Replay(st, a + b, reacts).log
    decreases |a|
  {
    if a == [] {
      assert a + b == b;
      ReplayExtends(st, b, reacts);
    } else {
      assert (a + b)[1..] == a[1..] + b;
      ReplayPrefix(Advance(st, a[0], reacts), a[1..], b, reacts);
    }
  }

  /** Listeners only leave the list while steps run; nothing is added to it. */
  lemma {:induction false} ReplayOnlyRemoves(st: Observed, steps: seq<Step>, reacts: Reactions, y: Listener)
    requires y in Replay(st, steps, reacts).listeners
    ensures y in st.listeners
    decreases |steps|
  {
    if steps != [] {
      var next := Advance(st, steps[0], reacts);
      ReplayOnlyRemoves(next, steps[1..], reacts, y);
    }
  }

  /** A listener that is not registered when the steps start receives
      nothing from them: listeners only leave the list. */
  lemma {:induction false} ReplayUnregistered(st: Observed, steps: seq<Step>, reacts: Reactions, l: Listener)
    requires l !in st.listeners
    ensures Received(Replay(st, steps, reacts).log, l) == Received(st.log, l)
    decreases |steps|
  {
    if steps != [] {
      var next := Advance(st, steps[0], reacts);
      match steps[0] {
      case Notify(e) =>
        ReceivedAppend(st.log, Broadcast(st.listeners, e), l);
        BroadcastReceived(st.listeners, e, l);
        assert Received(st.log, l) + [] == Received(st.log, l);
      case Invoke(c) =>
        ReceivedAppend(st.log, [Call(c)], l);
        assert Received(st.log, l) + [] == Received(st.log, l);
      }
      ReplayUnregistered(next, steps[1..], reacts, l);
    }
  }

  /** Removing listeners that do not include `l` keeps every copy of `l`. */
  lemma {:induction false} WithoutAllCount(ls: seq<Listener>, xs: set<Listener>, l: Listener)
    requires l !in xs
    ensures Count(WithoutAll(ls, xs), l) == Count(ls, l)
  {
    if ls != [] {
      WithoutAllCount(ls[1..], xs, l);
      if ls[0] !in xs {
        assert ([ls[0]] + WithoutAll(ls[1..], xs))[1..] == WithoutAll(ls[1..], xs);
      }
    }
  }

  /** One step keeps every copy of a listener that none of its callbacks
      disposes and delivers to it the step's event once per copy. */
  lemma AdvanceUndisposed(st: Observed, s: Step, reacts: Reactions, l: Listener)
    requires s.Notify? ==> forall x :: l !in reacts(x, s.event)
    ensures Count(Advance(st, s, reacts).listeners, l) == Count(st.listeners, l)
    ensures Received(Advance(st, s, reacts).log, l)
         == Received(st.log, l) + Stutter(Events([s]), Count(st.listeners, l))
  {
    var k := Count(st.listeners, l);
    match s
    case Notify(e) =>
      ReceivedAppend(st.log, Broadcast(st.listeners, e), l);
      BroadcastReceived(st.listeners, e, l);
      DisposedOnlyReacted(st.listeners, e, reacts, l);
      WithoutAllCount(st.listeners, Disposed(st.listeners, e, reacts), l);
      assert Events([s]) == [e];
      assert Stutter([e], k) == Repeat(e, k) + Stutter([], k);
    case Invoke(c) =>
      ReceivedAppend(st.log, [Call(c)], l);
      assert Events([s]) == [];
  }

  /** A listener no callback of a run disposes is not disposed by the
      callbacks of its first step, nor by those of the rest. */
  lemma UndisposedCons(steps: seq<Step>, reacts: Reactions, l: Listener)
    requires steps != []
    requires forall i, x :: 0 <= i < |steps| && steps[i].Notify? ==> l !in reacts(x, steps[i].event)
    ensures steps[0].Notify? ==> forall x :: l !in reacts(x, steps[0].event)
    ensures forall i, x :: 0 <= i < |steps[1..]| && steps[1..][i].Notify? ==> l !in reacts(x, steps[1..][i].event)
  {
  }

  /** The events of a non-empty run of steps, each repeated `k` times, are
      those of its first step followed by those of the rest. */
  lemma StutterEventsCons(steps: seq<Step>, k: nat)
    requires steps != []
    ensures Stutter(Events(steps), k) == Stutter(Events([steps[0]]), k) + Stutter(Events(steps[1..]), k)
  {
  }

  /** A listener that no callback of the run disposes receives every
      emission among the steps, in order, once per registration, even while
      other listeners dispose themselves or each other. */
  lemma {:induction false} UndisposedHearsEveryEmission(st: Observed, steps: seq<Step>, reacts: Reactions, l: Listener)
    requires forall i, x :: 0 <= i < |steps| && steps[i].Notify? ==> l !in reacts(x, steps[i].event)
    ensures Count(Replay(st, steps, reacts).listeners, l) == Count(st.listeners, l)
    ensures Received(Replay(st, steps, reacts).log, l)
         == Received(st.log, l) + Stutter(Events(steps), Count(st.listeners, l))
    decreases |steps|
  {
    if steps == [] {
      assert Received(st.log, l) + [] == Received(st.log, l);
    } else {
      var next, k := Advance(st, steps[0], reacts), Count(st.listeners, l);
      UndisposedCons(steps, reacts, l);
      UndisposedHearsEveryEmission(next, steps[1..], reacts, l);
      AdvanceUndisposed(st, steps[0], reacts, l);
      StutterEventsCons(steps, k);
      Chain(Received(st.log, l), Stutter(Events([steps[0]]), k), Stutter(Events(steps[1..]), k),
        Received(next.log, l), Received(Replay(next, steps[1..], reacts).log, l), Stutter(Events(steps), k));
    }
  }

  /** Every scan starts by delivering `onScan(true)` to every listener
      registered when it starts, in list order, whatever the callbacks do. */
  lemma ScanStartsWithOnScanTrue(st: Observed, image: Image, o: Outcome, reacts: Reactions)
    ensures st.log + Broadcast(st.listeners, OnScan(true)) <= Replay(st, ScanSteps(image, o), reacts).log
  {
    var first := [Notify(OnScan(true))];
    assert ScanSteps(image, o) == first + (TrySteps(image, o) + CatchSteps(o) + [Notify(OnScan(false))]);
    ReplayPrefix(st, first, TrySteps(image, o) + CatchSteps(o) + [Notify(OnScan(false))], reacts);
  }

  /** Every scan ends by delivering `onScan(false)` to every listener still
      registered after the `catch` block, in list order. */
  lemma ScanEndsWithOnScanFalse(st: Observed, image: Image, o: Outcome, reacts: Reactions)
    ensures var before := Replay(st, [Notify(OnScan(true))] + TrySteps(image, o) + CatchSteps(o), reacts);
            Replay(st, ScanSteps(image, o), reacts).log == before.log + Broadcast(before.listeners, OnScan(false))
  {
    ReplaySnoc(st, [Notify(OnScan(true))] + TrySteps(image, o) + CatchSteps(o), Notify(OnScan(false)), reacts);
  }

  /** A listener registered once observes exactly the event sequence of
      the outcome, provided no callback disposes it before the final
      `onScan(false)`; disposing itself, or being disposed, during that
      last emission does not take it away, since the emission walks the
      list it started with. */
  lemma ScanDeliversProtocol(st: Observed, image: Image, o: Outcome, reacts: Reactions, l: Listener)
    requires Count(st.listeners, l) == 1
    requires var before := [Notify(OnScan(true))] + TrySteps(image, o) + CatchSteps(o);
      forall i, x :: 0 <= i < |before| && before[i].Notify? ==> l !in reacts(x, before[i].event)
    ensures Received(Replay(st, ScanSteps(image, o), reacts).log, l) == Received(st.log, l) + Events(ScanSteps(image, o))
  {
    var before, last := [Notify(OnScan(true))] + TrySteps(image, o) + CatchSteps(o), Notify(OnScan(false));
    var mid := Replay(st, before, reacts);
    ReplaySnoc(st, before, last, reacts);
    UndisposedHearsEveryEmission(st, before, reacts, l);
    StutterOnce(Events(before));
    ReceivedAppend(mid.log, Broadcast(mid.listeners, OnScan(false)), l);
    BroadcastReceived(mid.listeners, OnScan(false), l);
    assert Repeat(OnScan(false), 1) == [OnScan(false)];
    EventsAppend(before, [last]);
    assert Events([last]) == [OnScan(false)];
    Chain(Received(st.log, l), Events(before), [OnScan(false)],
      Received(mid.log, l), Received(Advance(mid, last, reacts).log, l), Events(ScanSteps(image, o)));
  }

  /** Before the `finally` block a scan emits `onScan(true)`, the text and
      the error, and never `onScan(false)`. */
  lemma NoEndBeforeFinally(image: Image, o: Outcome, i: nat)
    requires var before := [Notify(OnScan(true))] + TrySteps(image, o) + CatchSteps(o);
      i < |before| && before[i].Notify?
    ensures ([Notify(OnScan(true))] + TrySteps(image, o) + CatchSteps(o))[i].event != OnScan(false)
  {
  }

  /** A one-shot listener, registered once and disposing itself when it is
      told that scanning stopped, still receives the whole event sequence
      of the scan it was registered for. */
  lemma OneShotListenerHearsWholeScan(st: Observed, image: Image, o: Outcome, reacts: Reactions, l: Listener)
    requires Count(st.listeners, l) == 1
    requires forall x, e :: e != OnScan(false) ==> l !in reacts(x, e)
    ensures Received(Replay(st, ScanSteps(image, o), reacts).log, l) == Received(st.log, l) + Events(ScanSteps(image, o))
  {
    var before := [Notify(OnScan(true))] + TrySteps(image, o) + CatchSteps(o);
    forall i, x | 0 <= i < |before| && before[i].Notify?
      ensures l !in reacts(x, before[i].event)
    {
      NoEndBeforeFinally(image, o, i);
    }
    ScanDeliversProtocol(st, image, o, reacts, l);
  }
}
