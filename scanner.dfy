/** The `Scanner` class: a lazily created single instance, a mutable list of
    listeners with disposers, an `emit` that calls one callback on every
    listener, and `scan`, which wraps one OCR run in a fixed sequence of
    emissions. The OCR engine is abstracted to the `Outcome` of the run. */
module ScannerModel {
  import opened ListenerList
  import opened Trace
  import opened ScanProtocol

  class Scanner {
    /** The registered listeners, in registration order. */
    var listeners: seq<Listener>
    /** Every callback delivered and every engine call made, in order. */
    ghost var log: seq<Action>

    /** The private constructor: no listeners, nothing observed yet. */
    constructor ()
      ensures listeners == [] && log == []
    {
      listeners := [];
      log := [];
    }

    /** Appends `events` to the list and returns its disposer. */
    method AddListener(events: Listener) returns (dispose: Disposer)
      modifies this
      ensures listeners == old(listeners) + [events]
      ensures log == old(log)
      ensures fresh(dispose) && dispose.owner == this && dispose.target == events
    {
      listeners := listeners + [events];
      dispose := new Disposer(this, events);
    }

    /** Calls the callback for `e` on every listener registered when the
        emission starts, in list order, even when a callback disposes
        itself or another listener on the way: a disposer replaces the list
        and does not change the one being walked. Afterwards the list is
        the old one minus every listener some callback disposed. */
    method Emit(e: Event, reacts: Reactions)
      modifies this
      ensures log == old(log) + Broadcast(old(listeners), e)
      ensures listeners == Survivors(old(listeners), e, reacts)
      ensures Observed(log, listeners) == Advance(old(Observed(log, listeners)), Notify(e), reacts)
    {
      var walked := listeners;
      WithoutAllEmpty(walked);
      var i := 0;
      while i < |walked|
        invariant 0 <= i <= |walked|
        invariant log == old(log) + Broadcast(walked[..i], e)
        invariant listeners == WithoutAll(walked, Disposed(walked[..i], e, reacts))
      {
        EmissionStep(walked, i, e, reacts);
        Chain(old(log), Broadcast(walked[..i], e), [Deliver(walked[i], e)],
          log, log + [Deliver(walked[i], e)], Broadcast(walked[..i + 1], e));
        log := log + [Deliver(walked[i], e)];
        WithoutAllUnion(walked, Disposed(walked[..i], e, reacts), reacts(walked[i], e));
        listeners := WithoutAll(listeners, reacts(walked[i], e));
        i := i + 1;
      }
      assert walked[..i] == walked;
    }

    /** Runs one scan of `image` whose engine calls behave as `outcome`
        says: `onScan(true)`, then the `try` block (create a worker, set
        its parameters, recognize, emit the text, terminate) up to the call
        that throws, `onError` with what was thrown, and `onScan(false)`
        in `finally`. */
    method Scan(image: Image, outcome: Outcome, reacts: Reactions)
      modifies this
      ensures Observed(log, listeners) == Replay(old(Observed(log, listeners)), ScanSteps(image, outcome), reacts)
    {
      ghost var start := Observed(log, listeners);
      Emit(OnScan(true), reacts);
      ReplayOne(start, Notify(OnScan(true)), reacts);
      ghost var tried := Observed(log, listeners);

      var thrown: Option<Error> := None;
      log := log + [Call(CreateWorker)];
      if outcome.CreateFails? {
        thrown := Some(outcome.error);
      } else {
        log := log + [Call(SetParameters(PreserveInterwordSpaces))];
        if outcome.SetParamsFails? {
          thrown := Some(outcome.error);
        } else {
          log := log + [Call(Recognize(image))];
          if outcome.RecognizeFails? {
            thrown := Some(outcome.error);
          } else {
            ghost var recognized := Observed(log, listeners);
            Emit(OnTextExtracted(outcome.text), reacts);
            assert Observed(log, listeners) == Advance(recognized, Notify(OnTextExtracted(outcome.text)), reacts);
            log := log + [Call(Terminate)];
            if outcome.TerminateFails? {
              thrown := Some(outcome.error);
            }
          }
        }
      }
      TryReplay(tried, image, outcome, reacts);
      assert Observed(log, listeners) == Replay(tried, TrySteps(image, outcome), reacts);
      assert thrown == Thrown(outcome);

      ghost var caught := Observed(log, listeners);
      if thrown.Some? {
        Emit(OnError(thrown.value), reacts);
      }
      CatchReplay(caught, outcome, reacts);
      ghost var finished := Observed(log, listeners);
      assert finished == Replay(caught, CatchSteps(outcome), reacts);

      Emit(OnScan(false), reacts);
      ReplayOne(finished, Notify(OnScan(false)), reacts);
      ScanReplay(start, image, outcome, reacts);
    }
  }

  /** The function `addListener` returns: it puts back as the list a copy
      of the list with every entry identical to its listener removed. */
  class Disposer {
    const owner: Scanner
    const target: Listener

    constructor (owner: Scanner, target: Listener)
      ensures this.owner == owner && this.target == target
    {
      this.owner := owner;
      this.target := target;
    }

    method Invoke()
      modifies owner
      ensures owner.listeners == Without(old(owner.listeners), target)
      ensures owner.log == old(owner.log)
    {
      owner.listeners := Without(owner.listeners, target);
    }
  }

  /** The static side of the `Scanner` class: the slot that holds its one
      instance once it has been created. */
  class ScannerStatic {
    var instance: Scanner?

    constructor ()
      ensures instance == null
    {
      instance := null;
    }

    /** Creates the instance on the first call and returns that same
        instance, creating nothing, on every later call. */
    method GetInstance() returns (s: Scanner)
      modifies this
      ensures instance == s
      ensures old(instance) != null ==> s == old(instance)
      ensures old(instance) == null ==> fresh(s) && s.listeners == [] && s.log == []
    {
      if instance == null {
        instance := new Scanner();
      }
      s := instance;
    }
  }

  /** Delivering to one more entry of the walked list. */
  lemma EmissionStep(ls: seq<Listener>, i: nat, e: Event, reacts: Reactions)
    requires i < |ls|
    ensures Broadcast(ls[..i + 1], e) == Broadcast(ls[..i], e) + [Deliver(ls[i], e)]
    ensures Disposed(ls[..i + 1], e, reacts) == Disposed(ls[..i], e, reacts) + reacts(ls[i], e)
  {
    assert ls[..i + 1][..i] == ls[..i];
    assert ls[..i + 1] == ls[..i] + [ls[i]];
  }
}
