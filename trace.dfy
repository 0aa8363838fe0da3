/** What the scanner makes observable: the callbacks it invokes on its
    listeners and the calls it makes into the OCR engine, recorded in order. */
module Trace {
  import opened ListenerList

  datatype Option<T> = None | Some(value: T)

  /** The `Error` value a failed engine call throws. */
  datatype Error = Error(message: string)

  /** One callback of the `ScannerEvents` contract, with its argument. */
  datatype Event =
    | OnScan(isProcessing: bool)
    | OnTextExtracted(text: string)
    | OnError(error: Error)

  /** The image handed to `scan`: a string or a byte buffer. */
  datatype Image = Text(text: string) | Bytes(bytes: seq<bv8>)

  /** A call into the OCR engine, with the arguments the scanner passes. */
  datatype EngineCall =
    | CreateWorker
    | SetParameters(preserveInterwordSpaces: string)
    | Recognize(image: Image)
    | Terminate

  /** One observable effect: a callback delivered to a listener, or an
      engine call. */
  datatype Action =
    | Deliver(listener: Listener, event: Event)
    | Call(call: EngineCall)

  /** What a listener's callback does to the listener list while it runs:
      the callback for `e` on `l` invokes the disposers of the listeners in
      `reacts(l, e)`. */
  type Reactions = (Listener, Event) -> set<Listener>

  /** The deliveries made by one `emit(e)` over the list `ls`, taken when
      the emission starts: one per entry, in list order. */
  function Broadcast(ls: seq<Listener>, e: Event): (r: seq<Action>)
    ensures |r| == |ls|
    ensures forall i :: 0 <= i < |ls| ==> r[i] == Deliver(ls[i], e)
  {
    if ls == [] then [] else [Deliver(ls[0], e)] + Broadcast(ls[1..], e)
  }

  /** The events delivered to `l`, in the order it received them. */
  function Received(log: seq<Action>, l: Listener): seq<Event>
  {
    if log == [] then []
    else if log[0].Deliver? && log[0].listener == l then [log[0].event] + Received(log[1..], l)
    else Received(log[1..], l)
  }

  /** The engine calls in `log`, in order. */
  function EngineCalls(log: seq<Action>): seq<EngineCall>
  {
    if log == [] then []
    else if log[0].Call? then [log[0].call] + EngineCalls(log[1..])
    else EngineCalls(log[1..])
  }

  /** `e` repeated `n` times. */
  function Repeat(e: Event, n: nat): seq<Event>
  {
    seq(n, _ => e)
  }

  /** Every listener disposed by some callback of one emission of `e` to
      `ls`. */
  function Disposed(ls: seq<Listener>, e: Event, reacts: Reactions): set<Listener>
  {
    if ls == [] then {}
    else Disposed(ls[..|ls| - 1], e, reacts) + reacts(ls[|ls| - 1], e)
  }

  /** The listener list once an emission of `e` to `ls` is over. */
  function Survivors(ls: seq<Listener>, e: Event, reacts: Reactions): seq<Listener>
  {
    WithoutAll(ls, Disposed(ls, e, reacts))
  }

  /** Every listener whose disposer some callback of the emission invokes
      is disposed. */
  lemma {:induction false} DisposedCovers(ls: seq<Listener>, e: Event, reacts: Reactions, i: nat, y: Listener)
    requires i < |ls| && y in reacts(ls[i], e)
    ensures y in Disposed(ls, e, reacts)
  {
    if i < |ls| - 1 {
      DisposedCovers(ls[..|ls| - 1], e, reacts, i, y);
    }
  }

  /** A listener whose disposer no callback of the emission invokes is not
      disposed. */
  lemma {:induction false} DisposedOnlyReacted(ls: seq<Listener>, e: Event, reacts: Reactions, y: Listener)
    requires forall i :: 0 <= i < |ls| ==> y !in reacts(ls[i], e)
    ensures y !in Disposed(ls, e, reacts)
  {
    if ls != [] {
      DisposedOnlyReacted(ls[..|ls| - 1], e, reacts, y);
    }
  }

  lemma {:induction false} ReceivedAppend(a: seq<Action>, b: seq<Action>, l: Listener)
    ensures Received(a + b, l) == Received(a, l) + Received(b, l)
  {
    if a == [] {
      assert a + b == b;
    } else {
      assert (a + b)[1..] == a[1..] + b;
      ReceivedAppend(a[1..], b, l);
    }
  }

  lemma {:induction false} EngineCallsAppend(a: seq<Action>, b: seq<Action>)
    ensures EngineCalls(a + b) == EngineCalls(a) + EngineCalls(b)
  {
    if a == [] {
      assert a + b == b;
    } else {
      assert (a + b)[1..] == a[1..] + b;
      EngineCallsAppend(a[1..], b);
    }
  }

  /** One emission calls the callback on `l` exactly as many times as `l`
      is registered: once for a listener registered once, never for one
      that is not registered. */
  lemma {:induction false} BroadcastReceived(ls: seq<Listener>, e: Event, l: Listener)
    ensures Received(Broadcast(ls, e), l) == Repeat(e, Count(ls, l))
  {
    if ls != [] {
      BroadcastReceived(ls[1..], e, l);
      assert Broadcast(ls, e)[1..] == Broadcast(ls[1..], e);
    }
  }

  /** An emission only invokes callbacks; it makes no engine call. */
  lemma {:induction false} BroadcastCallsNothing(ls: seq<Listener>, e: Event)
    ensures EngineCalls(Broadcast(ls, e)) == []
  {
    if ls != [] {
      BroadcastCallsNothing(ls[1..], e);
      assert Broadcast(ls, e)[1..] == Broadcast(ls[1..], e);
    }
  }

  /** Once a listener's disposer has run, later emissions do not reach it,
      and every other listener receives them exactly as before. */
  lemma DisposedListenerHearsNothing(ls: seq<Listener>, x: Listener, e: Event, y: Listener)
    ensures Received(Broadcast(Without(ls, x), e), x) == []
    ensures y != x ==> Received(Broadcast(Without(ls, x), e), y) == Received(Broadcast(ls, e), y)
  {
    BroadcastReceived(Without(ls, x), e, x);
    BroadcastReceived(Without(ls, x), e, y);
    BroadcastReceived(ls, e, y);
    WithoutCount(ls, x, x);
    WithoutCount(ls, x, y);
  }
}
