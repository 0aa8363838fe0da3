# oScan `Scanner` — a Dafny model

This project models the `Scanner` class of oScan's OCR component
(`src/components/ocr/Scanner.tsx`). It is an observer registry plus a fixed
event protocol around one OCR run. It is modelled in four modules:

- `ListenerList` (`listener_list.dfy`) covers listeners and the filtering a
  disposer performs.
  - A listener is a `ScannerEvents` object. The scanner only compares
    listeners by reference (`!==`), so `Listener` is a class with no state of
    its own.
  - `Without(ls, x)` is the list the disposer of `x` puts back.
  - `WithoutAll(ls, xs)` removes a whole set of listeners at once.
- `Trace` (`trace.dfy`) covers what the scanner makes observable.
  - The observable effects are the deliveries `Deliver(listener, event)` of
    the callbacks `onScan`, `onTextExtracted` and `onError`, and the calls
    into the OCR engine. The ghost log records them in order.
  - `Broadcast` gives the deliveries of one emission.
  - `Received` and `EngineCalls` project the log to what one listener saw and
    to the engine calls made.
  - A callback may run disposers while it is delivered. What a callback does
    to the list is passed in as `reacts(l, e)`, the set of listeners whose
    disposers the callback for `e` on `l` invokes.
- `ScanProtocol` (`scan_protocol.dfy`) covers the order of effects of `scan`.
  - The engine is abstracted to an `Outcome`: which of `createWorker`,
    `setParameters`, `recognize` and `terminate` throws first, and the
    recognized text.
  - `TrySteps`, `CatchSteps` and `ScanSteps` are the sequences of emissions
    and engine calls of the `try` block, the `catch` block and the whole of
    `scan` (lines 38-52) for that outcome. They carry no contract of their
    own; `Scanner.Scan` is proved equal to replaying `ScanSteps`, and the
    lemmas below state what those steps mean.
  - `Replay` runs a sequence of steps on a log and a listener list.
  - The lemmas state what a scan emits, which engine calls it makes, and what
    each listener receives. All of them describe a scan during which nothing
    outside the listeners' own callbacks changes the list (see "Left out").
- `ScannerModel` (`scanner.dfy`) is the imperative class itself:
  - `Scanner` with its `listeners` field and ghost `log`;
  - `AddListener`, and the `Disposer` it returns;
  - `Emit`, a loop over the list as it was when the emission started;
  - `Scan`, the try/catch/finally sequence;
  - `ScannerStatic`, which holds the lazily created single instance.

  Each method's postcondition ties the new state to the specification
  functions above, so the lemmas about those functions apply to the class.

The engine worker is terminated only on the path where creating,
configuring and recognizing all succeed. On the paths where
`setParameters` or `recognize` throws, the worker that was created is never
terminated. A design that releases the engine on every exit path would call
`terminate` in `finally`. The model follows the code as written: see
`ScanProtocol.ScanCalls`.

## Model

| member | source | states |
|---|---|---|
| ScannerModel.ScannerStatic.GetInstance | src/components/ocr/Scanner.tsx:16-21 | the first call creates a fresh scanner with no listeners and stores it; every later call returns the stored instance and creates nothing |
| ScannerModel.Scanner.constructor | src/components/ocr/Scanner.tsx:12-14 | a new scanner has an empty listener list and has observed nothing |
| ScannerModel.Scanner.AddListener | src/components/ocr/Scanner.tsx:23-28 | the new list is the old list with the listener appended at the end; the returned disposer belongs to this scanner and this listener; nothing is delivered |
| ScannerModel.Disposer.Invoke | src/components/ocr/Scanner.tsx:25-27 | the list becomes the old list without any entry identical to the disposer's listener; the log is unchanged |
| ScannerModel.Scanner.Emit | src/components/ocr/Scanner.tsx:30-35 | the event is delivered once to every entry of the list as it was when the emission started, in list order, whatever disposers the callbacks run; afterwards the list is the old one minus every listener some callback disposed |
| ScannerModel.Scanner.Scan | src/components/ocr/Scanner.tsx:37-53 | the log and the list after a scan are exactly what running `ScanSteps` for the engine outcome gives, with every emission delivered and filtered as `Emit` does |
| ListenerList.Count | src/components/ocr/Scanner.tsx:26 | the number of entries identical to a listener is at most the list length, and it is zero exactly when the listener is absent |
| ListenerList.Without | src/components/ocr/Scanner.tsx:26 | the filtered list is shorter by the number of removed copies; it holds exactly the entries of the old list that are not the listener |
| ListenerList.WithoutAll | src/components/ocr/Scanner.tsx:26 | removing a set of listeners keeps exactly the entries outside the set and never lengthens the list |
| ListenerList.WithoutAppend | src/components/ocr/Scanner.tsx:26 | filtering acts on each part of a list separately, so kept entries stay in their relative order |
| ListenerList.WithoutAbsent | src/components/ocr/Scanner.tsx:26 | disposing a listener that is not registered leaves the list unchanged |
| ListenerList.WithoutIdempotent | src/components/ocr/Scanner.tsx:25-27 | calling a disposer a second time has no further effect |
| ListenerList.WithoutCount | src/components/ocr/Scanner.tsx:26 | the disposer removes every copy of its listener, duplicates included, and keeps the number of copies of every other listener |
| ListenerList.AddThenDispose | src/components/ocr/Scanner.tsx:23-27 | adding a listener not yet registered and then calling its disposer restores the previous list |
| ListenerList.WithoutCommutes | src/components/ocr/Scanner.tsx:25-27 | two disposers give the same list in either order |
| ListenerList.WithoutAsWithoutAll | src/components/ocr/Scanner.tsx:26 | one disposer is the removal of the one-element set of its listener |
| ListenerList.WithoutAllUnion | src/components/ocr/Scanner.tsx:26 | removing one set of listeners and then another is removing their union |
| ListenerList.WithoutAllEmpty | src/components/ocr/Scanner.tsx:26 | removing no listener leaves the list as it is |
| Trace.Broadcast | src/components/ocr/Scanner.tsx:34 | one emission has one delivery per list entry, the i-th going to the i-th entry |
| Trace.BroadcastReceived | src/components/ocr/Scanner.tsx:34 | in one emission a listener receives the event exactly as many times as it is registered, and never if it is not registered |
| Trace.BroadcastCallsNothing | src/components/ocr/Scanner.tsx:34 | an emission makes no engine call |
| Trace.DisposedListenerHearsNothing | src/components/ocr/Scanner.tsx:26 | after a listener's disposer has run, an emission reaches it no more, and every other listener receives it exactly as before |
| Trace.DisposedCovers | src/components/ocr/Scanner.tsx:34 | every listener whose disposer some callback of an emission runs is gone once the emission is over |
| Trace.DisposedOnlyReacted | src/components/ocr/Scanner.tsx:34 | a listener whose disposer no callback of the emission runs is not removed |
| Trace.ReceivedAppend | src/components/ocr/Scanner.tsx:34 | helper: what a listener receives from two consecutive stretches of the log is what it receives from each, in order |
| Trace.EngineCallsAppend | src/components/ocr/Scanner.tsx:40-47 | helper: the engine calls of two consecutive stretches of the log are those of each, in order |
| ScanProtocol.Thrown | src/components/ocr/Scanner.tsx:40-49 | the `try` block throws exactly when some engine call fails, and `catch` receives the error that call threw |
| ScanProtocol.ScanEvents | src/components/ocr/Scanner.tsx:38-52 | on every outcome the events are `onScan(true)` first and `onScan(false)` last; between them is the text alone on success, the error alone when create, set-parameters or recognize fails, and the text then the error when terminate fails |
| ScanProtocol.ScanCalls | src/components/ocr/Scanner.tsx:40-47 | the engine calls stop at the one that throws; `terminate` is called only once recognition succeeded; the spacing parameter `"1"` and the image are passed on unchanged |
| ScanProtocol.TryCalls | src/components/ocr/Scanner.tsx:40-47 | helper for `ScanCalls`: the engine calls of the `try` block, by outcome |
| ScanProtocol.TryReplay | src/components/ocr/Scanner.tsx:40-47 | the state after the `try` block is that after the calls up to the failing one, with the text emitted between recognize and terminate |
| ScanProtocol.CatchReplay | src/components/ocr/Scanner.tsx:48-49 | helper for `Scanner.Scan`: the `catch` block emits `onError` with the thrown error once when the `try` block threw, and does nothing otherwise |
| ScanProtocol.ScanReplay | src/components/ocr/Scanner.tsx:37-53 | a scan is `onScan(true)`, then the `try` block, then the `catch` block, then `onScan(false)`, each run from where the previous one stopped |
| ScanProtocol.ReplayOne | src/components/ocr/Scanner.tsx:37-53 | helper: running one step is advancing by it |
| ScanProtocol.ReplayAppend | src/components/ocr/Scanner.tsx:37-53 | helper: running two sequences of steps one after the other is running their concatenation |
| ScanProtocol.ReplaySnoc | src/components/ocr/Scanner.tsx:37-53 | helper: running one more step after a sequence advances from where the sequence stopped |
| ScanProtocol.ReplayCalls | src/components/ocr/Scanner.tsx:37-53 | the engine calls observed during a run are exactly the calls among its steps, whatever the callbacks do to the list |
| ScanProtocol.ReplayExtends | src/components/ocr/Scanner.tsx:37-53 | a run only appends to the log |
| ScanProtocol.ReplayPrefix | src/components/ocr/Scanner.tsx:37-53 | the log of the first part of a run is a prefix of the log of the whole run |
| ScanProtocol.ReplayOnlyRemoves | src/components/ocr/Scanner.tsx:37-53 | in a run where only the listeners' callbacks touch the list, listeners can only leave it: every listener registered at the end was registered at the start |
| ScanProtocol.ReplayUnregistered | src/components/ocr/Scanner.tsx:34 | in a run where only the listeners' callbacks touch the list, a listener not registered when the steps start receives nothing from them |
| ScanProtocol.UndisposedHearsEveryEmission | src/components/ocr/Scanner.tsx:30-53 | in a run where only the listeners' callbacks touch the list, a listener that no callback of the run's emissions disposes keeps all its registrations and receives every emission of the run, in order, once per registration, even while other listeners dispose themselves or each other |
| ScanProtocol.ScanStartsWithOnScanTrue | src/components/ocr/Scanner.tsx:38 | every scan starts by delivering `onScan(true)` to every listener registered at its start, in list order |
| ScanProtocol.ScanEndsWithOnScanFalse | src/components/ocr/Scanner.tsx:50-52 | every scan ends with one emission of `onScan(false)` to the listeners still registered after the `catch` block |
| ScanProtocol.ScanDeliversProtocol | src/components/ocr/Scanner.tsx:37-53 | in a scan where only the listeners' callbacks touch the list, a listener registered once and disposed by no callback before the final `onScan(false)` receives exactly the event sequence of the outcome; being disposed during that last emission does not cut it short |
| ScanProtocol.EventsAppend | src/components/ocr/Scanner.tsx:37-53 | helper: the events of two consecutive sequences of steps are those of each, in order |
| ScanProtocol.CallsAppend | src/components/ocr/Scanner.tsx:37-53 | helper: the engine calls of two consecutive sequences of steps are those of each, in order |
| ScanProtocol.OneShotListenerHearsWholeScan | src/components/ocr/Scanner.tsx:34-52 | in a scan where only the listeners' callbacks touch the list, a listener registered once that disposes itself only when told scanning stopped still receives the whole event sequence, because `forEach` walks the list the emission started with |
| ScanProtocol.NoEndBeforeFinally | src/components/ocr/Scanner.tsx:38-49 | before the `finally` block a scan never emits `onScan(false)` |
| ScanProtocol.StutterOnce | src/components/ocr/Scanner.tsx:34 | a listener registered once receives each emitted event once |

## Left out

- The Tesseract engine (`createWorker`, `setParameters`, `recognize`, `terminate`) is a foreign library. It is replaced by the `Outcome` parameter of `Scan`. The recognized text is taken as given, and the structure of the recognition result is not modelled.
- `async`/`await` scheduling is not modelled, nor are concurrent `scan` calls interleaving their emissions. One scan runs at a time, as a straight-line sequence of steps.
- ScanProtocol.ReplayOnlyRemoves, ScanProtocol.ReplayUnregistered, ScanProtocol.UndisposedHearsEveryEmission, ScanProtocol.ScanDeliversProtocol, ScanProtocol.OneShotListenerHearsWholeScan: hold only for a scan during which nothing but the listeners' own callbacks changes the list. Other code runs at the four `await`s of `scan` (lines 41, 42, 45, 47), for example the `useEffect` of the React glue that calls `addListener` or a disposer when a component mounts or unmounts. `addListener` and disposer calls made there are not modelled. In the program, a listener added during an `await` does receive the later emissions, and a listener disposed there misses them.
- Callbacks that throw are not modelled. In the source, a throwing `onTextExtracted` callback would be caught and turned into `onError`, and a throwing `onScan` callback would escape `scan`.
- Callbacks that add listeners or start a scan themselves are not modelled; a callback's effect on the list is limited to running disposers. `reacts` gives the set of disposers a callback runs, not their order. `WithoutCommutes` shows that the order does not change the resulting list.
- Listeners are compared only by identity. The callback functions inside a `ScannerEvents` object are not modelled.
- `ScannerProvider` and `useScanner` (`Scanner.tsx:56-105`) are React context and state glue. They are not part of this model, and neither is the mismatch between their `onProcessingChange` key and the `ScannerEvents` type, nor `console.error`.
- A private constructor cannot be expressed in Dafny. The single instance lives in a `ScannerStatic` object, standing for the class's static field. The model does not rule out other code constructing a `Scanner`, nor a second `ScannerStatic` object holding its own instance: `GetInstance` promises one instance per `ScannerStatic` object only.
- The pages, routes and layout components of the application are rendering only and are not part of this model.
