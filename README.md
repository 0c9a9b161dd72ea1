# Double-click "go up" helper for File Explorer — a Dafny model

The program watches global mouse input. When two left-button presses come
less than 0.25 s apart, the second press's screen coordinates go onto a FIFO
(`action_queue`). A worker takes them off one at a time. For each one it
hit-tests the point and checks that the top-level window is a File Explorer
window (class `CabinetWClass`). It then walks from the hit element up through
at most five generations. If one of them supports the UI Automation
SelectionItemPattern (id 10010), or has a content type name (ListItem,
TreeItem, Image, Text, Edit, Hyperlink), the click landed on content and
nothing happens. Otherwise the click landed on blank space and Alt+Up
("parent folder") is sent.

The model has four modules:

- `Platform` (`platform.dfy`): the desktop as values. Every platform query
  result is a `Query<T>`: a value, or `Raises` when the call throws. The
  element tree is a finite `Snapshot` from handles to what each query
  answers. A handle missing from the snapshot is stale, so every query on it
  throws.
- `Monitor` (`monitor.dfy`): the `MouseMonitor` class and its `OnClick`
  callback; `ActionQueue`, the FIFO; and the pure transition rule `Step`,
  folded over a notification stream by `Run`.
- `Classifier` (`classifier.dfy`): `Walk`, the ancestor walk as a function,
  and `IsDriveOrFile`, the bounded loop with early returns proved equal to it.
  It also gives a reference definition of the ancestor chain (`Ancestor`).
- `Dispatch` (`dispatch.dfy`): `ProcessDoubleClick`, the decision as a
  `Verdict`, where `Blank` is the only verdict that sends the key; and
  `ServeOnce`, one turn of the worker loop.

Timestamps are integer milliseconds. The threshold is 250.

The model follows `main.py` as written:

- After a confirmed pair `last_click_time` is not reset. Every left press
  overwrites it, so a third rapid press pairs with the second
  (`ThirdRapidPressPairsWithSecond`).
- An exception in hit-testing, in the top-level lookup or in reading the
  window class is caught at the end of `process_double_click`. The verdict is
  then `Failed`, and nothing is sent.
- `action_queue` is an unbounded `queue.Queue()`, so `put` never drops an entry.
- `is_drive_or_file` catches its own exceptions and answers false ("blank").
  So an exception inside the classifier leads to the key being sent
  (`ClassifierFailureSendsKey`).

## Model

| member | source | states |
|---|---|---|
| `Monitor.ActionQueue.constructor` | main.py:12 | the global `action_queue` starts empty |
| `Monitor.Step` | main.py:19-27 | a non-left button or a release leaves the state alone and enqueues nothing; a left press sets `last_click_time` to its time and enqueues something iff it comes less than the threshold after `last_click_time`; anything enqueued is the press's own (x, y) |
| `Monitor.Run` | main.py:19-27 | a stream enqueues at most one entry per left press |
| `Monitor.MouseMonitor.constructor` | main.py:15-17 | a new monitor starts with `last_click_time` 0 and `click_count` 0, attached to the action queue |
| `Monitor.MouseMonitor.OnClick` | main.py:19-27 | the new fields and the queue are exactly one step of the transition rule: a left press within the threshold appends its own (x, y) at the tail, and every left press records its time; anything else changes nothing |
| `Monitor.ActionQueue.Put` | main.py:23 | appends at the tail and leaves earlier entries unchanged |
| `Monitor.ActionQueue.Get` | main.py:103-106 | returns and removes the oldest entry, or reports an empty queue and changes nothing |
| `Monitor.RunAppend` | main.py:19-27 | processing a stream in two pieces equals processing it whole; the queue only grows at its tail and earlier entries never change |
| `Monitor.LeftPressAppendsIffWithinThreshold` | main.py:20-27 | after any history, a left press appends exactly its own (x, y) iff it is less than the threshold after the previous left press and appends nothing otherwise; either way `last_click_time` becomes its time |
| `Monitor.OtherNotificationIgnored` | main.py:20 | a release, or a press of any button but the left one, changes neither the monitor's fields nor the queue |
| `Monitor.OnlyLeftPressesMatter` | main.py:19-20 | a stream and its left presses alone produce the same state and the same queue |
| `Monitor.LastClickTimeIsLatestPress` | main.py:21-27 | after any stream, `last_click_time` is the time of its latest left press (or the initial value if there was none), whether or not that press was paired |
| `Monitor.ThirdRapidPressPairsWithSecond` | main.py:20-27 | three left presses with both gaps under the threshold, the first not paired, enqueue two entries: the second and the third press's coordinates |
| `Monitor.ClickCountUnobservable` | main.py:17-26 | `click_count` never affects what is enqueued or `last_click_time` |
| `Classifier.Walk` | main.py:35-68 | the walk ends at a generation between its start and 4, or after exhausting all five generations |
| `Classifier.IsDriveOrFile` | main.py:29-68 | the loop with its early returns answers true exactly when the walk ends on content |
| `Classifier.WalkFindsContentIff` | main.py:38-63 | on a snapshot where no query throws, the walk from generation g finds content iff one of the next 5 - g elements up the parent chain supports pattern 10010 or has a content type name |
| `Classifier.FindsContentIffContentAncestor` | main.py:50-68 | on a snapshot where no query throws, the classifier answers true iff the hit element or one of its four nearest ancestors supports pattern 10010 or has a content type name, and false otherwise |
| `Classifier.LooksLikeContent` | main.py:53-60 | no contract of its own: the two content tests in priority order, used by `Walk` and specified through `WalkFindsContentIffCleanChain` |
| `Classifier.WalkFindsContentIffCleanChain` | main.py:35-68 | on every snapshot, stale elements and throwing queries included, the walk from generation g finds content iff some generation k < 5 - g up the parent chain is readable content, and every generation before k was read without an exception, is not content and has a readable parent |
| `Classifier.FailureOnChainMeansNoContent` | main.py:36-68 | if the walk passes cleanly over generations 0 to k - 1 and generation k (k < 5) is stale or a query on it throws before content is recognised, the classifier answers false |
| `Classifier.FaultsNeverInventContent` | main.py:36-68 | a snapshot with extra exceptions or stale elements finds content only where the snapshot without them finds the same content at the same generation |
| `Classifier.NameIsOnlyLogged` | main.py:43-48 | snapshots that differ only in element names give the same walk result |
| `Dispatch.ProcessDoubleClick` | main.py:70-89 | a Content or Blank verdict is only ever reached for an element inside a `CabinetWClass` window; the verdict is Failed iff hit-testing throws or finds nothing, or the top-level lookup or the class read throws |
| `Dispatch.KeySentIff` | main.py:70-89 | the key is sent iff hit-testing found an element, its top-level window exists with class `CabinetWClass`, and the classifier answers false |
| `Dispatch.NeverSentOutsideTarget` | main.py:72-77 | a hit element outside a File Explorer window never leads to the key being sent |
| `Dispatch.ClassifierFailureSendsKey` | main.py:65-86 | inside a File Explorer window, an exception at any of generations 0-4 before content is found sends the key. The exception can be a stale element or a throwing type-name, name, pattern or parent read |
| `Dispatch.FaultFreeKeySentIff` | main.py:75-86 | on a snapshot where no query throws, a click inside a File Explorer window sends the key iff none of generations 0-4 looks like content |
| `Dispatch.FaultsNeverInventContentVerdict` | main.py:81-86 | extra exceptions in the element tree never produce a Content verdict that the tree without them would not give |
| `Dispatch.ExplorerScenario` | main.py:70-86 | a double-click on a selectable list item is Content and sends nothing; one on the list's background pane is Blank and sends the key |
| `Dispatch.ServeOnce` | main.py:101-106 | one worker turn takes the oldest queued double-click and processes it, in FIFO order; an empty queue changes nothing |

## Left out

- The global mouse listener (`mouse.Listener`) is left out. `OnClick` is called with the notification's fields.
- The clock is left out. The time of a press is a parameter of `OnClick`, in integer milliseconds rather than floating-point seconds.
- The initial `last_click_time` of 0 is kept. In the model a first press at a time below 250 counts as a double-click. With the real wall clock such a time never occurs. The model does not exclude it.
- Foreign UI Automation calls (`ControlFromPoint`, `GetTopLevelControl`, `GetParentControl`, `GetPattern`, `ControlTypeName`, `Name`, `ClassName`) are modelled only as their answers in a `Desktop` / `Snapshot` value, including the case where they throw. A point with no element under it is a point missing from `hitTest`.
- `keyboard.send('alt+up')` is modelled only as the `Blank` verdict. A failure of the send itself is not modelled.
- The two threads and `main()` are left out. That covers the listener thread, the blocking `get(timeout=0.1)` loop and the `KeyboardInterrupt` shutdown. The queue is modelled as a sequential FIFO, and the worker loop as its single turn `ServeOnce`.
- `DEBUG_MODE` and all printing are left out; they only log.
- A `print` that itself raises is not modelled. That can happen when the output stream cannot encode the text. At main.py:48 the effect would equal the Name read throwing: the classifier answers false and the key is sent, so the Name's text could then matter. At main.py:66 and main.py:79 the effect would equal a `Failed` verdict: the exception is caught at main.py:88 and nothing is sent.
