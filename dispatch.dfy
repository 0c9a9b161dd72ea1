/**
 * The worker side: for one double-click, decide whether the "go to parent
 * folder" key (Alt+Up) is sent, and take double-clicks off the queue one at
 * a time in the order they were put there.
 */
module Dispatch {
  import opened Platform
  import opened Classifier
  import opened Monitor

  /** The window class of a File Explorer window. */
  const TargetWindowClass: string := "CabinetWClass"

  /**
   * The desktop as seen while one double-click is processed: what hit-testing
   * answers at each point (a point not in `hitTest` has no element under it)
   * and the element tree.
   */
  datatype Desktop = Desktop(hitTest: map<Point, Query<Handle>>, tree: Snapshot)

  /** How processing one double-click ended. */
  datatype Verdict =
    | NotTargetWindow  // no top-level window, or not a File Explorer window
    | Content          // the classifier found content under the cursor
    | Blank            // blank space in File Explorer: the key is sent
    | Failed           // hit-testing or the top-level lookup threw

  /** The only verdict on which the key is sent. */
  predicate SendsKey(v: Verdict) {
    v == Blank
  }

  /**
   * `process_double_click`. Hit-testing at `p` and the top-level lookup of
   * the hit element may throw; so may reading the window's class. A point
   * with no element under it leads to a lookup on nothing, which throws too.
   * The classifier swallows its own exceptions and answers false.
   */
  function ProcessDoubleClick(d: Desktop, p: Point): (v: Verdict)
    ensures v.Content? || v.Blank? ==> p in d.hitTest && d.hitTest[p].Ok? && InTargetWindow(d.tree, d.hitTest[p].value)
    ensures v.Failed? <==> !(p in d.hitTest && d.hitTest[p].Ok? && TopLevelReadable(d.tree, d.hitTest[p].value))
  {
    if p !in d.hitTest || d.hitTest[p].Raises? then Failed
    else
      var h := d.hitTest[p].value;
      if h !in d.tree.elements then Failed
      else
        var top := d.tree.elements[h].topLevel;
        if top.Raises? then Failed
        else if top.value.None? then NotTargetWindow
        else if top.value.value.className.Raises? then Failed
        else if top.value.value.className.value != TargetWindowClass then NotTargetWindow
        else if FindsContent(d.tree, Some(h)) then Content
        else Blank
  }

  /** The hit element at `p`, when hit-testing succeeded and found one. */
  predicate HitsElement(d: Desktop, p: Point, h: Handle) {
    p in d.hitTest && d.hitTest[p] == Ok(h)
  }

  /** The top-level lookup of `h` succeeds, and so does reading the window's class when there is a window. */
  predicate TopLevelReadable(s: Snapshot, h: Handle) {
    && h in s.elements
    && s.elements[h].topLevel.Ok?
    && (s.elements[h].topLevel.value.Some? ==> s.elements[h].topLevel.value.value.className.Ok?)
  }

  /** The element `h` is inside a File Explorer window, as far as the platform can tell. */
  predicate InTargetWindow(s: Snapshot, h: Handle) {
    && h in s.elements
    && s.elements[h].topLevel.Ok?
    && s.elements[h].topLevel.value.Some?
    && s.elements[h].topLevel.value.value.className == Ok(TargetWindowClass)
  }

  /**
   * The key is sent exactly when hit-testing found an element, that element's
   * top-level window exists and is a File Explorer window, and the classifier
   * answers false.
   */
  lemma KeySentIff(d: Desktop, p: Point)
    ensures SendsKey(ProcessDoubleClick(d, p)) <==>
              exists h :: HitsElement(d, p, h) && InTargetWindow(d.tree, h) && !FindsContent(d.tree, Some(h))
  {
    if SendsKey(ProcessDoubleClick(d, p)) {
      assert HitsElement(d, p, d.hitTest[p].value);
    }
  }

  /** Outside a File Explorer window nothing is ever sent, whatever lies under the cursor. */
  lemma NeverSentOutsideTarget(d: Desktop, p: Point, h: Handle)
    requires HitsElement(d, p, h) && !InTargetWindow(d.tree, h)
    ensures !SendsKey(ProcessDoubleClick(d, p))
  {
  }

  /**
   * The asymmetry of error handling: inside a File Explorer window, an
   * exception anywhere in the classifier's walk before content is found (a
   * stale element, or a type name, name, pattern or parent read that throws,
   * at any of generations 0-4) makes the classifier answer false, so the key
   * is sent.
   */
  lemma ClassifierFailureSendsKey(d: Desktop, p: Point, h: Handle, k: nat)
    requires HitsElement(d, p, h) && InTargetWindow(d.tree, h)
    requires k < MaxGenerations
    requires forall j :: 0 <= j < k ==> PassesOver(d.tree, Ancestor(d.tree, Some(h), j))
    requires FailsOn(d.tree, Ancestor(d.tree, Some(h), k))
    ensures SendsKey(ProcessDoubleClick(d, p))
  {
    FailureOnChainMeansNoContent(d.tree, Some(h), k);
  }

  /**
   * On a desktop where no element query throws, a double-click inside a File
   * Explorer window sends the key iff neither the hit element nor any of its
   * four nearest ancestors looks like content.
   */
  lemma FaultFreeKeySentIff(d: Desktop, p: Point, h: Handle)
    requires FaultFree(d.tree) && HitsElement(d, p, h) && InTargetWindow(d.tree, h)
    ensures SendsKey(ProcessDoubleClick(d, p)) <==>
              forall k :: 0 <= k < MaxGenerations ==> !IsContentHandle(d.tree, Ancestor(d.tree, Some(h), k))
  {
    FindsContentIffContentAncestor(d.tree, h);
  }

  /**
   * Failures inside the element tree never produce a Content verdict that the
   * same desktop without them would not give. (They can still turn Blank
   * into Failed, when the hit element goes stale or its top-level lookup
   * throws.)
   */
  lemma FaultsNeverInventContentVerdict(worse: Desktop, d: Desktop, p: Point)
    requires worse.hitTest == d.hitTest && MoreFaulty(worse.tree, d.tree)
    ensures ProcessDoubleClick(worse, p) == Content ==> ProcessDoubleClick(d, p) == Content
  {
    if ProcessDoubleClick(worse, p) == Content {
      var h := worse.hitTest[p].value;
      FaultsNeverInventContent(worse.tree, d.tree, Some(h), 0);
    }
  }

  /**
   * Two double-clicks in one File Explorer window: one on a file row
   * (a ListItem supporting the selection-item pattern) is content and sends
   * nothing; one on the list's background pane, whose ancestors up to the
   * root are neither selectable nor of a content type, is blank and sends the key.
   */
  lemma ExplorerScenario(onRow: Point, onPane: Point)
    requires onRow != onPane
    ensures var explorer := Ok(Some(Window(Ok(TargetWindowClass))));
            var tree := Snapshot(map[
              1 := Element(Ok("ListItem"), Ok("Local Disk (D:)"), Ok({SelectionItemPatternId}), Ok(Some(2)), explorer),
              2 := Element(Ok("List"), Ok("Items View"), Ok({}), Ok(Some(3)), explorer),
              3 := Element(Ok("Pane"), Ok("Shell Folder View"), Ok({}), Ok(None), explorer)]);
            var d := Desktop(map[onRow := Ok(1), onPane := Ok(2)], tree);
            && ProcessDoubleClick(d, onRow) == Content
            && ProcessDoubleClick(d, onPane) == Blank
  {
    var explorer := Ok(Some(Window(Ok(TargetWindowClass))));
    var pane := Element(Ok("Pane"), Ok("Shell Folder View"), Ok({}), Ok(None), explorer);
    var list := Element(Ok("List"), Ok("Items View"), Ok({}), Ok(Some(3)), explorer);
    var tree := Snapshot(map[
      1 := Element(Ok("ListItem"), Ok("Local Disk (D:)"), Ok({SelectionItemPatternId}), Ok(Some(2)), explorer),
      2 := list,
      3 := pane]);
    assert !LooksLikeContent(list) && !LooksLikeContent(pane);
    assert Walk(tree, Some(3), 1) == Walk(tree, None, 2) == ReachedRoot(2);
    assert Walk(tree, Some(2), 0) == Walk(tree, Some(3), 1);
  }

  /**
   * One turn of the worker loop: take the oldest double-click, if any, and
   * process it. An empty queue is the timed-out get: nothing happens.
   */
  method ServeOnce(actions: ActionQueue, d: Desktop) returns (handled: Option<Verdict>)
    modifies actions
    ensures old(actions.items) == [] ==> handled == None && actions.items == []
    ensures old(actions.items) != [] ==>
              && handled == Some(ProcessDoubleClick(d, old(actions.items)[0]))
              && actions.items == old(actions.items)[1..]
  {
    var next := actions.Get();
    if next.None? {
      handled := None;
    } else {
      handled := Some(ProcessDoubleClick(d, next.value));
    }
  }
}
