/**
 * The content-versus-blank classifier: from the element under the cursor,
 * walk up at most five generations and report whether any of them is
 * "content" (a selectable item, or an element of a content type).
 */
module Classifier {
  import opened Platform

  /** The UI Automation id of SelectionItemPattern. */
  const SelectionItemPatternId: int := 10010

  /** Generations inspected: the hit element and up to four ancestors. */
  const MaxGenerations: nat := 5

  /** Type names that count as content even without the selection-item pattern. */
  const ContentTypeNames: seq<string> := ["ListItem", "TreeItem", "Image", "Text", "Edit", "Hyperlink"]

  /**
   * The two tests applied to one element, in priority order: it supports the
   * selection-item pattern, or its type name is one of the content types.
   */
  predicate LooksLikeContent(e: Element) {
    || (e.patterns.Ok? && SelectionItemPatternId in e.patterns.value)
    || (e.controlTypeName.Ok? && e.controlTypeName.value in ContentTypeNames)
  }

  /** How the walk ended, and at which generation. */
  datatype WalkEnd =
    | FoundContent(gen: nat)  // an inspected element looks like content
    | ReachedRoot(gen: nat)   // the current element is null
    | Raised(gen: nat)        // a query on the current element threw
    | Exhausted               // all generations inspected, none is content

  /**
   * The walk from `current`, which is generation `gen`. On each element the
   * type name, the name and the pattern support are read (any of them may
   * throw), the two content tests are applied, and the walk moves to the
   * parent. It never goes past generation MaxGenerations - 1.
   */
  function Walk(s: Snapshot, current: Option<Handle>, gen: nat): (r: WalkEnd)
    requires gen <= MaxGenerations
    ensures r.Exhausted? || gen <= r.gen < MaxGenerations
    decreases MaxGenerations - gen
  {
    if gen == MaxGenerations then Exhausted
    else if current.None? then ReachedRoot(gen)
    else if current.value !in s.elements then Raised(gen)
    else
      var e := s.elements[current.value];
      if e.controlTypeName.Raises? || e.name.Raises? || e.patterns.Raises? then Raised(gen)
      else if LooksLikeContent(e) then FoundContent(gen)
      else if e.parent.Raises? then Raised(gen)
      else Walk(s, e.parent.value, gen + 1)
  }

  /** The verdict of `is_drive_or_file`: true only when the walk found content. */
  predicate FindsContent(s: Snapshot, element: Option<Handle>) {
    Walk(s, element, 0).FoundContent?
  }

  /**
   * `is_drive_or_file`: the bounded ancestor walk, with its early returns.
   * A query that throws ends the walk with false.
   */
  method IsDriveOrFile(s: Snapshot, element: Option<Handle>) returns (r: bool)
    ensures r == FindsContent(s, element)
  {
    var current := element;
    for i := 0 to MaxGenerations
      invariant Walk(s, current, i) == Walk(s, element, 0)
    {
      if current.None? {
        break;
      }
      if current.value !in s.elements {
        return false;
      }
      var e := s.elements[current.value];
      if e.controlTypeName.Raises? {
        return false;
      }
      var ctype := e.controlTypeName.value;
      if e.name.Raises? {
        return false;
      }
      if e.patterns.Raises? {
        return false;
      }
      if SelectionItemPatternId in e.patterns.value {
        return true;
      }
      if ctype in ContentTypeNames {
        return true;
      }
      if e.parent.Raises? {
        return false;
      }
      current := e.parent.value;
    }
    return false;
  }

  // ---------------------------------------------------------------------
  // The walk against a reference definition: the ancestor chain.

  /** A snapshot in which no query throws and every parent is itself in the snapshot. */
  ghost predicate FaultFree(s: Snapshot) {
    forall h :: h in s.elements ==>
      var e := s.elements[h];
      && e.controlTypeName.Ok? && e.name.Ok? && e.patterns.Ok? && e.parent.Ok?
      && (e.parent.value.Some? ==> e.parent.value.value in s.elements)
  }

  /** The parent of a handle (None at the root, and for a handle whose parent cannot be read). */
  function ParentOf(s: Snapshot, h: Handle): Option<Handle> {
    if h in s.elements && s.elements[h].parent.Ok? then s.elements[h].parent.value else None
  }

  /** The k-th generation above `start` (generation 0 is `start` itself). */
  function Ancestor(s: Snapshot, start: Option<Handle>, k: nat): Option<Handle>
    decreases k
  {
    if k == 0 || start.None? then start else Ancestor(s, ParentOf(s, start.value), k - 1)
  }

  /** The element at this handle exists and looks like content. */
  predicate IsContentHandle(s: Snapshot, h: Option<Handle>) {
    h.Some? && h.value in s.elements && LooksLikeContent(s.elements[h.value])
  }

  /**
   * On a snapshot where nothing throws, the walk from generation `gen` finds
   * content iff one of the remaining MaxGenerations - gen ancestors looks like
   * content.
   */
  lemma {:induction false} WalkFindsContentIff(s: Snapshot, c: Option<Handle>, gen: nat)
    requires FaultFree(s) && gen <= MaxGenerations
    requires c.None? || c.value in s.elements
    ensures Walk(s, c, gen).FoundContent? <==>
              exists k :: 0 <= k < MaxGenerations - gen && IsContentHandle(s, Ancestor(s, c, k))
    decreases MaxGenerations - gen
  {
    if gen == MaxGenerations || c.None? {
      if c.None? {
        forall k | 0 <= k < MaxGenerations - gen ensures !IsContentHandle(s, Ancestor(s, c, k)) {
        }
      }
    } else {
      var e := s.elements[c.value];
      assert e.controlTypeName.Ok? && e.name.Ok? && e.patterns.Ok? && e.parent.Ok?;
      if LooksLikeContent(e) {
        assert Walk(s, c, gen) == FoundContent(gen);
        assert IsContentHandle(s, Ancestor(s, c, 0));
        assert exists k :: 0 <= k < MaxGenerations - gen && IsContentHandle(s, Ancestor(s, c, k));
      } else {
        var p := e.parent.value;
        assert ParentOf(s, c.value) == p;
        assert Walk(s, c, gen) == Walk(s, p, gen + 1);
        WalkFindsContentIff(s, p, gen + 1);
        assert !IsContentHandle(s, Ancestor(s, c, 0));
        forall k | 1 <= k < MaxGenerations - gen ensures Ancestor(s, c, k) == Ancestor(s, p, k - 1) {
        }
        if exists k :: 0 <= k < MaxGenerations - gen && IsContentHandle(s, Ancestor(s, c, k)) {
          var k :| 0 <= k < MaxGenerations - gen && IsContentHandle(s, Ancestor(s, c, k));
          assert IsContentHandle(s, Ancestor(s, p, k - 1));
          assert Walk(s, p, gen + 1).FoundContent?;
        }
        if Walk(s, p, gen + 1).FoundContent? {
          var k :| 0 <= k < MaxGenerations - (gen + 1) && IsContentHandle(s, Ancestor(s, p, k));
          assert Ancestor(s, c, k + 1) == Ancestor(s, p, k);
          assert IsContentHandle(s, Ancestor(s, c, k + 1));
        }
      }
    }
  }

  /**
   * On a snapshot where nothing throws, `is_drive_or_file` answers true iff
   * the hit element or one of its four nearest ancestors supports the
   * selection-item pattern or has a content type name.
   */
  lemma FindsContentIffContentAncestor(s: Snapshot, h: Handle)
    requires FaultFree(s) && h in s.elements
    ensures FindsContent(s, Some(h)) <==>
              exists k :: 0 <= k < MaxGenerations && IsContentHandle(s, Ancestor(s, Some(h), k))
  {
    WalkFindsContentIff(s, Some(h), 0);
  }

  // ---------------------------------------------------------------------
  // The walk on any snapshot, failures included.

  /** The element exists, its type name, name and pattern support can be read, and it looks like content. */
  predicate ReadableContent(s: Snapshot, h: Option<Handle>) {
    && h.Some? && h.value in s.elements
    && var e := s.elements[h.value];
       e.controlTypeName.Ok? && e.name.Ok? && e.patterns.Ok? && LooksLikeContent(e)
  }

  /** The walk passes over this element: every read succeeds, including its parent, and it is not content. */
  predicate PassesOver(s: Snapshot, h: Option<Handle>) {
    && h.Some? && h.value in s.elements
    && var e := s.elements[h.value];
       e.controlTypeName.Ok? && e.name.Ok? && e.patterns.Ok? && !LooksLikeContent(e) && e.parent.Ok?
  }

  /**
   * The walk stops on this element with an exception: the handle is stale,
   * reading its type name, name or pattern support throws, or it is not
   * content and reading its parent throws.
   */
  predicate FailsOn(s: Snapshot, h: Option<Handle>) {
    && h.Some?
    && (|| h.value !in s.elements
        || var e := s.elements[h.value];
           || e.controlTypeName.Raises? || e.name.Raises? || e.patterns.Raises?
           || (!LooksLikeContent(e) && e.parent.Raises?))
  }

  /**
   * Generation k of the chain from `c` is readable content, and the walk
   * passed cleanly over every generation before it.
   */
  predicate ContentAfterCleanChain(s: Snapshot, c: Option<Handle>, k: nat) {
    && ReadableContent(s, Ancestor(s, c, k))
    && forall j :: 0 <= j < k ==> PassesOver(s, Ancestor(s, c, j))
  }

  /**
   * On every snapshot: the walk from generation `gen` finds content iff some
   * later generation k is readable content and the walk passed cleanly over
   * every generation before it.
   */
  lemma {:induction false} WalkFindsContentIffCleanChain(s: Snapshot, c: Option<Handle>, gen: nat)
    requires gen <= MaxGenerations
    ensures Walk(s, c, gen).FoundContent? <==>
              exists k :: 0 <= k < MaxGenerations - gen && ContentAfterCleanChain(s, c, k)
    decreases MaxGenerations - gen
  {
    if gen == MaxGenerations || c.None? {
      forall k | 0 <= k < MaxGenerations - gen ensures !ContentAfterCleanChain(s, c, k) {
      }
    } else if ReadableContent(s, c) {
      assert Walk(s, c, gen) == FoundContent(gen);
      assert ContentAfterCleanChain(s, c, 0);
    } else if !PassesOver(s, c) {
      assert Walk(s, c, gen).Raised?;
      forall k | 0 <= k < MaxGenerations - gen ensures !ContentAfterCleanChain(s, c, k) {
        assert Ancestor(s, c, 0) == c;
      }
    } else {
      var p := s.elements[c.value].parent.value;
      assert ParentOf(s, c.value) == p;
      assert Walk(s, c, gen) == Walk(s, p, gen + 1);
      WalkFindsContentIffCleanChain(s, p, gen + 1);
      forall k | 1 <= k < MaxGenerations - gen ensures Ancestor(s, c, k) == Ancestor(s, p, k - 1) {
      }
      if exists k :: 0 <= k < MaxGenerations - gen && ContentAfterCleanChain(s, c, k) {
        var k :| 0 <= k < MaxGenerations - gen && ContentAfterCleanChain(s, c, k);
        assert Ancestor(s, c, 0) == c;
        assert k != 0;
        forall j | 0 <= j < k - 1 ensures PassesOver(s, Ancestor(s, p, j)) {
          assert Ancestor(s, c, j + 1) == Ancestor(s, p, j);
        }
        assert ContentAfterCleanChain(s, p, k - 1);
      }
      if Walk(s, p, gen + 1).FoundContent? {
        var k :| 0 <= k < MaxGenerations - (gen + 1) && ContentAfterCleanChain(s, p, k);
        forall j | 0 <= j < k + 1 ensures PassesOver(s, Ancestor(s, c, j)) {
          if j > 0 {
            assert Ancestor(s, c, j) == Ancestor(s, p, j - 1);
          }
        }
        assert ContentAfterCleanChain(s, c, k + 1);
      }
    }
  }

  /**
   * An exception anywhere on the chain before content is found makes
   * `is_drive_or_file` answer false: if the walk passes cleanly over
   * generations 0 to k - 1 and fails on generation k, there is no content.
   */
  lemma FailureOnChainMeansNoContent(s: Snapshot, c: Option<Handle>, k: nat)
    requires k < MaxGenerations
    requires forall j :: 0 <= j < k ==> PassesOver(s, Ancestor(s, c, j))
    requires FailsOn(s, Ancestor(s, c, k))
    ensures !FindsContent(s, c)
  {
    WalkFindsContentIffCleanChain(s, c, 0);
    assert !PassesOver(s, Ancestor(s, c, k)) && !ReadableContent(s, Ancestor(s, c, k));
    forall k' | 0 <= k' < MaxGenerations ensures !ContentAfterCleanChain(s, c, k') {
      if k' < k {
        assert PassesOver(s, Ancestor(s, c, k'));
      }
    }
  }

  // ---------------------------------------------------------------------
  // What the verdict does not depend on.

  /** `a` is `b` or a failure: a query that may additionally throw. */
  predicate DegradedQuery<T(==)>(a: Query<T>, b: Query<T>) {
    a.Raises? || a == b
  }

  predicate DegradedElement(a: Element, b: Element) {
    && DegradedQuery(a.controlTypeName, b.controlTypeName)
    && DegradedQuery(a.name, b.name)
    && DegradedQuery(a.patterns, b.patterns)
    && DegradedQuery(a.parent, b.parent)
    && DegradedQuery(a.topLevel, b.topLevel)
  }

  /** `worse` is `s` with some queries throwing and some elements gone stale. */
  ghost predicate MoreFaulty(worse: Snapshot, s: Snapshot) {
    forall h :: h in worse.elements ==> h in s.elements && DegradedElement(worse.elements[h], s.elements[h])
  }

  /**
   * Exceptions never make content appear: whatever the walk finds on a
   * snapshot with extra failures, it finds at the same generation on the
   * snapshot without them. A failure can only turn a "content" verdict
   * into false ("blank").
   */
  lemma {:induction false} FaultsNeverInventContent(worse: Snapshot, s: Snapshot, c: Option<Handle>, gen: nat)
    requires MoreFaulty(worse, s) && gen <= MaxGenerations
    ensures Walk(worse, c, gen).FoundContent? ==> Walk(s, c, gen) == Walk(worse, c, gen)
    decreases MaxGenerations - gen
  {
    if gen < MaxGenerations && c.Some? && c.value in worse.elements {
      var e := worse.elements[c.value];
      if !e.controlTypeName.Raises? && !e.name.Raises? && !e.patterns.Raises? && !LooksLikeContent(e) && e.parent.Ok? {
        FaultsNeverInventContent(worse, s, e.parent.value, gen + 1);
      }
    }
  }

  /** `s` and `t` differ at most in the text of element names (not in whether reading a name throws). */
  ghost predicate SameButNames(s: Snapshot, t: Snapshot) {
    && s.elements.Keys == t.elements.Keys
    && forall h :: h in s.elements ==>
         && s.elements[h].(name := t.elements[h].name) == t.elements[h]
         && s.elements[h].name.Ok? == t.elements[h].name.Ok?
  }

  /**
   * The Name of an element is only logged: renaming elements never changes
   * how the walk ends.
   */
  lemma {:induction false} NameIsOnlyLogged(s: Snapshot, t: Snapshot, c: Option<Handle>, gen: nat)
    requires SameButNames(s, t) && gen <= MaxGenerations
    ensures Walk(s, c, gen) == Walk(t, c, gen)
    decreases MaxGenerations - gen
  {
    if gen < MaxGenerations && c.Some? && c.value in s.elements {
      var e, f := s.elements[c.value], t.elements[c.value];
      assert e.(name := f.name) == f;
      if e.parent.Ok? {
        NameIsOnlyLogged(s, t, e.parent.value, gen + 1);
      }
    }
  }
}
