/**
 * The platform side of the double-click helper, reduced to values.
 *
 * The program queries the desktop's accessibility layer (hit testing, parent
 * navigation, pattern support, type names, window classes). Any of those
 * queries can throw. Here the desktop is a finite snapshot taken for one
 * event, and every query result is a `Query<T>`: either the value the
 * platform returned or `Raises`, the query threw.
 */
module Platform {

  datatype Option<+T> = None | Some(value: T)

  /** The result of one platform query: a value, or an exception. */
  datatype Query<+T> = Ok(value: T) | Raises

  /** A screen coordinate, as the mouse hook reports it. */
  datatype Point = Point(x: int, y: int)

  /** An opaque reference to a UI element of the snapshot. */
  type Handle = nat

  /** A top-level window; only its window class is ever looked at. */
  datatype Window = Window(className: Query<string>)

  /**
   * What the platform answers about one element:
   * ControlTypeName, Name, the set of supported pattern ids (GetPattern),
   * GetParentControl (None at the root) and GetTopLevelControl.
   */
  datatype Element = Element(
    controlTypeName: Query<string>,
    name: Query<string>,
    patterns: Query<set<int>>,
    parent: Query<Option<Handle>>,
    topLevel: Query<Option<Window>>)

  /**
   * The element tree as seen during one classification pass. A handle that is
   * not a key of `elements` is stale: every query on it throws.
   */
  datatype Snapshot = Snapshot(elements: map<Handle, Element>)
}
