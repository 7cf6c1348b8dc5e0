/**
 * The editing engine's and the DOM's values, as this library sees them:
 * opaque objects compared by identity. A number stands for the identity
 * of one object, so two values are `==` exactly when they are the same
 * object (`===` in the source).
 */
module Engine {

  /** An immutable `EditorState` snapshot, known only by its identity. */
  datatype EditorState = EditorState(id: nat)

  /** The module-level `EMPTY_STATE = EditorState.create()`. */
  const EmptyState: EditorState := EditorState(0)

  /** A `Transaction`: its own identity and the state it produces. */
  datatype Transaction = Transaction(id: nat, state: EditorState)

  /** A DOM element (the `HTMLDivElement` the view is mounted in). */
  datatype Element = Element(id: nat)
}
