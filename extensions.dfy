/**
 * CodeMirror extensions and the structural equality that
 * `useSyncExtensions` uses to decide whether a compartment is stale.
 */
module Extensions {

  /**
   * An `Extension` is either an array of extensions (a group) or some
   * other object (a leaf), which is known only by its identity.
   */
  datatype Extension = Leaf(id: nat) | Group(children: seq<Extension>)

  /** `isExtensionArray`: `Array.isArray` on an extension; whatever is not an array is a leaf. */
  predicate IsExtensionArray(e: Extension): (r: bool)
    ensures r <==> !e.Leaf?
  {
    e.Group?
  }

  /**
   * `extensionIsEqual`: a group equals only a group of the same length
   * whose children are equal index by index; a leaf equals only the
   * very same object. Because a leaf's identity is its `id` and a group
   * is its sequence of children, this is exactly equality of values:
   * reflexive, symmetric, and false across a leaf and a group.
   */
  function ExtensionIsEqual(a: Extension, b: Extension): (r: bool)
    ensures r <==> a == b
    decreases a
  {
    if IsExtensionArray(a) then
      IsExtensionArray(b)
      && |a.children| == |b.children|
      && forall i :: 0 <= i < |a.children| ==> ExtensionIsEqual(a.children[i], b.children[i])
    else
      a == b
  }
}
