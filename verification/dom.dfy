/**
  An abstract, immutable view of the part of the page's document tree the
  booster looks at: elements with a tag name, their element children in
  document order and an optional attached shadow root.
 */
module Dom {
  import opened Wrappers

  /** Object identity of an element: two distinct page elements never share an id. */
  type ElemId = nat

  /** An element (node type 1). `tag` is the element's `tagName`. */
  datatype Element = Element(id: ElemId, tag: string, children: seq<Element>, shadowRoot: Option<ShadowRoot>)

  /** A shadow root is a document fragment (node type 11), not an element. */
  datatype ShadowRoot = ShadowRoot(children: seq<Element>)

  /**
    The page at one instant, as far as the scan reads it: the current element
    children of every element, looked up by identity. The host page may have
    added or removed children since any earlier instant.
   */
  type LiveChildren = ElemId -> seq<Element>

}
