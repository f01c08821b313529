/**
 * The collaborators the filter consults while it handles parser events. Their
 * rules (whitelists, schemes, proxies, iframes, empty-tag removal) belong to
 * the Tag and Attribute classes, which are not part of this model: each
 * operation is a function value the model never looks inside.
 */
module Policies {
  import opened ByteStrings

  /** One attribute of a tag as the XML parser delivers it, in document order. */
  datatype Attr = Attr(name: Bytes, value: Bytes)

  type Attrs = seq<Attr>

  /** The operations of a `Tag` object. */
  datatype TagPolicy = TagPolicy(
    isAllowed: (Bytes, Attrs) -> bool,
    isAllowedTag: Bytes -> bool,
    openHtmlTag: (Bytes, Bytes) -> Bytes,
    closeHtmlTag: Bytes -> Bytes,
    removeBlacklistedTags: Bytes -> Bytes,
    removeEmptyTags: Bytes -> Bytes,
    removeMultipleBreakTags: Bytes -> Bytes)

  /** The operations of an `Attribute` object. */
  datatype AttributePolicy = AttributePolicy(
    filter: (Bytes, Attrs) -> Attrs,
    hasRequiredAttributes: (Bytes, Attrs) -> bool,
    addAttributes: (Bytes, Attrs) -> Attrs,
    toHtml: Attrs -> Bytes)

  /** What the three event handlers consult: the tag and attribute policies and `Filter::escape`. */
  datatype Handlers = Handlers(tag: TagPolicy, attribute: AttributePolicy, escape: Bytes -> Bytes)
}
