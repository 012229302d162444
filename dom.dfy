/** The library's view of a parsed page and of the objects it references.
    A page is the sequence of its elements in document order; an object that
    stands for an element refers to it by position, so that rewriting the
    element through one object is seen by every other object that shares it
    (the library keeps reference-counted DOM handles for the same reason). */
module Dom {
  import opened Base
  import opened Strings

  /** The object types of the library, each with its own padding rule. */
  datatype ObjectKind = FakeIMG | HTML | CSS | IMG | JS | CssImg | Unknown

  /** An element: its lower-case tag name, its attributes, and the text of
      its last child when that child is a text node (None when the element
      has no children or the last one is not text). */
  datatype Element = Element(tag: string, attrs: map<string, string>, lastText: Option<string>)

  type Document = seq<Element>

  /** The page-object record: kind, cached body, element it stands for,
      size to pad it to, and its path as written in the page. */
  datatype Object = Object(
    kind: ObjectKind,
    content: seq<byte>,
    node: Option<nat>,
    targetSize: Option<nat>,
    uri: string)

  /** Cached bodies of the page's objects, by request path. */
  type Cache = map<string, seq<byte>>

  /** A real object of the page, not yet given a target size. */
  function Existing(content: seq<byte>, kind: ObjectKind, uri: string, node: nat): (o: Object)
    ensures o.node == Some(node) && o.targetSize.None?
    ensures o.content == content && o.kind == kind && o.uri == uri
  {
    Object(kind, content, Some(node), None, uri)
  }

  /** A padding image that has no element yet and no content of its own. */
  function FakeImage(targetSize: nat): (o: Object)
    ensures o.kind == FakeIMG && o.content == [] && o.node.None?
    ensures o.targetSize == Some(targetSize) && o.uri == "pad_object"
  {
    Object(FakeIMG, [], None, Some(targetSize), "pad_object")
  }

  /** Every object that stands for an element stands for one of `doc`. */
  predicate NodesIn(doc: Document, objects: seq<Object>) {
    forall k :: 0 <= k < |objects| && objects[k].node.Some? ==> objects[k].node.value < |doc|
  }

  function GetAttribute(e: Element, name: string): Option<string> {
    if name in e.attrs then Some(e.attrs[name]) else None
  }

  /** `node_set_attribute`: add the attribute or overwrite its value. */
  function SetAttribute(doc: Document, i: nat, name: string, value: string): (d: Document)
    requires i < |doc|
    ensures |d| == |doc| && d[i].tag == doc[i].tag
    ensures GetAttribute(d[i], name) == Some(value)
    ensures forall j :: 0 <= j < |doc| && j != i ==> d[j] == doc[j]
  {
    doc[i := doc[i].(attrs := doc[i].attrs[name := value])]
  }

  /** Overwrite the text of the last child of element `i`. */
  function SetLastText(doc: Document, i: nat, text: string): (d: Document)
    requires i < |doc|
    ensures |d| == |doc| && d[i].tag == doc[i].tag && d[i].lastText == Some(text)
    ensures forall j :: 0 <= j < |doc| && j != i ==> d[j] == doc[j]
  {
    doc[i := doc[i].(lastText := Some(text))]
  }

  /** The attribute filter every reference walk applies: a present,
      non-empty value that is not a `data:` URI. */
  function AcceptPath(attr: Option<string>): (r: Option<string>)
    ensures r.Some? <==> attr.Some? && attr.value != "" && !StartsWith(attr.value, "data:")
    ensures r.Some? ==> r == attr
  {
    match attr
    case Some(p) => if p != "" && !StartsWith(p, "data:") then Some(p) else None
    case None => None
  }

  /** The element `insert_empty_favicon` adds, so that the browser does not
      fetch a favicon the padding did not account for. */
  const EMPTY_FAVICON: Element := Element("link", map["href" := "data:,", "rel" := "shortcut icon"], None)

  /** `insert_empty_favicon`. The link goes at the end of `<head>`; the model
      places it at the end of the element sequence. */
  function InsertEmptyFavicon(doc: Document): (d: Document)
    ensures |d| == |doc| + 1 && d[..|doc|] == doc && d[|doc|] == EMPTY_FAVICON
  {
    doc + [EMPTY_FAVICON]
  }

  /** `get_map_element`: the cached body under `key`. C's `map_get` returns
      NULL for a missing key and the library dereferences it; the model
      reports that as a panic. */
  function GetMapElement(cache: Cache, key: string): (r: Outcome<seq<byte>>)
    ensures r.Ok? <==> key in cache
    ensures r.Ok? ==> r.value == cache[key]
    ensures !r.Err?
  {
    if key in cache then Ok(cache[key]) else Panic("map_get returned NULL")
  }
}
