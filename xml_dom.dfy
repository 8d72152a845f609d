/**
 * The XML document tree (QDomDocument / QDomElement / QDomNode) as an immutable
 * value, with the few DOM accessors the converters rely on.
 */
module XmlDom {
  import opened Wrappers

  /** One attribute of an element. */
  datatype Attribute = Attribute(name: string, value: string)

  /**
   * A DOM node. `Text` stands for text and CDATA nodes alike; `Other` for every
   * kind the converters never inspect (comments, entity references, ...).
   * An element's attribute map is given as a sequence in the map's own order.
   */
  datatype XmlNode =
    | Element(tag: string, attrs: seq<Attribute>, children: seq<XmlNode>)
    | Text(data: string)
    | ProcessingInstruction(target: string, data: string)
    | Other

  /** A document: its top-level nodes in document order. */
  datatype XmlDocument = XmlDocument(children: seq<XmlNode>)

  /**
   * A null `QDomElement` answers every accessor the converters use like an
   * element with an empty tag name, no attributes and no children.
   */
  const NullElement: XmlNode := Element("", [], [])

  /** `QDomNode::firstChild()` of a document: None for an empty document. */
  function FirstChild(doc: XmlDocument): (r: Option<XmlNode>)
    ensures r.Some? <==> doc.children != []
    ensures r.Some? ==> r.value == doc.children[0]
  {
    if doc.children == [] then None else Some(doc.children[0])
  }

  /** `QDomDocument::documentElement()`: the first top-level element, if any. */
  function DocumentElement(doc: XmlDocument): (r: Option<XmlNode>)
    ensures r.Some? ==> r.value.Element? && r.value in doc.children
    ensures r.None? <==> forall i :: 0 <= i < |doc.children| ==> !doc.children[i].Element?
    ensures r.Some? ==> exists i :: 0 <= i < |doc.children| && doc.children[i] == r.value &&
                                    forall j :: 0 <= j < i ==> !doc.children[j].Element?
    decreases |doc.children|
  {
    if doc.children == [] then None
    else if doc.children[0].Element? then Some(doc.children[0])
    else
      var r := DocumentElement(XmlDocument(doc.children[1..]));
      assert r.Some? ==> exists i :: 1 <= i < |doc.children| && doc.children[i] == r.value &&
                                     forall j :: 0 <= j < i ==> !doc.children[j].Element? by {
        if r.Some? {
          var k :| 0 <= k < |doc.children[1..]| && doc.children[1..][k] == r.value &&
                   forall j :: 0 <= j < k ==> !doc.children[1..][j].Element?;
          assert doc.children[k + 1] == r.value;
        }
      }
      r
  }

  /** The document element, or a null element when the document has none. */
  function RootOf(doc: XmlDocument): (r: XmlNode)
    ensures r.Element?
    ensures DocumentElement(doc).Some? ==> r == DocumentElement(doc).value
    ensures DocumentElement(doc).None? ==> r == NullElement
  {
    DocumentElement(doc).GetOr(NullElement)
  }

  /** True when the node is an element whose first child is itself an element. */
  predicate FirstChildIsElement(n: XmlNode) {
    n.Element? && |n.children| > 0 && n.children[0].Element?
  }

  /**
   * `QDomElement::text()`: the concatenation, in document order, of all text
   * (and CDATA) nodes below the element; other markup contributes nothing.
   */
  function TextContent(n: XmlNode): string
    decreases n, 1
  {
    match n
    case Text(s) => s
    case Element(_, _, children) => TextContentAll(children)
    case _ => ""
  }

  function TextContentAll(ns: seq<XmlNode>): string
    decreases ns, 0
  {
    if ns == [] then "" else TextContent(ns[0]) + TextContentAll(ns[1..])
  }

  /** True when no two attributes share a name, as in a DOM attribute map. */
  predicate UniqueNames(attrs: seq<Attribute>) {
    forall i, j :: 0 <= i < j < |attrs| ==> attrs[i].name != attrs[j].name
  }

  /** True when every element in the tree has an attribute map with unique names. */
  predicate WellFormed(n: XmlNode) {
    n.Element? ==> UniqueNames(n.attrs) && forall i :: 0 <= i < |n.children| ==> WellFormed(n.children[i])
  }

  /**
   * `QDomElement::attributeNode(name)`: the attribute of that name (the first
   * one, should the sequence repeat a name), or None for a null attribute.
   */
  function AttributeNode(attrs: seq<Attribute>, name: string): (r: Option<Attribute>)
    ensures r.Some? ==> r.value in attrs && r.value.name == name
    ensures r.None? <==> forall i :: 0 <= i < |attrs| ==> attrs[i].name != name
  {
    if attrs == [] then None
    else if attrs[0].name == name then Some(attrs[0])
    else AttributeNode(attrs[1..], name)
  }

  /** In a map with unique names, the attribute found by name is the one at its index. */
  lemma AttributeNodeAt(attrs: seq<Attribute>, i: nat)
    requires UniqueNames(attrs) && i < |attrs|
    ensures AttributeNode(attrs, attrs[i].name) == Some(attrs[i])
  {
  }

  /**
   * `QDomElement::setAttribute(name, value)`: overwrite the value of the
   * attribute of that name where it stands, or add the attribute at the end.
   */
  function SetAttribute(attrs: seq<Attribute>, name: string, value: string): (r: seq<Attribute>)
    ensures AttributeNode(attrs, name).None? ==> r == attrs + [Attribute(name, value)]
    ensures AttributeNode(attrs, name).Some? ==> |r| == |attrs|
  {
    if attrs == [] then [Attribute(name, value)]
    else if attrs[0].name == name then [Attribute(name, value)] + attrs[1..]
    else [attrs[0]] + SetAttribute(attrs[1..], name, value)
  }

  /** After `setAttribute(name, value)` the attribute found by that name carries the new value. */
  lemma {:induction false} SetAttributeFinds(attrs: seq<Attribute>, name: string, value: string)
    ensures AttributeNode(SetAttribute(attrs, name, value), name) == Some(Attribute(name, value))
  {
    if attrs != [] && attrs[0].name != name {
      SetAttributeFinds(attrs[1..], name, value);
      assert SetAttribute(attrs, name, value)[1..] == SetAttribute(attrs[1..], name, value);
    }
  }

  /** Setting one attribute leaves the lookup of every other name as it was. */
  lemma {:induction false} SetAttributeKeepsOthers(attrs: seq<Attribute>, name: string, value: string, other: string)
    requires other != name
    ensures AttributeNode(SetAttribute(attrs, name, value), other) == AttributeNode(attrs, other)
  {
    if attrs != [] && attrs[0].name != name {
      SetAttributeKeepsOthers(attrs[1..], name, value, other);
    }
  }

  /** Setting an attribute never introduces a second attribute of the same name. */
  lemma SetAttributeKeepsUnique(attrs: seq<Attribute>, name: string, value: string)
    requires UniqueNames(attrs)
    ensures UniqueNames(SetAttribute(attrs, name, value))
  {
    var r := SetAttribute(attrs, name, value);
    if AttributeNode(attrs, name).Some? {
      SetAttributeSameNames(attrs, name, value);
    } else {
      assert forall i :: 0 <= i < |attrs| ==> r[i] == attrs[i] && r[i].name != name;
      assert r[|attrs|].name == name;
    }
  }

  /** Overwriting an attribute that is present keeps every name in its place. */
  lemma {:induction false} SetAttributeSameNames(attrs: seq<Attribute>, name: string, value: string)
    requires AttributeNode(attrs, name).Some?
    ensures forall j :: 0 <= j < |attrs| ==> SetAttribute(attrs, name, value)[j].name == attrs[j].name
  {
    var r := SetAttribute(attrs, name, value);
    if attrs[0].name != name {
      SetAttributeSameNames(attrs[1..], name, value);
      assert forall j :: 1 <= j < |attrs| ==> r[j] == SetAttribute(attrs[1..], name, value)[j - 1];
    }
  }
}
