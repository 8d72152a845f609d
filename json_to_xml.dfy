/**
 * JsonToXml: rebuilds an XML document from an element record or a document
 * record. The specification functions below say which tree each step builds;
 * the methods build it node by node in a `DomDocument`.
 */
module JsonToXml {
  import opened Wrappers
  import opened JsonValue
  import opened XmlDom
  import opened DomStore

  /** The tag of a record: its `tag` string, or the empty name when absent or not a string. */
  function TagOf(obj: JsonObject): string {
    StringOrEmpty(Value(obj, "tag"))
  }

  /** The name an `attributes` entry sets: its `key` string, or the empty name. */
  function EntryName(v: Json): string {
    StringOrEmpty(Value(ToObject(v), "key"))
  }

  /** The value an `attributes` entry sets: its `value` string, or the empty string. */
  function EntryValue(v: Json): string {
    StringOrEmpty(Value(ToObject(v), "value"))
  }

  /** The attribute map after `setAttribute` has been applied for each entry, in array order. */
  function ApplyAttributes(attrs: seq<Attribute>, entries: seq<Json>): seq<Attribute>
    decreases |entries|
  {
    if entries == [] then attrs
    else
      var last := entries[|entries| - 1];
      XmlDom.SetAttribute(ApplyAttributes(attrs, entries[..|entries| - 1]), EntryName(last), EntryValue(last))
  }

  /** One more entry applied is one more `setAttribute` call. */
  lemma ApplyAttributesStep(attrs: seq<Attribute>, entries: seq<Json>, i: nat)
    requires i < |entries|
    ensures ApplyAttributes(attrs, entries[..i + 1]) ==
              XmlDom.SetAttribute(ApplyAttributes(attrs, entries[..i]), EntryName(entries[i]), EntryValue(entries[i]))
  {
    assert entries[..i + 1][..i] == entries[..i];
  }

  /**
   * The value of the last entry with the given name, if any: the reference
   * definition of "the last occurrence wins".
   */
  function LastValue(entries: seq<Json>, name: string): Option<string>
    decreases |entries|
  {
    if entries == [] then None
    else if EntryName(entries[|entries| - 1]) == name then Some(EntryValue(entries[|entries| - 1]))
    else LastValue(entries[..|entries| - 1], name)
  }

  /**
   * `LastValue` finds a value exactly when some entry has the name, and then the
   * value of an entry with that name that no later entry repeats.
   */
  lemma {:induction false} LastValueIsLast(entries: seq<Json>, name: string)
    ensures LastValue(entries, name).None? <==> forall j :: 0 <= j < |entries| ==> EntryName(entries[j]) != name
    ensures LastValue(entries, name).Some? ==>
              exists j :: 0 <= j < |entries| && EntryName(entries[j]) == name &&
                          EntryValue(entries[j]) == LastValue(entries, name).value &&
                          forall k :: j < k < |entries| ==> EntryName(entries[k]) != name
    decreases |entries|
  {
    if entries != [] {
      var n := |entries| - 1;
      if EntryName(entries[n]) != name {
        var prefix := entries[..n];
        LastValueIsLast(prefix, name);
        assert forall j :: 0 <= j < n ==> prefix[j] == entries[j];
        if LastValue(entries, name).Some? {
          var j :| 0 <= j < n && EntryName(prefix[j]) == name &&
                   EntryValue(prefix[j]) == LastValue(prefix, name).value &&
                   forall k :: j < k < n ==> EntryName(prefix[k]) != name;
          assert forall k :: j < k < |entries| ==> EntryName(entries[k]) != name;
        }
      }
    }
  }

  /**
   * Attributes are applied in array order, so each name ends up with the value of
   * its last occurrence; names that no entry sets keep their earlier value.
   */
  lemma {:induction false} ApplyAttributesLastWins(attrs: seq<Attribute>, entries: seq<Json>, name: string)
    ensures AttributeNode(ApplyAttributes(attrs, entries), name) ==
              match LastValue(entries, name)
              case Some(v) => Some(Attribute(name, v))
              case None => AttributeNode(attrs, name)
    decreases |entries|
  {
    if entries != [] {
      var n := |entries| - 1;
      ApplyAttributesLastWins(attrs, entries[..n], name);
      if EntryName(entries[n]) == name {
        XmlDom.SetAttributeFinds(ApplyAttributes(attrs, entries[..n]), name, EntryValue(entries[n]));
      } else {
        XmlDom.SetAttributeKeepsOthers(ApplyAttributes(attrs, entries[..n]), EntryName(entries[n]), EntryValue(entries[n]), name);
      }
    }
  }

  /** The text child `addElement` adds: one exactly when `text` is a string, even an empty one. */
  function TextChildren(obj: JsonObject): (r: seq<XmlNode>)
    ensures |r| <= 1
    ensures r != [] <==> Value(obj, "text").JString?
    ensures r != [] ==> r[0] == Text(Value(obj, "text").s)
  {
    match ToString(Value(obj, "text"))
    case Some(t) => [Text(t)]
    case None => []
  }

  /** The element `addElement` creates, before `addElements` adds its descendants. */
  function BuiltLeaf(obj: JsonObject): XmlNode {
    Element(TagOf(obj), ApplyAttributes([], ToArray(Value(obj, "attributes"))), TextChildren(obj))
  }

  /** The `elements` entries of the record read from `v`. */
  function Entries(v: Json): seq<Json> {
    ToArray(Value(ToObject(v), "elements"))
  }

  /**
   * The element built from the record read from `v`: the element `addElement`
   * creates, followed by one child per `elements` entry.
   */
  function BuiltElement(v: Json): XmlNode
    decreases v, |Entries(v)| + 1
  {
    var obj := ToObject(v);
    Element(TagOf(obj), ApplyAttributes([], ToArray(Value(obj, "attributes"))),
            TextChildren(obj) + BuiltChildren(v, |Entries(v)|))
  }

  /** The elements built from the first `k` entries of `v`'s `elements`, one per entry, in order. */
  function BuiltChildren(v: Json, k: nat): (r: seq<XmlNode>)
    requires k <= |Entries(v)|
    decreases v, k
    ensures |r| == k
    ensures forall j :: 0 <= j < k ==> r[j] == BuiltElement(Entries(v)[j])
  {
    if k == 0 then []
    else BuiltChildren(v, k - 1) + [BuiltElement(Entries(v)[k - 1])]
  }


  /** One more entry adds one more built element at the end. */
  lemma BuiltChildrenStep(v: Json, i: nat)
    requires i < |Entries(v)|
    ensures BuiltChildren(v, i + 1) == BuiltChildren(v, i) + [BuiltElement(Entries(v)[i])]
  {
  }

  /** A record is treated as a document exactly when it has both `root` and `instruction`. */
  predicate IsDocument(obj: JsonObject) {
    "root" in obj && "instruction" in obj
  }

  /** The processing instruction built from an `instruction` record, empty strings included. */
  function Instruction(instr: JsonObject): XmlNode {
    ProcessingInstruction(StringOrEmpty(Value(instr, "target")), StringOrEmpty(Value(instr, "data")))
  }

  /**
   * The document `convert` builds: for a document record a processing instruction
   * and then the root element built from `root`; for any other object just the
   * root element built from the object itself.
   */
  function ConvertSpec(obj: JsonObject): (r: XmlDocument)
    ensures |r.children| == if IsDocument(obj) then 2 else 1
    ensures r.children[|r.children| - 1].Element?
    ensures r.children[0].ProcessingInstruction? <==> IsDocument(obj)
  {
    if IsDocument(obj) then
      XmlDocument([Instruction(ToObject(Value(obj, "instruction"))), BuiltElement(Value(obj, "root"))])
    else
      XmlDocument([BuiltElement(JObject(obj))])
  }

  /**
   * `JsonToXml::addElement`: appends one new element, with its optional text
   * child and its attributes, as the last child of `node`.
   */
  method AddElement(doc: DomDocument, node: nat, obj: JsonObject) returns (el: nat)
    requires doc.Valid() && node < |doc.nodes| && IsContainer(doc.nodes[node].payload)
    modifies doc
    ensures doc.Valid()
    ensures el == old(|doc.nodes|) < |doc.nodes|
    ensures forall i :: 0 <= i < old(|doc.nodes|) && i != node ==> doc.nodes[i] == old(doc.nodes[i])
    ensures doc.nodes[node] == StoreNode(old(doc.nodes[node].payload), old(doc.nodes[node].kids) + [el])
    ensures doc.nodes[el].payload == ElementNode(TagOf(obj), ApplyAttributes([], ToArray(Value(obj, "attributes"))))
    ensures Children(doc.nodes, el) == TextChildren(obj)
    ensures TreeAt(doc.nodes, el) == BuiltLeaf(obj)
    ensures Children(doc.nodes, node) == Children(old(doc.nodes), node) + [BuiltLeaf(obj)]
  {
    var tag := StringOrEmpty(Value(obj, "tag"));
    var text := ToString(Value(obj, "text"));
    var attributes := ToArray(Value(obj, "attributes"));

    el := doc.AppendChild(node, ElementNode(tag, []));
    if text.Some? {
      var txt := doc.AppendChild(el, TextNode(text.value));
    }

    SetAttributes(doc, el, attributes);
    if text.Some? {
      TextLeafTree(doc.nodes, el, text.value);
    } else {
      EmptyLeafTree(doc.nodes, el);
    }
    ChildrenAppend(old(doc.nodes), doc.nodes, node, el);
  }

  /**
   * The attribute loop of `addElement`: `setAttribute` for each entry of the
   * `attributes` array, in array order.
   */
  method SetAttributes(doc: DomDocument, el: nat, attributes: seq<Json>)
    requires doc.Valid() && el < |doc.nodes| && doc.nodes[el].payload.ElementNode?
    modifies doc
    ensures doc.Valid()
    ensures doc.nodes == old(doc.nodes)[el := StoreNode(ElementNode(old(doc.nodes[el].payload.tag),
              ApplyAttributes(old(doc.nodes[el].payload.attrs), attributes)), old(doc.nodes[el].kids))]
  {
    ghost var s0 := doc.nodes;
    ghost var tag := s0[el].payload.tag;
    ghost var a0 := s0[el].payload.attrs;
    ghost var kids := s0[el].kids;
    var i := 0;
    while i < |attributes|
      invariant 0 <= i <= |attributes|
      invariant doc.nodes == s0[el := StoreNode(ElementNode(tag, ApplyAttributes(a0, attributes[..i])), kids)]
    {
      var attr := ToObject(attributes[i]);
      var name := StringOrEmpty(Value(attr, "key"));
      var value := StringOrEmpty(Value(attr, "value"));
      doc.SetAttribute(el, name, value);
      ApplyAttributesStep(a0, attributes, i);
      i := i + 1;
    }
    assert attributes[..i] == attributes;
  }

  /**
   * `JsonToXml::addElements`: for each `elements` entry in order, appends its
   * element under `node` and then, depth first, that element's descendants.
   * Nothing outside `node`'s subtree changes. `source` is the JSON value `obj` was
   * read from; it serves only as the termination measure.
   */
  method AddElements(doc: DomDocument, node: nat, obj: JsonObject, ghost source: Json)
    requires doc.Valid() && node < |doc.nodes| && IsContainer(doc.nodes[node].payload)
    requires obj == ToObject(source)
    modifies doc
    decreases source, 1
    ensures doc.Valid() && GrowsAt(old(doc.nodes), doc.nodes, node)
    ensures Children(doc.nodes, node) == Children(old(doc.nodes), node) + BuiltChildren(source, |Entries(source)|)
  {
    var elements := ToArray(Value(obj, "elements"));
    ghost var s0 := doc.nodes;
    ghost var before := Children(s0, node);
    var i := 0;
    while i < |elements|
      invariant 0 <= i <= |elements|
      invariant doc.Valid() && GrowsAt(s0, doc.nodes, node)
      invariant Children(doc.nodes, node) == before + BuiltChildren(source, i)
    {
      ghost var prev := doc.nodes;
      AddElementAndDescendants(doc, node, ToObject(elements[i]), elements[i]);
      GrowsAtTrans(s0, prev, doc.nodes, node);
      BuiltChildrenStep(source, i);
      i := i + 1;
    }
  }

  /**
   * The body of the loop in `addElements` for one entry `v`: `addElement` for
   * `obj`, which is `v.toObject()`, under `node`, then `addElements` under the new element.
   */
  method AddElementAndDescendants(doc: DomDocument, node: nat, obj: JsonObject, ghost v: Json)
    requires doc.Valid() && node < |doc.nodes| && IsContainer(doc.nodes[node].payload)
    requires obj == ToObject(v)
    modifies doc
    decreases v, 2
    ensures doc.Valid() && GrowsAt(old(doc.nodes), doc.nodes, node)
    ensures Children(doc.nodes, node) == Children(old(doc.nodes), node) + [BuiltElement(v)]
  {
    ghost var prev := doc.nodes;
    var nd := AddElement(doc, node, obj);
    AddElements(doc, nd, obj, v);
    ChildrenAppend(prev, doc.nodes, node, nd);
  }

  /** `JsonToXml::addDocumentInstruction`: appends a processing instruction to the document. */
  method AddDocumentInstruction(doc: DomDocument, instr: JsonObject)
    requires doc.Valid()
    modifies doc
    ensures doc.Valid()
    ensures |doc.nodes| == old(|doc.nodes|) + 1
    ensures forall i :: 0 < i < old(|doc.nodes|) ==> doc.nodes[i] == old(doc.nodes[i])
    ensures doc.Tree() == XmlDocument(old(doc.Tree()).children + [Instruction(instr)])
  {
    var target := StringOrEmpty(Value(instr, "target"));
    var data := StringOrEmpty(Value(instr, "data"));
    var ins := doc.AppendChild(0, InstructionNode(target, data));
  }

  /**
   * `JsonToXml::convert(QJsonObject)`: a fresh document holding the instruction
   * (document records only) and the root element with all its descendants.
   */
  method Convert(jsonObj: JsonObject) returns (doc: DomDocument)
    ensures fresh(doc) && doc.Valid()
    ensures doc.Tree() == ConvertSpec(jsonObj)
  {
    doc := new DomDocument();
    var rootObj: JsonObject;
    ghost var rootSource: Json;

    var isDocument := "root" in jsonObj && "instruction" in jsonObj;
    if isDocument {
      AddDocumentInstruction(doc, ToObject(Value(jsonObj, "instruction")));
      rootObj := ToObject(Value(jsonObj, "root"));
      rootSource := Value(jsonObj, "root");
    } else {
      rootObj := jsonObj;
      rootSource := JObject(jsonObj);
    }
    // `addElement` under the document and then `addElements` under the new root
    AddElementAndDescendants(doc, 0, rootObj, rootSource);
  }
}
