/**
 * XmlToJson: converts a parsed XML document into the element-record /
 * document-record JSON schema. The input tree is an immutable value, so it is
 * never changed by the conversion.
 *
 *   element record:  { tag, attributes: [{key, value}...], elements: [...], text? }
 *   document record: { instruction: {target, data}, root }
 */
module XmlToJson {
  import opened Wrappers
  import opened JsonValue
  import opened XmlDom

  /** The `{key, value}` record of one attribute. */
  function AttributeRecord(key: string, value: string): JsonObject {
    map["key" := JString(key), "value" := JString(value)]
  }

  /**
   * The record emitted for the attribute at index `i`: the attribute is looked up
   * again by its name with `attributeNode`, and a null attribute has empty name
   * and value.
   */
  function AttributeRecordAt(attrs: seq<Attribute>, i: nat): JsonObject
    requires i < |attrs|
  {
    match AttributeNode(attrs, attrs[i].name)
    case Some(a) => AttributeRecord(a.name, a.value)
    case None => AttributeRecord("", "")
  }

  /**
   * What `attributes` returns: one record per attribute, in the map's order,
   * each keyed by that attribute's name.
   */
  function AttributeRecords(attrs: seq<Attribute>): (r: seq<Json>)
    ensures |r| == |attrs|
    ensures forall i :: 0 <= i < |attrs| ==> r[i].JObject? && "key" in r[i].members && r[i].members["key"] == JString(attrs[i].name)
  {
    seq(|attrs|, i requires 0 <= i < |attrs| => JObject(AttributeRecordAt(attrs, i)))
  }

  /** With unique names (as in a DOM attribute map) record `i` is exactly attribute `i`. */
  lemma AttributeRecordsExact(attrs: seq<Attribute>)
    requires UniqueNames(attrs)
    ensures forall i :: 0 <= i < |attrs| ==>
              AttributeRecords(attrs)[i] == JObject(AttributeRecord(attrs[i].name, attrs[i].value))
  {
    forall i | 0 <= i < |attrs|
      ensures AttributeRecords(attrs)[i] == JObject(AttributeRecord(attrs[i].name, attrs[i].value))
    {
      AttributeNodeAt(attrs, i);
    }
  }

  /** `XmlToJson::attributes`: walks the attribute map by index. */
  method Attributes(e: XmlNode) returns (r: seq<Json>)
    requires e.Element?
    ensures r == AttributeRecords(e.attrs)
  {
    var attributes := e.attrs;
    r := [];
    var i := 0;
    while i < |attributes|
      invariant 0 <= i <= |attributes|
      invariant |r| == i
      invariant forall j :: 0 <= j < i ==> r[j] == JObject(AttributeRecordAt(attributes, j))
    {
      var n := attributes[i];
      var attr := AttributeNode(attributes, n.name);
      var key := if attr.Some? then attr.value.name else "";
      var value := if attr.Some? then attr.value.value else "";
      r := r + [JObject(AttributeRecord(key, value))];
      i := i + 1;
    }
  }

  /**
   * The record of a child element (the body of the loop in `elements`): tag and
   * attributes always, `text` exactly when the child's first child is not an
   * element, and the child's own `elements`.
   */
  function ChildRecord(c: XmlNode): JsonObject
    requires c.Element?
    decreases c, 1
  {
    var record := map["tag" := JString(c.tag), "attributes" := JArray(AttributeRecords(c.attrs)),
                      "elements" := JArray(ChildRecords(c.children))];
    if FirstChildIsElement(c) then record else record["text" := JString(TextContent(c))]
  }

  /**
   * Every child record carries tag, attributes and elements; it carries `text`
   * (the element's text content) exactly when its first child is not an element,
   * which is exactly when its `elements` array is empty.
   */
  lemma ChildRecordShape(c: XmlNode)
    requires c.Element?
    ensures var r := ChildRecord(c);
      && {"tag", "attributes", "elements"} <= r.Keys <= {"tag", "attributes", "elements", "text"}
      && r["tag"] == JString(c.tag) && r["attributes"] == JArray(AttributeRecords(c.attrs))
      && ("text" in r <==> !FirstChildIsElement(c))
      && ("text" in r <==> r["elements"] == JArray([]))
      && ("text" in r ==> r["text"] == JString(TextContent(c)))
  {
  }

  /**
   * What `elements` returns for a list of children: one record per child in the
   * leading run of element children, in document order; the run ends at the
   * first child that is not an element.
   */
  function ChildRecords(cs: seq<XmlNode>): seq<Json>
    decreases cs, 0
  {
    if cs == [] || !cs[0].Element? then []
    else [JObject(ChildRecord(cs[0]))] + ChildRecords(cs[1..])
  }

  /**
   * `ChildRecords(cs)` has one record per child of the leading run of elements,
   * in order, and stops exactly at the first child that is not an element.
   */
  lemma {:induction false} ChildRecordsRun(cs: seq<XmlNode>)
    ensures |ChildRecords(cs)| <= |cs|
    ensures forall i :: 0 <= i < |ChildRecords(cs)| ==>
              cs[i].Element? && ChildRecords(cs)[i] == JObject(ChildRecord(cs[i]))
    ensures |ChildRecords(cs)| < |cs| ==> !cs[|ChildRecords(cs)|].Element?
  {
    if cs != [] && cs[0].Element? {
      var rest := cs[1..];
      ChildRecordsRun(rest);
      assert forall i :: 0 < i <= |ChildRecords(rest)| ==>
               ChildRecords(cs)[i] == ChildRecords(rest)[i - 1] && cs[i] == rest[i - 1];
    }
  }

  /**
   * `XmlToJson::elements`: follows `firstChild().toElement()` and then
   * `nextSibling().toElement()` until a sibling is not an element.
   */
  method Elements(e: XmlNode) returns (r: seq<Json>)
    requires e.Element?
    decreases e
    ensures r == ChildRecords(e.children)
  {
    var children := e.children;
    r := [];
    var i := 0;
    while i < |children| && children[i].Element?
      invariant 0 <= i <= |children|
      invariant r + ChildRecords(children[i..]) == ChildRecords(children)
    {
      var c := children[i];
      assert children[i..][1..] == children[i + 1..];
      var jsonAttributes := Attributes(c);
      var jsonElement := map["tag" := JString(c.tag), "attributes" := JArray(jsonAttributes)];
      if !FirstChildIsElement(c) {
        jsonElement := jsonElement["text" := JString(TextContent(c))];
      }
      var childElements := Elements(c);
      jsonElement := jsonElement["elements" := JArray(childElements)];
      assert jsonElement == ChildRecord(c);
      r := r + [JObject(jsonElement)];
      i := i + 1;
    }
  }

  /**
   * `XmlToJson::convert(QDomElement)`: the record of a stand-alone element. It has
   * exactly the keys tag, attributes and elements, and never a `text` key, even
   * for an element without child elements.
   */
  function ConvertElement(e: XmlNode): (r: JsonObject)
    requires e.Element?
    ensures r.Keys == {"tag", "attributes", "elements"}
    ensures r["tag"] == JString(e.tag) && r["attributes"] == JArray(AttributeRecords(e.attrs))
    ensures r["elements"] == JArray(ChildRecords(e.children))
  {
    map["tag" := JString(e.tag), "attributes" := JArray(AttributeRecords(e.attrs)),
        "elements" := JArray(ChildRecords(e.children))]
  }

  /**
   * `XmlToJson::processingInstruction`: the target and data of a processing
   * instruction node, and empty strings for any other node or for no node.
   */
  function ProcessingInstructionRecord(n: Option<XmlNode>): (r: JsonObject)
    ensures r.Keys == {"target", "data"}
    ensures n.Some? && n.value.ProcessingInstruction? ==>
              r["target"] == JString(n.value.target) && r["data"] == JString(n.value.data)
    ensures !(n.Some? && n.value.ProcessingInstruction?) ==>
              r["target"] == JString("") && r["data"] == JString("")
  {
    var (target, data) := if n.Some? && n.value.ProcessingInstruction? then (n.value.target, n.value.data)
                          else ("", "");
    map["target" := JString(target), "data" := JString(data)]
  }

  /**
   * The document record: always both an `instruction` and a `root` member; the
   * instruction comes from the document's first child only.
   */
  function DocumentRecord(doc: XmlDocument): (r: JsonObject)
    ensures r.Keys == {"instruction", "root"}
    ensures r["instruction"] == JObject(ProcessingInstructionRecord(FirstChild(doc)))
    ensures r["root"] == JObject(ConvertElement(RootOf(doc)))
  {
    map["instruction" := JObject(ProcessingInstructionRecord(FirstChild(doc))),
        "root" := JObject(ConvertElement(RootOf(doc)))]
  }

  /** `XmlToJson::convert(QDomDocument)`: fills a fresh object member by member. */
  method ConvertDocument(xmlDoc: XmlDocument) returns (jsonDoc: JsonObject)
    ensures jsonDoc == DocumentRecord(xmlDoc)
  {
    var root := RootOf(xmlDoc);
    jsonDoc := map[];
    jsonDoc := jsonDoc["instruction" := JObject(ProcessingInstructionRecord(FirstChild(xmlDoc)))];
    jsonDoc := jsonDoc["root" := JObject(ConvertElement(root))];
  }
}
