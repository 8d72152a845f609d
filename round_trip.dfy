/**
 * RoundTrip: what comes back when an XML document is converted to JSON by
 * XmlToJson and the record is converted back by JsonToXml.
 *
 * Attributes come back unchanged. An element whose first child is an element
 * keeps its leading run of element children; any other element comes back with
 * its text content as its one text child. `Normalized` states this directly on
 * the XML tree, independently of the JSON in between.
 */
module RoundTrip {
  import opened Wrappers
  import opened JsonValue
  import opened XmlDom
  import opened XmlToJson
  import opened JsonToXml

  /** The tree a child element comes back as. */
  function Normalized(c: XmlNode): XmlNode
    requires c.Element?
    decreases c, 1
  {
    if FirstChildIsElement(c) then Element(c.tag, c.attrs, NormalizedRun(c.children))
    else Element(c.tag, c.attrs, [Text(TextContent(c))])
  }

  /** The leading run of element children, each normalized; the rest is dropped. */
  function NormalizedRun(cs: seq<XmlNode>): seq<XmlNode>
    decreases cs, 0
  {
    if cs == [] || !cs[0].Element? then []
    else [Normalized(cs[0])] + NormalizedRun(cs[1..])
  }

  /** `NormalizedRun` covers exactly the children that `elements` emits a record for. */
  lemma {:induction false} NormalizedRunAt(cs: seq<XmlNode>)
    ensures |NormalizedRun(cs)| == |ChildRecords(cs)| <= |cs|
    ensures forall j :: 0 <= j < |NormalizedRun(cs)| ==> cs[j].Element? && NormalizedRun(cs)[j] == Normalized(cs[j])
  {
    if cs != [] && cs[0].Element? {
      var rest := cs[1..];
      NormalizedRunAt(rest);
      ChildRecordsRun(rest);
      assert forall j :: 0 < j <= |NormalizedRun(rest)| ==>
               NormalizedRun(cs)[j] == NormalizedRun(rest)[j - 1] && cs[j] == rest[j - 1];
    }
  }

  /** With unique names, the entry read back from record `i` names attribute `i` and its value. */
  lemma AttributeEntry(attrs: seq<Attribute>, i: nat)
    requires UniqueNames(attrs) && i < |attrs|
    ensures EntryName(AttributeRecords(attrs)[i]) == attrs[i].name
    ensures EntryValue(AttributeRecords(attrs)[i]) == attrs[i].value
  {
    AttributeNodeAt(attrs, i);
    assert AttributeRecords(attrs)[i] == JObject(AttributeRecord(attrs[i].name, attrs[i].value));
  }

  /** Setting attribute `k` on the first `k` attributes of a unique map appends it. */
  lemma SetNextAttribute(attrs: seq<Attribute>, k: nat)
    requires UniqueNames(attrs) && k < |attrs|
    ensures XmlDom.SetAttribute(attrs[..k], attrs[k].name, attrs[k].value) == attrs[..k + 1]
  {
    assert forall i :: 0 <= i < |attrs[..k]| ==> attrs[..k][i].name != attrs[k].name;
    assert attrs[..k + 1] == attrs[..k] + [attrs[k]];
  }

  /** The first `k` attribute records, applied in order, rebuild the first `k` attributes. */
  lemma {:induction false} AttributesPrefix(attrs: seq<Attribute>, k: nat)
    requires UniqueNames(attrs) && k <= |attrs|
    ensures ApplyAttributes([], AttributeRecords(attrs)[..k]) == attrs[..k]
    decreases k
  {
    if k > 0 {
      AttributesPrefix(attrs, k - 1);
      ApplyAttributesStep([], AttributeRecords(attrs), k - 1);
      AttributeEntry(attrs, k - 1);
      SetNextAttribute(attrs, k - 1);
    }
  }

  /** The attribute records of a DOM attribute map rebuild exactly that map. */
  lemma AttributesRoundTrip(attrs: seq<Attribute>)
    requires UniqueNames(attrs)
    ensures ApplyAttributes([], AttributeRecords(attrs)) == attrs
  {
    AttributesPrefix(attrs, |attrs|);
    assert AttributeRecords(attrs)[..|attrs|] == AttributeRecords(attrs);
    assert attrs[..|attrs|] == attrs;
  }

  /** The elements rebuilt from the records of a list of children are its normalized run. */
  lemma {:induction false} RebuildRun(v: Json, cs: seq<XmlNode>)
    requires Entries(v) == ChildRecords(cs)
    requires forall i :: 0 <= i < |cs| ==> WellFormed(cs[i])
    ensures BuiltChildren(v, |Entries(v)|) == NormalizedRun(cs)
    decreases cs, 0
  {
    var b := BuiltChildren(v, |Entries(v)|);
    ChildRecordsRun(cs);
    NormalizedRunAt(cs);
    forall j | 0 <= j < |b| ensures b[j] == NormalizedRun(cs)[j] {
      RebuildChild(cs[j]);
    }
  }

  /** A child record converts back to the normalized child. */
  lemma {:induction false} RebuildChild(c: XmlNode)
    requires c.Element? && WellFormed(c)
    ensures BuiltElement(JObject(ChildRecord(c))) == Normalized(c)
    decreases c, 1
  {
    var obj := ChildRecord(c);
    var v := JObject(obj);
    ReadChildRecord(c);
    AttributesRoundTrip(c.attrs);
    RebuildRun(v, c.children);
    if FirstChildIsElement(c) {
      assert TextChildren(obj) + NormalizedRun(c.children) == NormalizedRun(c.children);
    } else {
      assert TextChildren(obj) + NormalizedRun(c.children) == [Text(TextContent(c))];
    }
  }

  /** What `addElement` and `addElements` read from a child record. */
  lemma ReadChildRecord(c: XmlNode)
    requires c.Element?
    ensures var obj := ChildRecord(c);
      && TagOf(obj) == c.tag
      && ToArray(Value(obj, "attributes")) == AttributeRecords(c.attrs)
      && Entries(JObject(obj)) == ChildRecords(c.children)
      && TextChildren(obj) == (if FirstChildIsElement(c) then [] else [Text(TextContent(c))])
      && (!FirstChildIsElement(c) ==> ChildRecords(c.children) == [])
  {
  }

  /** A stand-alone element converts back with its leading element children normalized and no text. */
  lemma RebuildRoot(e: XmlNode)
    requires e.Element? && WellFormed(e)
    ensures BuiltElement(JObject(ConvertElement(e))) == Element(e.tag, e.attrs, NormalizedRun(e.children))
  {
    var v := JObject(ConvertElement(e));
    AttributesRoundTrip(e.attrs);
    RebuildRun(v, e.children);
  }

  /** The element record of `convert(QDomElement)` converts back to a one-element document. */
  lemma ElementRoundTrip(e: XmlNode)
    requires e.Element? && WellFormed(e)
    ensures !IsDocument(ConvertElement(e))
    ensures ConvertSpec(ConvertElement(e)) == XmlDocument([Element(e.tag, e.attrs, NormalizedRun(e.children))])
  {
    RebuildRoot(e);
  }

  /** The processing instruction a document record carries: the first child's, or an empty one. */
  function InstructionOf(doc: XmlDocument): XmlNode {
    match FirstChild(doc)
    case Some(ProcessingInstruction(t, d)) => ProcessingInstruction(t, d)
    case _ => ProcessingInstruction("", "")
  }

  /**
   * A document converts back to its instruction (an empty one when the first
   * child is not an instruction) followed by its root element, whose leading
   * element children are normalized and whose text is not kept.
   */
  lemma DocumentRoundTrip(doc: XmlDocument)
    requires WellFormed(RootOf(doc))
    ensures IsDocument(DocumentRecord(doc))
    ensures var root := RootOf(doc);
            ConvertSpec(DocumentRecord(doc)) ==
              XmlDocument([InstructionOf(doc), Element(root.tag, root.attrs, NormalizedRun(root.children))])
  {
    RebuildRoot(RootOf(doc));
  }

  /**
   * A tree the round trip keeps: every element either has only element
   * children, at least one, or has exactly one text child.
   */
  predicate Simple(c: XmlNode) {
    c.Element? &&
    ((|c.children| > 0 && forall i :: 0 <= i < |c.children| ==> Simple(c.children[i])) ||
     (|c.children| == 1 && c.children[0].Text?))
  }

  /** Every element child of a `Simple` tree comes back unchanged. */
  lemma {:induction false} SimpleUnchanged(c: XmlNode)
    requires Simple(c)
    ensures Normalized(c) == c
    decreases c, 1
  {
    if FirstChildIsElement(c) {
      SimpleRunUnchanged(c.children);
    } else {
      assert !(|c.children| > 0 && Simple(c.children[0]));
      var t := c.children[0].data;
      assert TextContentAll(c.children[1..]) == "";
      assert TextContent(c.children[0]) == t;
      assert TextContent(c) == TextContentAll(c.children) == t + "";
      assert t + "" == t;
      assert c.children == [Text(t)];
    }
  }

  lemma {:induction false} SimpleRunUnchanged(cs: seq<XmlNode>)
    requires forall i :: 0 <= i < |cs| ==> Simple(cs[i])
    ensures NormalizedRun(cs) == cs
    decreases cs, 0
  {
    if cs != [] {
      SimpleUnchanged(cs[0]);
      assert forall i :: 0 <= i < |cs[1..]| ==> Simple(cs[1..][i]);
      SimpleRunUnchanged(cs[1..]);
    }
  }

  /**
   * A document made of an instruction and a root whose children are all
   * `Simple` elements converts to JSON and back without change.
   */
  lemma DocumentRoundTripExact(target: string, data: string, root: XmlNode)
    requires root.Element? && WellFormed(root)
    requires forall i :: 0 <= i < |root.children| ==> Simple(root.children[i])
    ensures var doc := XmlDocument([ProcessingInstruction(target, data), root]);
            ConvertSpec(DocumentRecord(doc)) == doc
  {
    var doc := XmlDocument([ProcessingInstruction(target, data), root]);
    assert DocumentElement(doc) == Some(root);
    DocumentRoundTrip(doc);
    SimpleRunUnchanged(root.children);
  }

  /** An element without children comes back with one empty text child. */
  lemma EmptyLeafGainsText(tag: string, attrs: seq<Attribute>)
    requires UniqueNames(attrs)
    ensures BuiltElement(JObject(ChildRecord(Element(tag, attrs, [])))) == Element(tag, attrs, [Text("")])
  {
    RebuildChild(Element(tag, attrs, []));
    assert TextContent(Element(tag, attrs, [])) == "";
  }

  /** The text of a root element is not recorded, so it does not come back. */
  lemma RootTextLost(tag: string, text: string)
    ensures var doc := XmlDocument([Element(tag, [], [Text(text)])]);
            ConvertSpec(DocumentRecord(doc)) == XmlDocument([ProcessingInstruction("", ""), Element(tag, [], [])])
  {
    var doc := XmlDocument([Element(tag, [], [Text(text)])]);
    DocumentRoundTrip(doc);
  }

  /**
   * `<a id="1"><b>hello</b></a>`: the record carries an empty instruction and a
   * root with one leaf child holding the text.
   */
  lemma SmallDocumentRecord()
    ensures var a := Element("a", [Attribute("id", "1")], [Element("b", [], [Text("hello")])]);
            DocumentRecord(XmlDocument([a])) == map[
              "instruction" := JObject(map["target" := JString(""), "data" := JString("")]),
              "root" := JObject(map[
                "tag" := JString("a"),
                "attributes" := JArray([JObject(map["key" := JString("id"), "value" := JString("1")])]),
                "elements" := JArray([JObject(map[
                  "tag" := JString("b"), "attributes" := JArray([]),
                  "text" := JString("hello"), "elements" := JArray([])])])])]
  {
    var b := Element("b", [], [Text("hello")]);
    var a := Element("a", [Attribute("id", "1")], [b]);
    var doc := XmlDocument([a]);
    AttributeNodeAt(a.attrs, 0);
    assert AttributeRecords(a.attrs) == [JObject(AttributeRecord("id", "1"))];
    assert AttributeRecords(b.attrs) == [];
    assert TextContent(b) == "hello" by {
      assert TextContentAll(b.children[1..]) == "";
    }
    assert ChildRecords(b.children) == [];
    var recB := map["tag" := JString("b"), "attributes" := JArray([]),
                    "text" := JString("hello"), "elements" := JArray([])];
    assert ChildRecord(b) == recB;
    assert ChildRecords(a.children) == [JObject(recB)] by {
      assert a.children[1..] == [];
    }
    assert DocumentElement(doc) == Some(a);
  }

  /** Converting that record back gives the same root after an empty processing instruction. */
  lemma SmallDocumentRoundTrip()
    ensures var a := Element("a", [Attribute("id", "1")], [Element("b", [], [Text("hello")])]);
            ConvertSpec(DocumentRecord(XmlDocument([a]))) == XmlDocument([ProcessingInstruction("", ""), a])
  {
    var b := Element("b", [], [Text("hello")]);
    var a := Element("a", [Attribute("id", "1")], [b]);
    var doc := XmlDocument([a]);
    assert DocumentElement(doc) == Some(a) && InstructionOf(doc) == ProcessingInstruction("", "");
    assert WellFormed(b) && UniqueNames(a.attrs);
    DocumentRoundTrip(doc);
    SimpleUnchanged(b);
    assert NormalizedRun(a.children) == [Normalized(b)] by {
      assert a.children[1..] == [];
    }
  }
}
