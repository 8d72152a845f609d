# qt-xml-json-library converters in Dafny

This project models the two tree converters of qt-xml-json-library and proves their properties. Both converters use one JSON schema:

- an element record is `{tag, attributes: [{key, value}...], elements: [...], text?}`;
- a document record is `{instruction: {target, data}, root}`.

`XmlToJson` walks a parsed XML document and builds these records. `JsonToXml` reads a record and builds a new XML document by appending nodes to it.

Modules:

- `Wrappers` holds `Option`.
- `JsonValue` is the parsed JSON tree. It keeps Qt's defaulting rules:
  - `value` returns Undefined for a missing key;
  - `toString` returns a null string for a non-string;
  - `toArray` and `toObject` return an empty value for the wrong kind.
- `XmlDom` is the parsed XML tree as an immutable value. It also holds the DOM accessors the converters call: `firstChild`, `documentElement`, `text`, `attributeNode` and `setAttribute`.
- `XmlToJson` models `xmltojson.cpp`:
  - the record builders are functions;
  - `attributes`, `elements` and `convert(QDomDocument)` are methods whose loops or steps are proved against those functions.
- `DomStore` is the document under construction. It is a class holding a sequence of nodes, each node listing its children by index, with `appendChild` and `setAttribute` as methods. `Tree()` reads the store back as an XML value.
- `JsonToXml` models `jsontoxml.cpp`:
  - specification functions say which tree each step builds (`BuiltLeaf`, `BuiltElement`, `BuiltChildren`, `ConvertSpec`);
  - the methods `AddElement`, `AddElements`, `AddDocumentInstruction` and `Convert` build that tree in a `DomDocument`. Their contracts state the new store and say that nothing outside the parent's subtree changes.
- `RoundTrip` states what converting to JSON and back gives. `Normalized` defines the result directly on the XML tree:
  - attributes come back unchanged;
  - an element whose first child is an element keeps its leading run of element children, normalized;
  - any other child element comes back with its text content as its only child;
  - the root comes back without its text.

## Model

| member | source | states |
|---|---|---|
| JsonValue.Value | src/qt-xml-json-library/cpp/jsontoxml.cpp:133 | a present key reads as its member; an absent key reads as Undefined |
| JsonValue.ToString | src/qt-xml-json-library/cpp/jsontoxml.cpp:134 | a string comes out exactly when the value is a string, and it is that string; any other kind gives a null string |
| JsonValue.ToArray | src/qt-xml-json-library/cpp/jsontoxml.cpp:169 | a value that is not an array reads as the empty array |
| JsonValue.ToObject | src/qt-xml-json-library/cpp/jsontoxml.cpp:172 | a value that is not an object reads as the empty object |
| XmlDom.FirstChild | src/qt-xml-json-library/cpp/xmltojson.cpp:99 | the document's first child exists exactly when the document has children, and it is the first top-level node |
| XmlDom.DocumentElement | src/qt-xml-json-library/cpp/xmltojson.cpp:94 | the result is the first top-level element; it is absent exactly when no top-level node is an element |
| XmlDom.RootOf | src/qt-xml-json-library/cpp/xmltojson.cpp:94 | the root that is converted is always an element: the document element when there is one, the null element otherwise |
| XmlDom.AttributeNode | src/qt-xml-json-library/cpp/xmltojson.cpp:139 | a found attribute belongs to the element and has the name looked up; none is found exactly when no attribute has that name |
| XmlDom.AttributeNodeAt | src/qt-xml-json-library/cpp/xmltojson.cpp:136-139 | in a map with unique names, looking up the name of attribute `i` finds attribute `i` |
| XmlDom.SetAttribute | src/qt-xml-json-library/cpp/jsontoxml.cpp:153 | a new name is appended at the end; overwriting a present name keeps the map's length |
| XmlDom.SetAttributeFinds | src/qt-xml-json-library/cpp/jsontoxml.cpp:153 | after the call, looking up the name finds the new value |
| XmlDom.SetAttributeKeepsOthers | src/qt-xml-json-library/cpp/jsontoxml.cpp:153 | the lookup of every other name is unchanged |
| XmlDom.SetAttributeSameNames | src/qt-xml-json-library/cpp/jsontoxml.cpp:153 | overwriting a present name keeps every name in its position |
| XmlDom.SetAttributeKeepsUnique | src/qt-xml-json-library/cpp/jsontoxml.cpp:153 | a map with unique names keeps unique names |
| XmlToJson.AttributeRecords | src/qt-xml-json-library/cpp/xmltojson.cpp:131-150 | one record per attribute, in the map's index order; record `i` has `key` equal to attribute `i`'s name |
| XmlToJson.AttributeRecordsExact | src/qt-xml-json-library/cpp/xmltojson.cpp:136-146 | with unique names, record `i` is exactly `{key: name_i, value: value_i}` |
| XmlToJson.Attributes | src/qt-xml-json-library/cpp/xmltojson.cpp:131-150 | the indexed loop returns `AttributeRecords` of the element |
| XmlToJson.ChildRecordShape | src/qt-xml-json-library/cpp/xmltojson.cpp:167-183 | every child record has `tag`, `attributes` and `elements` and no other key except `text`; `text` is present iff the child's first child is not an element, iff `elements` is empty; its value is the child's text content |
| XmlToJson.ChildRecordsRun | src/qt-xml-json-library/cpp/xmltojson.cpp:164-187 | one record per child in the leading run of element children, in document order; the list stops exactly at the first child that is not an element |
| XmlToJson.Elements | src/qt-xml-json-library/cpp/xmltojson.cpp:161-191 | the sibling-following loop returns `ChildRecords` of the element's children; it recurses on a smaller tree and never changes its input |
| XmlToJson.ConvertElement | src/qt-xml-json-library/cpp/xmltojson.cpp:115-122 | the record has exactly the keys `tag`, `attributes` and `elements` (never `text`, even for a leaf) |
| XmlToJson.ProcessingInstructionRecord | src/qt-xml-json-library/cpp/xmltojson.cpp:200-216 | the record has exactly `target` and `data`: the node's values for a processing instruction, empty strings for any other node or no node |
| XmlToJson.DocumentRecord | src/qt-xml-json-library/cpp/xmltojson.cpp:91-105 | the record has exactly `instruction` (taken from the first child only) and `root` (the converted root element) |
| XmlToJson.ConvertDocument | src/qt-xml-json-library/cpp/xmltojson.cpp:91-105 | the step-by-step inserts build `DocumentRecord` |
| DomStore.DomDocument.constructor | src/qt-xml-json-library/cpp/jsontoxml.cpp:94 | a new document is valid and empty |
| DomStore.DomDocument.AppendChild | src/qt-xml-json-library/cpp/jsontoxml.cpp:138-139 | a new childless node is added; the parent's child list gains it at the end; every other node is unchanged |
| DomStore.DomDocument.SetAttribute | src/qt-xml-json-library/cpp/jsontoxml.cpp:153 | only that element's attribute map changes, as `XmlDom.SetAttribute` says |
| JsonToXml.LastValueIsLast | src/qt-xml-json-library/cpp/jsontoxml.cpp:148-154 | the reference "last value" is absent iff no entry has the name; otherwise it is the value of an entry with that name that no later entry repeats |
| JsonToXml.ApplyAttributesLastWins | src/qt-xml-json-library/cpp/jsontoxml.cpp:148-154 | after all entries are applied in array order, each name holds the value of its last occurrence; names no entry sets keep their earlier value |
| JsonToXml.TextChildren | src/qt-xml-json-library/cpp/jsontoxml.cpp:134-145 | at most one text child, present exactly when `text` is a string (the empty string included), holding that string |
| JsonToXml.BuiltChildren | src/qt-xml-json-library/cpp/jsontoxml.cpp:168-180 | one built element per `elements` entry, in array order |
| JsonToXml.ConvertSpec | src/qt-xml-json-library/cpp/jsontoxml.cpp:92-118 | two top-level nodes for a document record and one otherwise; the first is a processing instruction iff the record has both `root` and `instruction`; the last is the root element |
| JsonToXml.AddElement | src/qt-xml-json-library/cpp/jsontoxml.cpp:131-157 | exactly one new element becomes the last child of `node`, with the record's tag, its attributes applied in order and its optional text child; no other existing node changes |
| JsonToXml.SetAttributes | src/qt-xml-json-library/cpp/jsontoxml.cpp:148-154 | the element's attribute map becomes the fold of `setAttribute` over the entries; nothing else changes |
| JsonToXml.AddElements | src/qt-xml-json-library/cpp/jsontoxml.cpp:168-180 | `node`'s children gain one built element per `elements` entry (none for a missing or non-array `elements`); no other existing node changes |
| JsonToXml.AddElementAndDescendants | src/qt-xml-json-library/cpp/jsontoxml.cpp:171-179 | `node`'s children gain exactly the element built from the entry, with all its descendants |
| JsonToXml.AddDocumentInstruction | src/qt-xml-json-library/cpp/jsontoxml.cpp:189-196 | the document gains a processing instruction at the end, empty target and data included |
| JsonToXml.Convert | src/qt-xml-json-library/cpp/jsontoxml.cpp:92-118 | a fresh document whose tree is `ConvertSpec` of the input |
| RoundTrip.NormalizedRunAt | src/qt-xml-json-library/cpp/xmltojson.cpp:164-187 | the normalized run covers exactly the children that `elements` emits records for |
| RoundTrip.AttributeEntry | src/qt-xml-json-library/cpp/jsontoxml.cpp:149-152 | with unique names, the key and value read back from record `i` are attribute `i`'s name and value |
| RoundTrip.SetNextAttribute | src/qt-xml-json-library/cpp/jsontoxml.cpp:153 | setting the next attribute of a unique map appends it |
| RoundTrip.AttributesPrefix | src/qt-xml-json-library/cpp/jsontoxml.cpp:148-154 | the first `k` attribute records, applied in order, rebuild the first `k` attributes |
| RoundTrip.AttributesRoundTrip | src/qt-xml-json-library/cpp/jsontoxml.cpp:148-154 | the attribute records of a unique attribute map rebuild exactly that map, in order |
| RoundTrip.ReadChildRecord | src/qt-xml-json-library/cpp/jsontoxml.cpp:133-135 | `addElement` reads back from a child record the child's tag, its attribute records, its child records and its text (present iff the first child is not an element) |
| RoundTrip.RebuildChild | src/qt-xml-json-library/cpp/jsontoxml.cpp:131-180 | a child record converts back to the normalized child |
| RoundTrip.RebuildRun | src/qt-xml-json-library/cpp/jsontoxml.cpp:168-180 | the elements rebuilt from a list of child records are the normalized leading run of the children |
| RoundTrip.RebuildRoot | src/qt-xml-json-library/cpp/jsontoxml.cpp:112-115 | a stand-alone element record converts back to an element with the same tag and attributes, its leading element children normalized, and no text |
| RoundTrip.ElementRoundTrip | src/qt-xml-json-library/cpp/jsontoxml.cpp:99-115 | an element record is not taken for a document and converts back to a one-element document |
| RoundTrip.DocumentRoundTrip | src/qt-xml-json-library/cpp/xmltojson.cpp:96-104 | a document record always takes the document branch; it converts back to its instruction (an empty one when the first child is not an instruction) followed by the normalized root |
| RoundTrip.SimpleUnchanged | src/qt-xml-json-library/cpp/jsontoxml.cpp:131-180 | a tree whose elements have only element children, or one text child, comes back unchanged |
| RoundTrip.SimpleRunUnchanged | src/qt-xml-json-library/cpp/jsontoxml.cpp:168-180 | a list of such trees comes back unchanged |
| RoundTrip.DocumentRoundTripExact | src/qt-xml-json-library/cpp/jsontoxml.cpp:92-118 | a document of an instruction and a root whose children are such trees converts to JSON and back without change |
| RoundTrip.EmptyLeafGainsText | src/qt-xml-json-library/cpp/xmltojson.cpp:174-176 | an element without children comes back with one empty text child |
| RoundTrip.RootTextLost | src/qt-xml-json-library/cpp/xmltojson.cpp:115-122 | the text of the root element is not recorded and does not come back; a missing instruction comes back as an empty one |
| RoundTrip.SmallDocumentRecord | src/qt-xml-json-library/cpp/xmltojson.cpp:91-191 | `<a id="1"><b>hello</b></a>` converts to the expected document record |
| RoundTrip.SmallDocumentRoundTrip | src/qt-xml-json-library/cpp/jsontoxml.cpp:92-118 | that record converts back to the same root after an empty processing instruction |

## Left out

- The `parse` functions (`xmltojson.cpp:44-67`, `jsontoxml.cpp:46-68`) are not modelled. They only check that a file exists, read it and log. The parsed tree is the input here.
- `XmlJsonConverter::save`, the rest of the facade, `version()` and the sample driver are not modelled. They are file writes and one-line forwarding wrappers.
- Qt's XML and JSON text parsers and all serialisation are not modelled. This is foreign library code. The model takes the parsed tree as input and returns the built tree.
- XML text is not parsed. CDATA sections are text nodes. Comments and other node kinds are `Other` and contribute no text.
- JSON numbers are kept as integers. Neither converter reads them.
- The attribute map is a sequence in the map's own order. `setAttribute` overwrites a present name in place and appends a new name at the end. Qt's internal hash order is not modelled.
- `createElement`, `createTextNode` and `createProcessingInstruction` always succeed, even for an empty or invalid tag name, text, target or data. In particular `createProcessingInstruction("", "")` yields a node, which holds under Qt's default policy for invalid data.
- A null `QString` used as a name or text is read as the empty string. A null `QDomElement` (a document without an element) answers like an element with an empty tag, no attributes and no children.
- The guard `!n.isNull()` at `xmltojson.cpp:138` always holds, because `item(i)` for an index below the map's size is never null. The model walks every attribute.
- The attribute loop of `addElement` is the helper method `JsonToXml.SetAttributes`. The loop body of `addElements` is the helper method `JsonToXml.AddElementAndDescendants`. `convert` uses the same helper for its root element.
- The document is a store of nodes addressed by index. Qt's shared `QDomNode` handles and their aliasing are not modelled.
- Recursion depth is unbounded. Stack limits are not modelled.
- Three behaviours of the code to note:
  - A child record carries `text` when its first child is not an element, even if a later child is one. Such a child's `elements` is then empty.
  - `text` is the concatenation of all descendant text, not only the element's own text.
  - The root record never carries `text`, so leaf/branch exclusivity holds for child records only.
