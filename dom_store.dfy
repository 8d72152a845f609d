/**
 * The mutable document that JsonToXml builds (a QDomDocument under
 * construction), kept as a store of nodes with child-index lists. Node 0 is the
 * document node; every node lists its children by index, and a child always
 * comes after its parent. `TreeAt` reads the store back as an `XmlNode`.
 */
module DomStore {
  import opened XmlDom

  /** What a node is, apart from its children. */
  datatype Payload =
    | DocumentNode
    | ElementNode(tag: string, attrs: seq<Attribute>)
    | TextNode(data: string)
    | InstructionNode(target: string, data: string)

  datatype StoreNode = StoreNode(payload: Payload, kids: seq<nat>)

  /** Only the document and elements take children. */
  predicate IsContainer(p: Payload) {
    p.DocumentNode? || p.ElementNode?
  }

  /** Every child index points forward, into the store. */
  predicate ValidStore(s: seq<StoreNode>) {
    forall i, j :: 0 <= i < |s| && 0 <= j < |s[i].kids| ==> i < s[i].kids[j] < |s|
  }

  /** The subtree rooted at node `i`, as an XML value. */
  function TreeAt(s: seq<StoreNode>, i: nat): XmlNode
    requires ValidStore(s) && i < |s|
    decreases |s| - i, 1
  {
    match s[i].payload
    case ElementNode(tag, attrs) => Element(tag, attrs, Children(s, i))
    case TextNode(t) => Text(t)
    case InstructionNode(t, d) => ProcessingInstruction(t, d)
    case DocumentNode => Other
  }

  /** The subtrees of node `i`'s children, in order. */
  function Children(s: seq<StoreNode>, i: nat): (r: seq<XmlNode>)
    requires ValidStore(s) && i < |s|
    decreases |s| - i, 0
  {
    seq(|s[i].kids|, j requires 0 <= j < |s[i].kids| => TreeAt(s, s[i].kids[j]))
  }

  /** Nodes `[i, hi)` only have children below `hi`. */
  predicate ClosedBelow(s: seq<StoreNode>, i: nat, hi: nat)
    requires hi <= |s|
  {
    forall j, k :: i <= j < hi && 0 <= k < |s[j].kids| ==> s[j].kids[k] < hi
  }

  /**
   * A subtree that lies inside a range of nodes closed under the child relation
   * reads the same in every store that agrees on that range.
   */
  lemma {:induction false} TreeFrame(s1: seq<StoreNode>, s2: seq<StoreNode>, i: nat, hi: nat)
    requires ValidStore(s1) && ValidStore(s2)
    requires i < hi <= |s1| && hi <= |s2|
    requires ClosedBelow(s1, i, hi)
    requires forall j :: i <= j < hi ==> s2[j] == s1[j]
    ensures TreeAt(s1, i) == TreeAt(s2, i)
    decreases hi - i
  {
    if s1[i].payload.ElementNode? {
      var kids := s1[i].kids;
      forall k | 0 <= k < |kids|
        ensures TreeAt(s1, kids[k]) == TreeAt(s2, kids[k])
      {
        TreeFrame(s1, s2, kids[k], hi);
      }
      assert Children(s1, i) == Children(s2, i);
    }
  }

  /**
   * Appending child `e` to node `p` extends `p`'s children by the subtree at
   * `e`, provided nothing after `p` in the old store has changed.
   */
  lemma ChildrenAppend(s1: seq<StoreNode>, s2: seq<StoreNode>, p: nat, e: nat)
    requires ValidStore(s1) && ValidStore(s2)
    requires p < |s1| <= |s2| && e < |s2|
    requires s2[p].kids == s1[p].kids + [e]
    requires forall j :: p < j < |s1| ==> s2[j] == s1[j]
    ensures Children(s2, p) == Children(s1, p) + [TreeAt(s2, e)]
  {
    var kids := s1[p].kids;
    forall k | 0 <= k < |kids|
      ensures TreeAt(s1, kids[k]) == TreeAt(s2, kids[k])
    {
      TreeFrame(s1, s2, kids[k], |s1|);
    }
  }

  /**
   * `s` grows `s0` below node `p`: only `p`'s children list may have changed among
   * the old nodes, and new nodes may have been added at the end.
   */
  predicate GrowsAt(s0: seq<StoreNode>, s: seq<StoreNode>, p: nat) {
    && p < |s0| <= |s|
    && s[p].payload == s0[p].payload
    && forall j :: 0 <= j < |s0| && j != p ==> s[j] == s0[j]
  }

  /** Growing below `p` twice is growing below `p`. */
  lemma GrowsAtTrans(s0: seq<StoreNode>, s1: seq<StoreNode>, s2: seq<StoreNode>, p: nat)
    requires GrowsAt(s0, s1, p) && GrowsAt(s1, s2, p)
    ensures GrowsAt(s0, s2, p)
  {
  }


  /** An element whose only child is a text node. */
  lemma TextLeafTree(s: seq<StoreNode>, el: nat, t: string)
    requires ValidStore(s) && el + 1 < |s| && s[el].payload.ElementNode?
    requires s[el].kids == [el + 1] && s[el + 1].payload == TextNode(t)
    ensures TreeAt(s, el) == Element(s[el].payload.tag, s[el].payload.attrs, [Text(t)])
  {
    assert Children(s, el) == [Text(t)];
  }

  /** An element without children. */
  lemma EmptyLeafTree(s: seq<StoreNode>, el: nat)
    requires ValidStore(s) && el < |s| && s[el].payload.ElementNode? && s[el].kids == []
    ensures TreeAt(s, el) == Element(s[el].payload.tag, s[el].payload.attrs, [])
  {
    assert Children(s, el) == [];
  }

  /** A QDomDocument under construction. */
  class DomDocument {
    var nodes: seq<StoreNode>

    ghost predicate Valid()
      reads this
    {
      ValidStore(nodes) && |nodes| > 0 && nodes[0].payload == DocumentNode
    }

    /** The document's top-level nodes, as an XML value. */
    ghost function Tree(): XmlDocument
      reads this
      requires Valid()
    {
      XmlDocument(Children(nodes, 0))
    }

    /** An empty document. */
    constructor ()
      ensures Valid() && nodes == [StoreNode(DocumentNode, [])]
      ensures Tree() == XmlDocument([])
    {
      nodes := [StoreNode(DocumentNode, [])];
    }

    /**
     * `createElement` / `createTextNode` / `createProcessingInstruction` followed
     * by `appendChild`: a new childless node becomes the last child of `parent`.
     */
    method AppendChild(parent: nat, payload: Payload) returns (id: nat)
      requires Valid() && parent < |nodes| && IsContainer(nodes[parent].payload)
      requires !payload.DocumentNode?
      modifies this
      ensures Valid()
      ensures id == old(|nodes|)
      ensures nodes == old(nodes)[parent := StoreNode(old(nodes[parent].payload), old(nodes[parent].kids) + [id])]
                       + [StoreNode(payload, [])]
      ensures Children(nodes, parent) == Children(old(nodes), parent) + [TreeAt(nodes, id)]
    {
      id := |nodes|;
      ghost var before := nodes;
      nodes := nodes[parent := StoreNode(nodes[parent].payload, nodes[parent].kids + [id])] + [StoreNode(payload, [])];
      ChildrenAppend(before, nodes, parent, id);
    }

    /** `QDomElement::setAttribute` on the element at index `el`. */
    method SetAttribute(el: nat, name: string, value: string)
      requires Valid() && el < |nodes| && nodes[el].payload.ElementNode?
      modifies this
      ensures Valid()
      ensures nodes == old(nodes)[el := StoreNode(
                ElementNode(old(nodes[el].payload.tag), XmlDom.SetAttribute(old(nodes[el].payload.attrs), name, value)),
                old(nodes[el].kids))]
    {
      var n := nodes[el];
      nodes := nodes[el := StoreNode(ElementNode(n.payload.tag, XmlDom.SetAttribute(n.payload.attrs, name, value)), n.kids)];
    }
  }
}
