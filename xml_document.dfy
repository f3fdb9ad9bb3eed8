/**
 * The parsed XML document as the error collector sees it. XPath evaluation
 * and parsing belong to Nokogiri and are abstracted: a document's Shape says
 * which node `at_xpath` finds for a location, the type code of every node,
 * the owning element of every attribute node, and the root element. What
 * the collector changes in place is the `error_id` attribute of nodes,
 * kept in the Document's errorIds table.
 */
module XmlDocument {
  import opened Wrappers
  import opened Faults
  import Uuid

  /** A handle on a node of a parsed document. */
  type Node = nat

  /** The node kinds of libxml, by name. */
  datatype NodeKind =
    | ElementNode | AttributeNode | TextNode | CdataNode | EntRefNode | EntityNode
    | InstructionNode | CommentNode | DocumentNode | DocTypeNode | DocFragNode
    | NotationNode  // the source spells this symbol :notaion

  /** NODE_TYPES: libxml's numeric node type codes and their names. */
  const NodeTypes: map<int, NodeKind> := map[
    1 := ElementNode, 2 := AttributeNode, 3 := TextNode, 4 := CdataNode,
    5 := EntRefNode, 6 := EntityNode, 7 := InstructionNode, 8 := CommentNode,
    9 := DocumentNode, 10 := DocTypeNode, 11 := DocFragNode, 12 := NotationNode]

  /** node_type(type): the name of a type code, nil for an unknown code. */
  function NodeType(code: int): (r: Option<NodeKind>)
    ensures r.Some? <==> 1 <= code <= 12
    ensures r == Some(DocumentNode) <==> code == 9
    ensures r == Some(AttributeNode) <==> code == 2
  {
    if code in NodeTypes then Some(NodeTypes[code]) else None
  }

  /**
   * What parsing a file yields, apart from error_id attributes:
   * `at` is at_xpath (a location to the first node it selects),
   * `kind` is Node#type, `element` is Attr#element (the owner of an
   * attribute node) and `root` is Document#root.
   */
  datatype Shape = Shape(
    at: map<string, Node>,
    kind: Node -> int,
    element: Node -> Node,
    root: Option<Node>)

  /** The text of an XML file, seen through what parsing it gives. */
  datatype XmlText = XmlText(shape: Shape, errorIds: map<Node, string>)

  /** A parsed document: its shape and the error_id attribute of its nodes. */
  class Document {
    const shape: Shape
    var errorIds: map<Node, string>

    /** Nokogiri::XML(text) */
    constructor Parse(text: XmlText)
      ensures shape == text.shape && errorIds == text.errorIds
    {
      shape := text.shape;
      errorIds := text.errorIds;
    }

    /**
     * get_error_id(element, uuid): a document node is redirected to its
     * root element; the target keeps the error_id it has or receives a
     * fresh one; the target's error_id is returned. Redirecting a document
     * without a root element leaves nil, and `nil['error_id']` raises.
     */
    method GetErrorId(node: Node, gen: Uuid.Generator) returns (r: Result<string, Fault>)
      modifies this, gen
      ensures var spec := GetErrorIdSpec(shape, IdState(old(errorIds), old(gen.count)), node);
        && (spec.Err? ==> r == Err(spec.error) && errorIds == old(errorIds) && gen.count == old(gen.count))
        && (spec.Ok? ==> r == Ok(spec.value.0)
                         && errorIds == spec.value.1.ids && gen.count == spec.value.1.minted)
    {
      var element := IdTarget(shape, node);
      if element.None? {
        return Err(NilReceiver("[]"));
      }
      var target := element.value;
      if target !in errorIds {
        var id := gen.Generate();
        errorIds := errorIds[target := id];
      }
      r := Ok(errorIds[target]);
    }
  }

  /** What Ruby's `data_to_doc` receives: text to parse, or a document already parsed. */
  datatype FileData = Text(text: XmlText) | Parsed(doc: Document)

  /** data_to_doc(data): parse text into a new document; pass a parsed document through. */
  method DataToDoc(data: FileData) returns (doc: Document)
    ensures data.Parsed? ==> doc == data.doc
    ensures data.Text? ==> fresh(doc) && doc.shape == data.text.shape
                           && doc.errorIds == data.text.errorIds
  {
    if data.Text? {
      doc := new Document.Parse(data.text);
    } else {
      doc := data.doc;
    }
  }

  predicate IsDocumentNode(shape: Shape, n: Node)
  {
    NodeType(shape.kind(n)) == Some(DocumentNode)
  }

  predicate IsAttributeNode(shape: Shape, n: Node)
  {
    NodeType(shape.kind(n)) == Some(AttributeNode)
  }

  /** The node that carries the error_id of n: the root element for the document node. */
  function IdTarget(shape: Shape, n: Node): Option<Node>
  {
    if IsDocumentNode(shape, n) then shape.root else Some(n)
  }

  /** The error_id table of a document together with how many UUIDs were generated. */
  datatype IdState = IdState(ids: map<Node, string>, minted: nat)

  /** get_error_id as a function of the table and generator before the call. */
  function GetErrorIdSpec(shape: Shape, st: IdState, n: Node): Result<(string, IdState), Fault>
  {
    match IdTarget(shape, n)
    case None => Err(NilReceiver("[]"))
    case Some(t) =>
      if t in st.ids then Ok((st.ids[t], st))
      else Ok((Uuid.Mint(st.minted), IdState(st.ids[t := Uuid.Mint(st.minted)], st.minted + 1)))
  }

  /**
   * What get_error_id promises: it fails exactly when a document node has
   * no root; otherwise the returned id is the one now stored on the target,
   * an id already there is reused with nothing modified, a missing one is
   * the generator's next identifier, and every other node keeps its id.
   */
  lemma GetErrorIdContract(shape: Shape, st: IdState, n: Node)
    ensures GetErrorIdSpec(shape, st, n).Err? <==> IsDocumentNode(shape, n) && shape.root.None?
    ensures match GetErrorIdSpec(shape, st, n)
      case Err(_) => true
      case Ok((id, st')) =>
        var t := if IsDocumentNode(shape, n) then shape.root.value else n;
        && t in st'.ids && st'.ids[t] == id
        && (t in st.ids ==> st' == st)
        && (t !in st.ids ==> id == Uuid.Mint(st.minted) && st'.minted == st.minted + 1)
        && (forall m :: m in st.ids ==> m in st'.ids && st'.ids[m] == st.ids[m])
        && st'.ids.Keys == st.ids.Keys + {t}
  {
  }

  /** Calling get_error_id a second time on the same node returns the same id and changes nothing. */
  lemma GetErrorIdIdempotent(shape: Shape, st: IdState, n: Node)
    requires GetErrorIdSpec(shape, st, n).Ok?
    ensures var (id, st') := GetErrorIdSpec(shape, st, n).value;
      GetErrorIdSpec(shape, st', n) == Ok((id, st'))
  {
  }
}
