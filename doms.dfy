/** Nodes of the document tree (src/dom/mod.rs). A node records its variant,
    an optional tag, text or comment payload, and its owned children in order.
    `Node` is the value that trees, fragment lists and query results hold; the
    class `Dom` is the object the parser and the subtree search build one in.
    The source keeps the children as an optional vector that `add_child`
    creates on first use and never empties, so "no vector" and "no children"
    coincide and the children are a plain sequence here. */
module Doms {
  import opened Common
  import opened Tags
  import opened Scan

  datatype DomType = TagType | TextType | CommentType

  datatype Node = Node(
    domType: DomType,
    tag: Option<TagData>,
    text: Option<string>,
    comment: Option<string>,
    children: seq<Node>)

  /** The synthetic root a parse and a subtree search wrap their nodes in. */
  const RootTag := TagData("root", None, false, false)

  function RootNode(): (r: Node)
    ensures r.domType == TagType && r.tag == Some(RootTag) && r.children == []
  {
    Node(TagType, Some(RootTag), None, None, [])
  }

  class Dom {
    var domType: DomType
    var tag: Option<TagData>
    var text: Option<string>
    var comment: Option<string>
    var children: seq<Node>

    function Value(): Node
      reads this
    {
      Node(domType, tag, text, comment, children)
    }

    /** `Dom::new`: the variant, and nothing else. */
    constructor (domType: DomType)
      ensures Value() == Node(domType, None, None, None, [])
    {
      this.domType := domType;
      tag := None;
      text := None;
      comment := None;
      children := [];
    }

    /** `Dom::new_root`: a Tag node named "root" with no attributes. */
    constructor NewRoot()
      ensures Value() == RootNode()
    {
      domType := TagType;
      tag := Some(RootTag);
      text := None;
      comment := None;
      children := [];
    }

    /** Takes over an owned node value, as `create_dom_tree` does with the
        fragment it removes from the list. */
    constructor FromValue(n: Node)
      ensures Value() == n
    {
      domType := n.domType;
      tag := n.tag;
      text := n.text;
      comment := n.comment;
      children := n.children;
    }

    /** `set_tag` panics unless the node is a Tag node. */
    method SetTag(t: TagData)
      requires domType == TagType
      modifies this
      ensures Value() == old(Value()).(tag := Some(t))
    {
      tag := Some(t);
    }

    /** `set_text` panics unless the node is a Text node. */
    method SetText(s: string)
      requires domType == TextType
      modifies this
      ensures Value() == old(Value()).(text := Some(s))
    {
      text := Some(s);
    }

    /** `set_comment` panics unless the node is a Comment node. */
    method SetComment(s: string)
      requires domType == CommentType
      modifies this
      ensures Value() == old(Value()).(comment := Some(s))
    {
      comment := Some(s);
    }

    /** `add_child`: appends, creating the list on the first call. */
    method AddChild(d: Node)
      modifies this
      ensures children == old(children) + [d]
      ensures Value() == old(Value()).(children := old(children) + [d])
      ensures GetChildren().Some? && |GetChildren().value| == |old(children)| + 1
    {
      children := children + [d];
    }

    /** `get_children`: absent exactly when no child was ever added. */
    function GetChildren(): (r: Option<seq<Node>>)
      reads this
      ensures r.None? <==> children == []
      ensures r.Some? ==> r.value == children && |r.value| > 0
    {
      if children == [] then None else Some(children)
    }
  }

  function TagNode(t: TagData): Node { Node(TagType, Some(t), None, None, []) }
  function TextNode(s: string): Node { Node(TextType, None, Some(s), None, []) }
  function CommentNode(s: string): Node { Node(CommentType, None, None, Some(s), []) }

  /** A node as the parser builds it: a Tag node holds a tag, a Text or Comment
      node holds its string and no children, and so on below. */
  predicate WellFormed(n: Node)
    decreases n
  {
    match n.domType
    case TagType =>
      && n.tag.Some? && n.text.None? && n.comment.None?
      && forall i :: 0 <= i < |n.children| ==> WellFormed(n.children[i])
    case TextType => n.text.Some? && n.tag.None? && n.comment.None? && n.children == []
    case CommentType => n.comment.Some? && n.tag.None? && n.text.None? && n.children == []
  }

  /** `q` contains `p` as a substring. */
  predicate Contains(q: string, p: string)
  {
    exists i: nat | i <= |q| :: OccursAt(q, p, i)
  }

  /** The sufficient condition `Dom::p_implies_q(p, q)`: same variant, and the
      payload of `q` satisfies that of `p`: the tag rule for tags, substring
      containment for texts and comments. */
  predicate NodeImplies(p: Node, q: Node)
  {
    p.domType == q.domType &&
    match p.domType
    case TagType => p.tag.Some? && q.tag.Some? && TagImplies(p.tag.value, q.tag.value)
    case TextType => p.text.Some? && q.text.Some? && Contains(q.text.value, p.text.value)
    case CommentType => p.comment.Some? && q.comment.Some? && Contains(q.comment.value, p.comment.value)
  }

  /** `Dom::p_implies_q_tree(p, q)`: every child of the pattern is satisfied by
      some child of the candidate, recursively. The children need not be
      distinct and their order is not compared. */
  predicate TreeImplies(p: Node, q: Node)
    decreases p
  {
    forall pc :: pc in p.children ==>
      exists qc :: qc in q.children && NodeImplies(pc, qc) && TreeImplies(pc, qc)
  }

  lemma NodeImpliesReflexive(n: Node)
    requires WellFormed(n)
    ensures NodeImplies(n, n)
  {
    match n.domType
    case TagType =>
    case TextType => assert OccursAt(n.text.value, n.text.value, 0);
    case CommentType => assert OccursAt(n.comment.value, n.comment.value, 0);
  }

  /** Every well-formed tree satisfies itself as a pattern. */
  lemma {:induction false} TreeImpliesReflexive(n: Node)
    requires WellFormed(n)
    ensures TreeImplies(n, n)
    decreases n
  {
    forall pc | pc in n.children
      ensures exists qc :: qc in n.children && NodeImplies(pc, qc) && TreeImplies(pc, qc)
    {
      NodeImpliesReflexive(pc);
      TreeImpliesReflexive(pc);
    }
  }

  /** A childless pattern is satisfied by every candidate. */
  lemma LeafPatternImpliesAny(p: Node, q: Node)
    requires p.children == []
    ensures TreeImplies(p, q)
  {
  }
}
