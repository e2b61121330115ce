/** The queries of src/searcher.rs. Each `*_exe` routine of the source walks
    the tree depth first and pushes onto a result vector owned by its caller;
    here each walk is first a pair of functions (a node, and a list of
    siblings, consumed from the back so that the loop over the children reads
    them front to back), then a method with the source's loop that returns the
    extended vector. Every walk is proved equal to a filter over the plain
    pre-order listing of the tree, `PreOrder`, which is the reference the
    contracts are read against. */
module Searcher {
  import opened Common
  import opened Tags
  import opened Doms

  /* ---------- The reference: pre-order listing and collecting ---------- */

  /** The node, then the pre-order of each child in turn. */
  function PreOrder(n: Node): (r: seq<Node>)
    ensures |r| > 0 && r[0] == n
    decreases n
  {
    [n] + PreOrderIn(n.children)
  }

  function PreOrderIn(ns: seq<Node>): seq<Node>
    decreases ns
  {
    if ns == [] then [] else PreOrderIn(ns[..|ns| - 1]) + PreOrder(ns[|ns| - 1])
  }

  /** What `f` yields for each element, concatenated in order. */
  function Collect<X, T>(xs: seq<X>, f: X -> seq<T>): seq<T>
  {
    if xs == [] then [] else Collect(xs[..|xs| - 1], f) + f(xs[|xs| - 1])
  }

  lemma {:induction false} CollectAppend<X, T>(a: seq<X>, b: seq<X>, f: X -> seq<T>)
    ensures Collect(a + b, f) == Collect(a, f) + Collect(b, f)
    decreases |b|
  {
    if b == [] {
      assert a + b == a;
    } else {
      assert (a + b)[..|a + b| - 1] == a + b[..|b| - 1];
      CollectAppend(a, b[..|b| - 1], f);
    }
  }

  lemma CollectOne<X, T>(x: X, f: X -> seq<T>)
    ensures Collect([x], f) == f(x)
  {
    assert [x][..0] == [];
  }

  /** An element yields something only if `f` yields it for some element. */
  lemma {:induction false} CollectMember<X, T>(xs: seq<X>, f: X -> seq<T>, y: T)
    requires y in Collect(xs, f)
    ensures exists i :: 0 <= i < |xs| && y in f(xs[i])
    decreases |xs|
  {
    var init := xs[..|xs| - 1];
    if y in Collect(init, f) {
      CollectMember(init, f, y);
      var i :| 0 <= i < |init| && y in f(init[i]);
      assert init[i] == xs[i];
    } else {
      assert y in f(xs[|xs| - 1]);
    }
  }

  /** Every element `f` yields for one element is collected. */
  lemma {:induction false} CollectIncludes<X, T>(xs: seq<X>, f: X -> seq<T>, i: int, y: T)
    requires 0 <= i < |xs| && y in f(xs[i])
    ensures y in Collect(xs, f)
    decreases |xs|
  {
    if i < |xs| - 1 {
      CollectIncludes(xs[..|xs| - 1], f, i, y);
    }
  }

  /** Every child of a well-formed node is well-formed. */
  lemma ChildrenWellFormed(n: Node)
    requires WellFormed(n)
    ensures forall c :: c in n.children ==> WellFormed(c)
  {
  }

  /* ---------- search_tag ---------- */

  /** `search_tag_exe` on one node: a node without a tag ends the walk
      there; a tag the needle implies is reported before the children's. */
  function TagsMatched(n: Node, needle: TagData): (r: seq<TagData>)
    decreases n
  {
    if n.tag.Some? then
      (if TagImplies(needle, n.tag.value) then [n.tag.value] else [])
      + TagsMatchedIn(n.children, needle)
    else []
  }

  function TagsMatchedIn(ns: seq<Node>, needle: TagData): (r: seq<TagData>)
    decreases ns
  {
    if ns == [] then []
    else TagsMatchedIn(ns[..|ns| - 1], needle) + TagsMatched(ns[|ns| - 1], needle)
  }

  /** Only tags the needle implies are reported. */
  lemma {:induction false} TagsMatchedSound(n: Node, needle: TagData)
    ensures forall t :: t in TagsMatched(n, needle) ==> TagImplies(needle, t)
    decreases n, 1
  {
    if n.tag.Some? {
      TagsMatchedInSound(n.children, needle);
    }
  }

  lemma {:induction false} TagsMatchedInSound(ns: seq<Node>, needle: TagData)
    ensures forall t :: t in TagsMatchedIn(ns, needle) ==> TagImplies(needle, t)
    decreases ns, 0
  {
    if ns != [] {
      TagsMatchedInSound(ns[..|ns| - 1], needle);
      TagsMatchedSound(ns[|ns| - 1], needle);
    }
  }

  /** The tag of a node the needle implies. */
  function TagHit(needle: TagData): Node -> seq<TagData>
  {
    (m: Node) => if m.tag.Some? && TagImplies(needle, m.tag.value) then [m.tag.value] else []
  }

  /** On a well-formed tree, `search_tag` yields exactly the tags the needle
      implies, in pre-order. */
  lemma {:induction false} TagsMatchedPreOrder(n: Node, needle: TagData)
    requires WellFormed(n)
    ensures TagsMatched(n, needle) == Collect(PreOrder(n), TagHit(needle))
    decreases n, 1
  {
    ChildrenWellFormed(n);
    TagsMatchedInPreOrder(n.children, needle);
    CollectAppend([n], PreOrderIn(n.children), TagHit(needle));
    CollectOne(n, TagHit(needle));
  }

  lemma {:induction false} TagsMatchedInPreOrder(ns: seq<Node>, needle: TagData)
    requires forall c :: c in ns ==> WellFormed(c)
    ensures TagsMatchedIn(ns, needle) == Collect(PreOrderIn(ns), TagHit(needle))
    decreases ns, 0
  {
    if ns != [] {
      TagsMatchedInPreOrder(ns[..|ns| - 1], needle);
      TagsMatchedPreOrder(ns[|ns| - 1], needle);
      CollectAppend(PreOrderIn(ns[..|ns| - 1]), PreOrder(ns[|ns| - 1]), TagHit(needle));
    }
  }

  /** Every tag of the tree that the needle implies is reported. */
  lemma TagsMatchedComplete(n: Node, needle: TagData, m: Node)
    requires WellFormed(n) && m in PreOrder(n)
    requires m.tag.Some? && TagImplies(needle, m.tag.value)
    ensures m.tag.value in TagsMatched(n, needle)
  {
    TagsMatchedPreOrder(n, needle);
    var i :| 0 <= i < |PreOrder(n)| && PreOrder(n)[i] == m;
    CollectIncludes(PreOrder(n), TagHit(needle), i, m.tag.value);
  }

  /** `search_tag_exe(res, dom, needle)`: `res` comes back extended. */
  method SearchTagExe(res: seq<TagData>, dom: Node, needle: TagData) returns (out: seq<TagData>)
    ensures out == res + TagsMatched(dom, needle)
    decreases dom, 1
  {
    out := res;
    if dom.tag.Some? {
      var tag := dom.tag.value;
      if TagImplies(needle, tag) {
        out := out + [tag];
      }
      out := SearchTagChildren(out, dom.children, needle);
    }
  }

  /** The loop of `search_tag_exe` over the children. */
  method SearchTagChildren(res: seq<TagData>, children: seq<Node>, needle: TagData) returns (out: seq<TagData>)
    ensures out == res + TagsMatchedIn(children, needle)
    decreases children, 0
  {
    out := res;
    for i := 0 to |children|
      invariant out == res + TagsMatchedIn(children[..i], needle)
    {
      assert children[..i + 1][..i] == children[..i];
      out := SearchTagExe(out, children[i], needle);
    }
    assert children[..|children|] == children;
  }

  /** `search_tag`: no result rather than an empty one. */
  method SearchTag(dom: Node, needle: TagData) returns (r: Option<seq<TagData>>)
    ensures r.None? <==> TagsMatched(dom, needle) == []
    ensures r.Some? ==> r.value == TagsMatched(dom, needle) && |r.value| > 0
  {
    var res := SearchTagExe([], dom, needle);
    assert res == TagsMatched(dom, needle);
    if |res| == 0 {
      return None;
    }
    return Some(res);
  }

  /* ---------- search_tag_from_name ---------- */

  /** Every Tag node of the tree holds its tag, which the walk unwraps. */
  predicate TagNodesHaveTags(n: Node)
    decreases n
  {
    (n.domType == TagType ==> n.tag.Some?) && forall c :: c in n.children ==> TagNodesHaveTags(c)
  }

  /** `search_tag_from_name_exe` on one node: only Tag nodes are reported and
      walked into. */
  function TagsNamed(n: Node, name: string): (r: seq<TagData>)
    requires TagNodesHaveTags(n)
    ensures forall t :: t in r ==> t.name == name
    decreases n
  {
    if n.domType == TagType then
      (if n.tag.value.name == name then [n.tag.value] else []) + TagsNamedIn(n.children, name)
    else []
  }

  function TagsNamedIn(ns: seq<Node>, name: string): (r: seq<TagData>)
    requires forall c :: c in ns ==> TagNodesHaveTags(c)
    ensures forall t :: t in r ==> t.name == name
    decreases ns
  {
    if ns == [] then []
    else TagsNamedIn(ns[..|ns| - 1], name) + TagsNamed(ns[|ns| - 1], name)
  }

  function NameHit(name: string): Node -> seq<TagData>
  {
    (m: Node) => if m.domType == TagType && m.tag.Some? && m.tag.value.name == name then [m.tag.value] else []
  }

  /** On a well-formed tree, `search_tag_from_name` yields exactly the tags
      named `name`, in pre-order. */
  lemma {:induction false} TagsNamedPreOrder(n: Node, name: string)
    requires WellFormed(n) && TagNodesHaveTags(n)
    ensures TagsNamed(n, name) == Collect(PreOrder(n), NameHit(name))
    decreases n, 1
  {
    ChildrenWellFormed(n);
    TagsNamedInPreOrder(n.children, name);
    CollectAppend([n], PreOrderIn(n.children), NameHit(name));
    CollectOne(n, NameHit(name));
  }

  lemma {:induction false} TagsNamedInPreOrder(ns: seq<Node>, name: string)
    requires forall c :: c in ns ==> WellFormed(c)
    requires forall c :: c in ns ==> TagNodesHaveTags(c)
    ensures TagsNamedIn(ns, name) == Collect(PreOrderIn(ns), NameHit(name))
    decreases ns, 0
  {
    if ns != [] {
      TagsNamedInPreOrder(ns[..|ns| - 1], name);
      TagsNamedPreOrder(ns[|ns| - 1], name);
      CollectAppend(PreOrderIn(ns[..|ns| - 1]), PreOrder(ns[|ns| - 1]), NameHit(name));
    }
  }

  method SearchTagFromNameExe(res: seq<TagData>, dom: Node, name: string) returns (out: seq<TagData>)
    requires TagNodesHaveTags(dom)
    ensures out == res + TagsNamed(dom, name)
    decreases dom, 1
  {
    out := res;
    if dom.domType == TagType {
      var tag := dom.tag.value;
      if name == tag.name {
        out := out + [tag];
      }
      out := SearchTagFromNameChildren(out, dom.children, name);
    }
  }

  /** The loop of `search_tag_from_name_exe` over the children. */
  method SearchTagFromNameChildren(res: seq<TagData>, children: seq<Node>, name: string) returns (out: seq<TagData>)
    requires forall c :: c in children ==> TagNodesHaveTags(c)
    ensures out == res + TagsNamedIn(children, name)
    decreases children, 0
  {
    out := res;
    for i := 0 to |children|
      invariant out == res + TagsNamedIn(children[..i], name)
    {
      assert children[..i + 1][..i] == children[..i];
      out := SearchTagFromNameExe(out, children[i], name);
    }
    assert children[..|children|] == children;
  }

  method SearchTagFromName(dom: Node, name: string) returns (r: Option<seq<TagData>>)
    requires TagNodesHaveTags(dom)
    ensures r.None? <==> TagsNamed(dom, name) == []
    ensures r.Some? ==> r.value == TagsNamed(dom, name) && |r.value| > 0
  {
    var res := SearchTagFromNameExe([], dom, name);
    assert res == TagsNamed(dom, name);
    if |res| == 0 {
      return None;
    }
    return Some(res);
  }

  /* ---------- search_text_from_tag_children ---------- */

  /** The text payload of a node, if it has one. */
  function TextOf(): Node -> seq<string>
  {
    (m: Node) => if m.text.Some? then [m.text.value] else []
  }

  /** `search_text_from_tag_children_exe` on one node: for a tag the needle
      implies, the texts of its direct children, then what the children's
      walks yield. */
  function ChildTexts(n: Node, needle: TagData): (r: seq<string>)
    decreases n
  {
    if n.tag.Some? then
      (if TagImplies(needle, n.tag.value) then Collect(n.children, TextOf()) else [])
      + ChildTextsIn(n.children, needle)
    else []
  }

  function ChildTextsIn(ns: seq<Node>, needle: TagData): (r: seq<string>)
    decreases ns
  {
    if ns == [] then []
    else ChildTextsIn(ns[..|ns| - 1], needle) + ChildTexts(ns[|ns| - 1], needle)
  }

  function TextHit(needle: TagData): Node -> seq<string>
  {
    (m: Node) => if m.tag.Some? && TagImplies(needle, m.tag.value) then Collect(m.children, TextOf()) else []
  }

  /** On a well-formed tree, `search_text_from_tag_children` yields, in
      pre-order of the matched tags, the texts of their direct children. */
  lemma {:induction false} ChildTextsPreOrder(n: Node, needle: TagData)
    requires WellFormed(n)
    ensures ChildTexts(n, needle) == Collect(PreOrder(n), TextHit(needle))
    decreases n, 1
  {
    ChildrenWellFormed(n);
    ChildTextsInPreOrder(n.children, needle);
    CollectAppend([n], PreOrderIn(n.children), TextHit(needle));
    CollectOne(n, TextHit(needle));
  }

  lemma {:induction false} ChildTextsInPreOrder(ns: seq<Node>, needle: TagData)
    requires forall c :: c in ns ==> WellFormed(c)
    ensures ChildTextsIn(ns, needle) == Collect(PreOrderIn(ns), TextHit(needle))
    decreases ns, 0
  {
    if ns != [] {
      ChildTextsInPreOrder(ns[..|ns| - 1], needle);
      ChildTextsPreOrder(ns[|ns| - 1], needle);
      CollectAppend(PreOrderIn(ns[..|ns| - 1]), PreOrder(ns[|ns| - 1]), TextHit(needle));
    }
  }

  /** Only the texts of direct children are reported: a text deeper down
      counts only through its own parent's tag. */
  lemma DirectTextsOnly(ns: seq<Node>, s: string)
    requires s in Collect(ns, TextOf())
    ensures exists i :: 0 <= i < |ns| && ns[i].text == Some(s)
  {
    CollectMember(ns, TextOf(), s);
  }

  /** The first loop of `search_text_from_tag_children_exe`: the text of each
      child that has one, pushed in order. */
  method PushTexts(res: seq<string>, children: seq<Node>) returns (out: seq<string>)
    ensures out == res + Collect(children, TextOf())
  {
    out := res;
    for i := 0 to |children|
      invariant out == res + Collect(children[..i], TextOf())
    {
      assert children[..i + 1][..i] == children[..i];
      if children[i].text.Some? {
        out := out + [children[i].text.value];
      }
    }
    assert children[..|children|] == children;
  }

  method SearchTextExe(res: seq<string>, dom: Node, needle: TagData) returns (out: seq<string>)
    ensures out == res + ChildTexts(dom, needle)
    decreases dom, 1
  {
    out := res;
    if dom.tag.Some? {
      var tag := dom.tag.value;
      var children := dom.children;
      if TagImplies(needle, tag) {
        out := PushTexts(out, children);
      }
      out := SearchTextChildren(out, children, needle);
    }
  }

  /** The second loop of `search_text_from_tag_children_exe`: the walk into
      each child. */
  method SearchTextChildren(res: seq<string>, children: seq<Node>, needle: TagData) returns (out: seq<string>)
    ensures out == res + ChildTextsIn(children, needle)
    decreases children, 0
  {
    out := res;
    for i := 0 to |children|
      invariant out == res + ChildTextsIn(children[..i], needle)
    {
      assert children[..i + 1][..i] == children[..i];
      out := SearchTextExe(out, children[i], needle);
    }
    assert children[..|children|] == children;
  }

  method SearchTextFromTagChildren(dom: Node, needle: TagData) returns (r: Option<seq<string>>)
    ensures r.None? <==> ChildTexts(dom, needle) == []
    ensures r.Some? ==> r.value == ChildTexts(dom, needle) && |r.value| > 0
  {
    var res := SearchTextExe([], dom, needle);
    assert res == ChildTexts(dom, needle);
    if |res| == 0 {
      return None;
    }
    return Some(res);
  }

  /* ---------- search_attr ---------- */

  /** `search_attr_exe` on one node: the value of `key` on a Tag node that
      has it, then the children's, walking into every node. */
  function AttrValues(n: Node, key: string): (r: seq<string>)
    decreases n
  {
    (if n.domType == TagType && n.tag.Some? && AttrValue(n.tag.value, key).Some?
     then [AttrValue(n.tag.value, key).value] else [])
    + AttrValuesIn(n.children, key)
  }

  function AttrValuesIn(ns: seq<Node>, key: string): (r: seq<string>)
    decreases ns
  {
    if ns == [] then []
    else AttrValuesIn(ns[..|ns| - 1], key) + AttrValues(ns[|ns| - 1], key)
  }

  function AttrHit(key: string): Node -> seq<string>
  {
    (m: Node) => if m.domType == TagType && m.tag.Some? && AttrValue(m.tag.value, key).Some?
         then [AttrValue(m.tag.value, key).value] else []
  }

  /** On any tree, `search_attr` yields the value of `key` of every Tag node
      that has it, in pre-order. */
  lemma {:induction false} AttrValuesPreOrder(n: Node, key: string)
    ensures AttrValues(n, key) == Collect(PreOrder(n), AttrHit(key))
    decreases n, 1
  {
    AttrValuesInPreOrder(n.children, key);
    CollectAppend([n], PreOrderIn(n.children), AttrHit(key));
    CollectOne(n, AttrHit(key));
  }

  lemma {:induction false} AttrValuesInPreOrder(ns: seq<Node>, key: string)
    ensures AttrValuesIn(ns, key) == Collect(PreOrderIn(ns), AttrHit(key))
    decreases ns, 0
  {
    if ns != [] {
      AttrValuesInPreOrder(ns[..|ns| - 1], key);
      AttrValuesPreOrder(ns[|ns| - 1], key);
      CollectAppend(PreOrderIn(ns[..|ns| - 1]), PreOrder(ns[|ns| - 1]), AttrHit(key));
    }
  }

  /** The number of nodes of a list that are Tag nodes carrying `key`. */
  function CountWithAttr(ns: seq<Node>, key: string): (r: nat)
    ensures r <= |ns|
  {
    if ns == [] then 0
    else CountWithAttr(ns[..|ns| - 1], key)
         + (var m := ns[|ns| - 1];
            if m.domType == TagType && m.tag.Some? && AttrValue(m.tag.value, key).Some? then 1 else 0)
  }

  /** One value per Tag node carrying the attribute, no more and no less. */
  lemma {:induction false} AttrValuesCount(n: Node, key: string)
    ensures |AttrValues(n, key)| == CountWithAttr(PreOrder(n), key)
  {
    AttrValuesPreOrder(n, key);
    CollectCount(PreOrder(n), key);
  }

  lemma {:induction false} CollectCount(ns: seq<Node>, key: string)
    ensures |Collect(ns, AttrHit(key))| == CountWithAttr(ns, key)
    decreases |ns|
  {
    if ns != [] {
      CollectCount(ns[..|ns| - 1], key);
    }
  }

  method SearchAttrExe(res: seq<string>, dom: Node, attr: string) returns (out: seq<string>)
    ensures out == res + AttrValues(dom, attr)
    decreases dom, 1
  {
    out := res;
    if dom.domType == TagType {
      if dom.tag.Some? {
        var value := AttrValue(dom.tag.value, attr);
        if value.Some? {
          out := out + [value.value];
        }
      }
    }
    out := SearchAttrChildren(out, dom.children, attr);
  }

  /** The loop of `search_attr_exe` over the children. */
  method SearchAttrChildren(res: seq<string>, children: seq<Node>, attr: string) returns (out: seq<string>)
    ensures out == res + AttrValuesIn(children, attr)
    decreases children, 0
  {
    out := res;
    for i := 0 to |children|
      invariant out == res + AttrValuesIn(children[..i], attr)
    {
      assert children[..i + 1][..i] == children[..i];
      out := SearchAttrExe(out, children[i], attr);
    }
    assert children[..|children|] == children;
  }

  method SearchAttr(dom: Node, attr: string) returns (r: Option<seq<string>>)
    ensures r.None? <==> AttrValues(dom, attr) == []
    ensures r.Some? ==> r.value == AttrValues(dom, attr) && |r.value| > 0
  {
    var res := SearchAttrExe([], dom, attr);
    assert res == AttrValues(dom, attr);
    if |res| == 0 {
      return None;
    }
    return Some(res);
  }

  /* ---------- search_dom ---------- */

  /** The needle tree matches the candidate: `p_implies_q` on the roots and
      `p_implies_q_tree` below them. */
  predicate Matches(needle: Node, q: Node)
  {
    NodeImplies(needle, q) && TreeImplies(needle, q)
  }

  /** `search_dom_exe` on one node: a matching node is copied whole and not
      searched further; otherwise its children are searched. */
  function DomMatches(n: Node, needle: Node): (r: seq<Node>)
    ensures forall m :: m in r ==> Matches(needle, m)
    decreases n
  {
    if Matches(needle, n) then [n] else DomMatchesIn(n.children, needle)
  }

  function DomMatchesIn(ns: seq<Node>, needle: Node): (r: seq<Node>)
    ensures forall m :: m in r ==> Matches(needle, m)
    decreases ns
  {
    if ns == [] then []
    else DomMatchesIn(ns[..|ns| - 1], needle) + DomMatches(ns[|ns| - 1], needle)
  }

  /** A node of the pre-order listing, marked when a strict ancestor of it
      matches the needle. */
  datatype Visit = Visit(node: Node, covered: bool)

  /** The pre-order listing of `n`, each node marked. */
  function Visits(n: Node, needle: Node, covered: bool): (r: seq<Visit>)
    decreases n
  {
    [Visit(n, covered)] + VisitsIn(n.children, needle, covered || Matches(needle, n))
  }

  function VisitsIn(ns: seq<Node>, needle: Node, covered: bool): (r: seq<Visit>)
    decreases ns
  {
    if ns == [] then []
    else VisitsIn(ns[..|ns| - 1], needle, covered) + Visits(ns[|ns| - 1], needle, covered)
  }

  function NodeOf(): Visit -> seq<Node>
  {
    (v: Visit) => [v.node]
  }

  /** A matching node none of whose strict ancestors matches. */
  function Reported(needle: Node): Visit -> seq<Node>
  {
    (v: Visit) => if !v.covered && Matches(needle, v.node) then [v.node] else []
  }

  /** The marked listing lists exactly the nodes of the pre-order. */
  lemma {:induction false} VisitsArePreOrder(n: Node, needle: Node, covered: bool)
    ensures Collect(Visits(n, needle, covered), NodeOf()) == PreOrder(n)
    decreases n, 1
  {
    var c := covered || Matches(needle, n);
    VisitsInArePreOrder(n.children, needle, c);
    CollectAppend([Visit(n, covered)], VisitsIn(n.children, needle, c), NodeOf());
    CollectOne(Visit(n, covered), NodeOf());
  }

  lemma {:induction false} VisitsInArePreOrder(ns: seq<Node>, needle: Node, covered: bool)
    ensures Collect(VisitsIn(ns, needle, covered), NodeOf()) == PreOrderIn(ns)
    decreases ns, 0
  {
    if ns != [] {
      VisitsInArePreOrder(ns[..|ns| - 1], needle, covered);
      VisitsArePreOrder(ns[|ns| - 1], needle, covered);
      CollectAppend(VisitsIn(ns[..|ns| - 1], needle, covered), Visits(ns[|ns| - 1], needle, covered), NodeOf());
    }
  }

  /** `search_dom` yields, in pre-order, exactly the matching nodes that have
      no matching strict ancestor: every such maximal match, and no match
      inside another. */
  lemma {:induction false} DomMatchesMaximal(n: Node, needle: Node, covered: bool)
    ensures Collect(Visits(n, needle, covered), Reported(needle))
            == (if covered then [] else DomMatches(n, needle))
    decreases n, 1
  {
    var c := covered || Matches(needle, n);
    DomMatchesInMaximal(n.children, needle, c);
    CollectAppend([Visit(n, covered)], VisitsIn(n.children, needle, c), Reported(needle));
    CollectOne(Visit(n, covered), Reported(needle));
  }

  lemma {:induction false} DomMatchesInMaximal(ns: seq<Node>, needle: Node, covered: bool)
    ensures Collect(VisitsIn(ns, needle, covered), Reported(needle))
            == (if covered then [] else DomMatchesIn(ns, needle))
    decreases ns, 0
  {
    if ns != [] {
      DomMatchesInMaximal(ns[..|ns| - 1], needle, covered);
      DomMatchesMaximal(ns[|ns| - 1], needle, covered);
      CollectAppend(VisitsIn(ns[..|ns| - 1], needle, covered), Visits(ns[|ns| - 1], needle, covered), Reported(needle));
    }
  }

  /** Every match is a subtree of the searched tree. */
  lemma {:induction false} DomMatchesAreSubtrees(n: Node, needle: Node)
    ensures forall m :: m in DomMatches(n, needle) ==> m in PreOrder(n)
    decreases n, 1
  {
    if !Matches(needle, n) {
      DomMatchesInAreSubtrees(n.children, needle);
    }
  }

  lemma {:induction false} DomMatchesInAreSubtrees(ns: seq<Node>, needle: Node)
    ensures forall m :: m in DomMatchesIn(ns, needle) ==> m in PreOrderIn(ns)
    decreases ns, 0
  {
    if ns != [] {
      DomMatchesInAreSubtrees(ns[..|ns| - 1], needle);
      DomMatchesAreSubtrees(ns[|ns| - 1], needle);
    }
  }

  /** Every node of the tree that matches lies within some reported match. */
  lemma {:induction false} DomMatchesCover(n: Node, needle: Node, m: Node)
    requires m in PreOrder(n) && Matches(needle, m)
    ensures exists r :: r in DomMatches(n, needle) && m in PreOrder(r)
    decreases n, 1
  {
    if Matches(needle, n) {
      assert n in DomMatches(n, needle);
    } else {
      assert m != n && m in PreOrderIn(n.children);
      DomMatchesInCover(n.children, needle, m);
    }
  }

  lemma {:induction false} DomMatchesInCover(ns: seq<Node>, needle: Node, m: Node)
    requires m in PreOrderIn(ns) && Matches(needle, m)
    ensures exists r :: r in DomMatchesIn(ns, needle) && m in PreOrder(r)
    decreases ns, 0
  {
    var init, last := ns[..|ns| - 1], ns[|ns| - 1];
    if m in PreOrderIn(init) {
      DomMatchesInCover(init, needle, m);
      var r :| r in DomMatchesIn(init, needle) && m in PreOrder(r);
      assert r in DomMatchesIn(ns, needle);
    } else {
      DomMatchesCover(last, needle, m);
      var r :| r in DomMatches(last, needle) && m in PreOrder(r);
      assert r in DomMatchesIn(ns, needle);
    }
  }

  /** `search_dom_exe(res, dom, needle)`: matches are appended to `res`. */
  method SearchDomExe(res: Dom, dom: Node, needle: Node)
    modifies res
    ensures res.Value() == old(res.Value()).(children := old(res.children) + DomMatches(dom, needle))
    decreases dom
  {
    if NodeImplies(needle, dom) {
      if TreeImplies(needle, dom) {
        res.AddChild(dom);
        return;
      }
    }
    ghost var start := res.children;
    var children := dom.children;
    for i := 0 to |children|
      invariant res.Value() == old(res.Value()).(children := start + DomMatchesIn(children[..i], needle))
    {
      assert children[..i + 1][..i] == children[..i];
      SearchDomExe(res, children[i], needle);
    }
    assert children[..|children|] == children;
  }

  /** `search_dom`: the matches as children of a fresh root, or no result. */
  method SearchDom(dom: Node, needle: Node) returns (r: Option<Node>)
    ensures r.None? <==> DomMatches(dom, needle) == []
    ensures r.Some? ==> r.value == RootNode().(children := DomMatches(dom, needle))
  {
    var res := new Dom.NewRoot();
    SearchDomExe(res, dom, needle);
    assert res.children == [] + DomMatches(dom, needle);
    assert [] + DomMatches(dom, needle) == DomMatches(dom, needle);
    match res.GetChildren()
    case Some(_) => return Some(res.Value());
    case None => return None;
  }

  /** With a childless needle only the roots are compared. */
  lemma LeafNeedle(needle: Node, q: Node)
    requires needle.children == []
    ensures Matches(needle, q) <==> NodeImplies(needle, q)
  {
    LeafPatternImpliesAny(needle, q);
  }

  /* ---------- The documented list ---------- */

  /** An `li` element holding one text. */
  function ListItem(tag: TagData, text: string): Node
  {
    TagNode(tag).(children := [TextNode(text)])
  }

  /** The tags of the three items: `class` target, no attribute, and `id`
      third with `class` target. */
  function FirstItemTag(): TagData
  {
    TagData("li", Some(map["class" := "target"]), false, false)
  }

  function SecondItemTag(): TagData
  {
    TagData("li", None, false, false)
  }

  function ThirdItemTag(): TagData
  {
    TagData("li", Some(map["id" := "third", "class" := "target"]), false, false)
  }

  function ExampleItems(): seq<Node>
  {
    [ListItem(FirstItemTag(), "first"),
     ListItem(SecondItemTag(), "second"),
     ListItem(ThirdItemTag(), "therd")]
  }

  /** The `ol` of three items from the crate's examples, built by hand. */
  function ExampleList(): Node
  {
    TagNode(TagData("ol", None, false, false)).(children := ExampleItems())
  }

  /** The needle of the examples: `li` with class `target`. */
  function TargetItem(): TagData
  {
    TagData("li", Some(map["class" := "target"]), false, false)
  }

  /** An item the needle implies reports its tag and its text. */
  lemma ItemReports(tag: TagData, text: string)
    requires TagImplies(TargetItem(), tag)
    ensures TagsMatched(ListItem(tag, text), TargetItem()) == [tag]
    ensures ChildTexts(ListItem(tag, text), TargetItem()) == [text]
  {
    var kids := ListItem(tag, text).children;
    assert kids[..0] == [];
    assert TagsMatchedIn(kids, TargetItem()) == [];
    assert ChildTextsIn(kids, TargetItem()) == [];
    CollectOne(kids[0], TextOf());
  }

  /** An item the needle does not imply reports nothing. */
  lemma ItemSilent(tag: TagData, text: string)
    requires !TagImplies(TargetItem(), tag)
    ensures TagsMatched(ListItem(tag, text), TargetItem()) == []
    ensures ChildTexts(ListItem(tag, text), TargetItem()) == []
  {
    var kids := ListItem(tag, text).children;
    assert kids[..0] == [];
    assert TagsMatchedIn(kids, TargetItem()) == [];
    assert ChildTextsIn(kids, TargetItem()) == [];
  }

  /** The first and third items match `li{class:target}`, the second does not. */
  lemma ItemsAgainstTarget()
    ensures TagImplies(TargetItem(), FirstItemTag())
    ensures !TagImplies(TargetItem(), SecondItemTag())
    ensures TagImplies(TargetItem(), ThirdItemTag())
  {
    assert "class" in TargetItem().attr.value;
  }

  /** A three-node list reports what its nodes report, in order. */
  lemma ThreeInOrder(a: Node, b: Node, c: Node, needle: TagData)
    ensures TagsMatchedIn([a, b, c], needle)
            == TagsMatched(a, needle) + TagsMatched(b, needle) + TagsMatched(c, needle)
    ensures ChildTextsIn([a, b, c], needle)
            == ChildTexts(a, needle) + ChildTexts(b, needle) + ChildTexts(c, needle)
  {
    assert [a, b, c][..2] == [a, b];
    assert [a, b][..1] == [a];
    assert [a][..0] == [];
    assert TagsMatchedIn([a], needle) == TagsMatched(a, needle);
    assert TagsMatchedIn([a, b], needle) == TagsMatched(a, needle) + TagsMatched(b, needle);
    assert ChildTextsIn([a], needle) == ChildTexts(a, needle);
    assert ChildTextsIn([a, b], needle) == ChildTexts(a, needle) + ChildTexts(b, needle);
  }

  /** The `ol` itself does not match, so only its items report. */
  lemma ListRootSilent()
    ensures TagsMatched(ExampleList(), TargetItem()) == TagsMatchedIn(ExampleItems(), TargetItem())
    ensures ChildTexts(ExampleList(), TargetItem()) == ChildTextsIn(ExampleItems(), TargetItem())
  {
    assert !TagImplies(TargetItem(), ExampleList().tag.value);
  }

  /** `search_tag` on the list yields the first and third items' tags. */
  lemma ListTagsExample()
    ensures TagsMatched(ExampleList(), TargetItem()) == [FirstItemTag(), ThirdItemTag()]
  {
    ListRootSilent();
    ItemsAgainstTarget();
    ItemReports(FirstItemTag(), "first");
    ItemSilent(SecondItemTag(), "second");
    ItemReports(ThirdItemTag(), "therd");
    ThreeInOrder(ListItem(FirstItemTag(), "first"), ListItem(SecondItemTag(), "second"),
                 ListItem(ThirdItemTag(), "therd"), TargetItem());
  }

  /** `search_text_from_tag_children` on the list yields "first", "therd". */
  lemma ListTextsExample()
    ensures ChildTexts(ExampleList(), TargetItem()) == ["first", "therd"]
  {
    ListRootSilent();
    ItemsAgainstTarget();
    ItemReports(FirstItemTag(), "first");
    ItemSilent(SecondItemTag(), "second");
    ItemReports(ThirdItemTag(), "therd");
    ThreeInOrder(ListItem(FirstItemTag(), "first"), ListItem(SecondItemTag(), "second"),
                 ListItem(ThirdItemTag(), "therd"), TargetItem());
  }

  /* ---------- The documented subtree search ---------- */

  /** A tag with one `class` attribute, and one with an `id` as well. */
  function Classed(name: string, cls: string): TagData
  {
    TagData(name, Some(map["class" := cls]), false, false)
  }

  function IdClassed(name: string, id: string, cls: string): TagData
  {
    TagData(name, Some(map["id" := id, "class" := cls]), false, false)
  }

  function Plain(name: string): TagData
  {
    TagData(name, None, false, false)
  }

  function Element(tag: TagData, children: seq<Node>): Node
  {
    TagNode(tag).(children := children)
  }

  /** The needle: `ul` with class `targetList` over two empty `li` items with
      classes `key1` and `key2`. */
  function TargetList(): Node
  {
    Element(Classed("ul", "targetList"),
            [Element(Classed("li", "key1"), []), Element(Classed("li", "key2"), [])])
  }

  function List1(): Node
  {
    Element(IdClassed("ul", "list1", "targetList"),
            [Element(Classed("li", "key1"), [TextNode("1-1")]),
             Element(Classed("li", "key2"), [Element(Plain("span"), [TextNode("1-2")])])])
  }

  function List2(): Node
  {
    Element(TagData("ul", Some(map["id" := "list2"]), false, false),
            [Element(Classed("li", "key1"), [TextNode("2-1")]),
             Element(Plain("li"), [TextNode("2-2")])])
  }

  function List3(): Node
  {
    Element(IdClassed("ul", "list3", "targetList"),
            [Element(Classed("li", "key1"), [TextNode("3-1")]),
             Element(Classed("li", "item"), [TextNode("3-2")]),
             Element(Classed("li", "key2"), [TextNode("3-3")])])
  }

  /** The outer `ul` of the third list: the right class, but its only child
      is a `ul`, so no child satisfies the needle's `li` items. */
  function OuterList(): Node
  {
    Element(Classed("ul", "targetList"), [List3()])
  }

  function List4(): Node
  {
    Element(TagData("ul", Some(map["id" := "list4"]), false, false),
            [Element(Classed("li", "key1"), [TextNode("4-1")]),
             Element(Classed("li", "key2"), [TextNode("4-2")])])
  }

  /** The parsed document, built by hand: the root over `body`. */
  function ListsDocument(): Node
  {
    RootNode().(children := [Body()])
  }

  function Body(): Node
  {
    Element(Plain("body"), [List1(), List2(), OuterDiv(), List4()])
  }

  /** The two `div`s around the third list. */
  function OuterDiv(): Node
  {
    Element(Plain("div"), [InnerDiv()])
  }

  function InnerDiv(): Node
  {
    Element(Plain("div"), [OuterList()])
  }

  /** No node of `n` is a Tag node named `name`. */
  predicate NoneNamed(n: Node, name: string)
    decreases n
  {
    && (n.tag.None? || n.tag.value.name != name)
    && forall i :: 0 <= i < |n.children| ==> NoneNamed(n.children[i], name)
  }

  /** A tree without a node named like the needle's root holds no match. */
  lemma {:induction false} DomMatchesNoneNamed(n: Node, needle: Node)
    requires needle.domType == TagType && needle.tag.Some?
    requires NoneNamed(n, needle.tag.value.name)
    ensures DomMatches(n, needle) == []
    decreases n, 1
  {
    DomMatchesInNoneNamed(n.children, needle);
  }

  lemma {:induction false} DomMatchesInNoneNamed(ns: seq<Node>, needle: Node)
    requires needle.domType == TagType && needle.tag.Some?
    requires forall i :: 0 <= i < |ns| ==> NoneNamed(ns[i], needle.tag.value.name)
    ensures DomMatchesIn(ns, needle) == []
    decreases ns, 0
  {
    if ns != [] {
      DomMatchesInNoneNamed(ns[..|ns| - 1], needle);
      DomMatchesNoneNamed(ns[|ns| - 1], needle);
    }
  }

  /** A node the needle does not match reports what its children do. */
  lemma DomMatchesPassOver(n: Node, needle: Node)
    requires !Matches(needle, n)
    ensures DomMatches(n, needle) == DomMatchesIn(n.children, needle)
  {
  }

  lemma DomMatchesInOne(a: Node, needle: Node)
    ensures DomMatchesIn([a], needle) == DomMatches(a, needle)
  {
    assert [a][..0] == [];
  }

  lemma DomMatchesInFour(a: Node, b: Node, c: Node, d: Node, needle: Node)
    ensures DomMatchesIn([a, b, c, d], needle)
            == DomMatches(a, needle) + DomMatches(b, needle) + DomMatches(c, needle)
               + DomMatches(d, needle)
  {
    assert [a, b, c, d][..3] == [a, b, c];
    assert [a, b, c][..2] == [a, b];
    assert [a, b][..1] == [a];
    assert [a][..0] == [];
    assert DomMatchesIn([a], needle) == DomMatches(a, needle);
    assert DomMatchesIn([a, b], needle) == DomMatches(a, needle) + DomMatches(b, needle);
    assert DomMatchesIn([a, b, c], needle)
           == DomMatches(a, needle) + DomMatches(b, needle) + DomMatches(c, needle);
  }

  /** The first and third lists satisfy the needle: the class, and an item
      for each of the needle's items. */
  lemma TargetListsMatch()
    ensures DomMatches(List1(), TargetList()) == [List1()]
    ensures DomMatches(List3(), TargetList()) == [List3()]
  {
    var needle := TargetList();
    var key1, key2 := needle.children[0], needle.children[1];
    assert TagImplies(Classed("ul", "targetList"), IdClassed("ul", "list1", "targetList"));
    assert TagImplies(Classed("ul", "targetList"), IdClassed("ul", "list3", "targetList"));
    assert NodeImplies(key1, List1().children[0]) && TreeImplies(key1, List1().children[0]);
    assert NodeImplies(key2, List1().children[1]) && TreeImplies(key2, List1().children[1]);
    assert NodeImplies(key1, List3().children[0]) && TreeImplies(key1, List3().children[0]);
    assert NodeImplies(key2, List3().children[2]) && TreeImplies(key2, List3().children[2]);
    assert Matches(needle, List1());
    assert Matches(needle, List3());
  }

  /** The second and fourth lists lack the class, and hold no `ul` below. */
  lemma UnclassedListsSilent()
    ensures DomMatches(List2(), TargetList()) == []
    ensures DomMatches(List4(), TargetList()) == []
  {
    var needle := TargetList();
    assert !NodeImplies(needle, List2()) by {
      assert "class" !in List2().tag.value.attr.value;
    }
    assert !NodeImplies(needle, List4()) by {
      assert "class" !in List4().tag.value.attr.value;
    }
    DomMatchesPassOver(List2(), needle);
    DomMatchesPassOver(List4(), needle);
    DomMatchesInNoneNamed(List2().children, needle);
    DomMatchesInNoneNamed(List4().children, needle);
  }

  /** The outer `ul` of the third list has the class but not the items, so the
      search goes down to the third list. */
  lemma OuterListPassesDown()
    ensures DomMatches(OuterList(), TargetList()) == [List3()]
  {
    var needle := TargetList();
    var key1 := needle.children[0];
    assert !NodeImplies(key1, List3());
    assert !TreeImplies(needle, OuterList()) by {
      assert key1 in needle.children;
      assert forall qc :: qc in OuterList().children ==> qc == List3();
    }
    DomMatchesPassOver(OuterList(), needle);
    DomMatchesInOne(List3(), needle);
    TargetListsMatch();
  }

  /** Below the two `div`s only the third list matches. */
  lemma DivsPassDown()
    ensures DomMatches(OuterDiv(), TargetList()) == [List3()]
  {
    var needle := TargetList();
    assert !NodeImplies(needle, OuterDiv()) && !NodeImplies(needle, InnerDiv());
    DomMatchesPassOver(OuterDiv(), needle);
    DomMatchesInOne(InnerDiv(), needle);
    DomMatchesPassOver(InnerDiv(), needle);
    DomMatchesInOne(OuterList(), needle);
    OuterListPassesDown();
  }

  /** In `body`, the first list and, below the `div`s, the third. */
  lemma BodyExample()
    ensures DomMatches(Body(), TargetList()) == [List1(), List3()]
  {
    var needle := TargetList();
    assert !NodeImplies(needle, Body());
    DomMatchesPassOver(Body(), needle);
    DomMatchesInFour(List1(), List2(), OuterDiv(), List4(), needle);
    TargetListsMatch();
    UnclassedListsSilent();
    DivsPassDown();
    JoinTwoOfFour(DomMatches(List1(), needle), DomMatches(List2(), needle),
                  DomMatches(OuterDiv(), needle), DomMatches(List4(), needle), List1(), List3());
  }

  lemma JoinTwoOfFour(a: seq<Node>, b: seq<Node>, c: seq<Node>, d: seq<Node>, x: Node, y: Node)
    requires a == [x] && b == [] && c == [y] && d == []
    ensures a + b + c + d == [x, y]
  {
  }

  /** `search_dom` on the documented lists yields the first and the third
      list, each copied whole. */
  lemma ListsDocumentExample()
    ensures DomMatches(ListsDocument(), TargetList()) == [List1(), List3()]
  {
    var needle := TargetList();
    assert !NodeImplies(needle, ListsDocument());
    DomMatchesPassOver(ListsDocument(), needle);
    DomMatchesInOne(Body(), needle);
    BodyExample();
  }
}
