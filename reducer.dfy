/** The tree builder of src/parser/mod.rs: `search_terminator`,
    `create_dom_tree` and `parse`. The fragment list is consumed from the
    front; an opening tag whose closing tag lies ahead takes the following
    fragments as children, up to the first closing tag of any name. `Reduce`
    states what one call of `create_dom_tree` appends and what it leaves in the
    list; the method does it with the source's loop and recursion. */
module Reducer {
  import opened Common
  import opened Scan
  import opened Tags
  import opened Doms
  import opened Lexer

  /** A closing tag such as `</li>`. */
  predicate IsCloser(n: Node)
  {
    n.domType == TagType && n.tag.Some? && n.tag.value.terminator
  }

  /** A closing tag with the given name. */
  predicate ClosesFor(n: Node, name: string)
  {
    IsCloser(n) && n.tag.value.name == name
  }

  /** Every Tag fragment carries its tag, which the builder unwraps. */
  predicate TagsPresent(frags: seq<Node>)
  {
    forall i :: 0 <= i < |frags| && frags[i].domType == TagType ==> frags[i].tag.Some?
  }

  /** The index of the first closing tag named `name`. */
  function TerminatorIndex(frags: seq<Node>, name: string): (r: Option<nat>)
    ensures r.Some? ==> r.value < |frags| && ClosesFor(frags[r.value], name)
    ensures r.Some? ==> forall k :: 0 <= k < r.value ==> !ClosesFor(frags[k], name)
    ensures r.None? <==> forall k :: 0 <= k < |frags| ==> !ClosesFor(frags[k], name)
  {
    if frags == [] then None
    else if ClosesFor(frags[0], name) then Some(0)
    else
      match TerminatorIndex(frags[1..], name)
      case None => None
      case Some(i) => Some(i + 1)
  }

  /** `search_terminator`: a read-only scan of the list. */
  method SearchTerminator(domVec: seq<Node>, starter: TagData) returns (r: Option<nat>)
    requires TagsPresent(domVec)
    ensures r == TerminatorIndex(domVec, starter.name)
  {
    var i := 0;
    while i < |domVec|
      invariant i <= |domVec|
      invariant forall k :: 0 <= k < i ==> !ClosesFor(domVec[k], starter.name)
    {
      var dom := domVec[i];
      if dom.domType == TagType {
        var tag := dom.tag.value;
        if tag.terminator {
          if starter.name == tag.name {
            return Some(i);
          }
        }
      }
      i := i + 1;
    }
    return None;
  }

  /** What one call of `create_dom_tree` appends to its parent, and the part
      of the list it leaves for its caller. */
  datatype Reduction = Reduction(kids: seq<Node>, rest: seq<Node>)

  /** One pass of the loop of `create_dom_tree`: either the call ends at a
      closing tag, or one node is ready to be appended to the parent. */
  datatype Step = Stop(rest: seq<Node>) | Emit(node: Node, rest: seq<Node>)

  /** One pass on a non-empty list. A closing tag ends the call and is dropped.
      An opening tag that is not self-closed and has a closing tag of its name
      ahead either loses that closing tag (when it comes next) or takes what a
      nested call appends as its children; the nested call stops at the first
      closing tag of any name. */
  function ReduceStep(frags: seq<Node>): (st: Step)
    requires TagsPresent(frags) && frags != []
    ensures |st.rest| < |frags| && st.rest == frags[|frags| - |st.rest|..]
    ensures st.Stop? <==> IsCloser(frags[0])
    ensures st.Stop? ==> st.rest == frags[1..]
    decreases |frags|, 0
  {
    var d, tail := frags[0], frags[1..];
    SuffixTagsPresent(frags, tail);
    if d.domType == TagType && d.tag.value.terminator then Stop(tail)
    else if d.domType == TagType && !d.tag.value.terminated
            && TerminatorIndex(tail, d.tag.value.name).Some? then
      if TerminatorIndex(tail, d.tag.value.name).value == 0 then Emit(d, tail[1..])
      else
        var inner := Reduce(tail);
        Emit(d.(children := d.children + inner.kids), inner.rest)
    else Emit(d, tail)
  }

  /** `create_dom_tree` on the list `frags`: the passes repeated until the list
      is empty or a closing tag ends the call. */
  function Reduce(frags: seq<Node>): (r: Reduction)
    requires TagsPresent(frags)
    ensures |r.rest| <= |frags| && r.rest == frags[|frags| - |r.rest|..]
    ensures frags != [] ==> |r.rest| < |frags|
    decreases |frags|, 1
  {
    if frags == [] then Reduction([], [])
    else
      match ReduceStep(frags)
      case Stop(rest) => Reduction([], rest)
      case Emit(n, rest) =>
        SuffixTagsPresent(frags, rest);
        var r := Reduce(rest);
        Reduction([n] + r.kids, r.rest)
  }

  lemma SuffixTagsPresent(frags: seq<Node>, suffix: seq<Node>)
    requires TagsPresent(frags)
    requires |suffix| <= |frags| && suffix == frags[|frags| - |suffix|..]
    ensures TagsPresent(suffix)
  {
    forall i | 0 <= i < |suffix| && suffix[i].domType == TagType ensures suffix[i].tag.Some? {
      assert suffix[i] == frags[|frags| - |suffix| + i];
    }
  }

  lemma FragmentsHaveTags(frags: seq<Node>)
    requires forall i :: 0 <= i < |frags| ==> IsFragment(frags[i])
    ensures TagsPresent(frags)
  {
    forall i | 0 <= i < |frags| && frags[i].domType == TagType ensures frags[i].tag.Some? {
      assert WellFormed(frags[i]);
    }
  }

  /** The body of the loop of `create_dom_tree`: removes the first fragment
      and, for an opening tag with children ahead, lets a nested call fill it. */
  method CreateStep(frags: seq<Node>) returns (st: Step)
    requires TagsPresent(frags) && frags != []
    ensures st == ReduceStep(frags)
    decreases |frags|, 0
  {
    var dom := frags[0];
    var rest := frags[1..];
    SuffixTagsPresent(frags, rest);
    if dom.domType == TagType {
      var tag := dom.tag.value;
      if tag.terminator {
        return Stop(rest);
      }
      if !tag.terminated {
        var idx := SearchTerminator(rest, tag);
        if idx.Some? {
          if idx.value == 0 {
            return Emit(dom, rest[1..]);
          }
          var child := new Dom.FromValue(dom);
          rest := CreateDomTree(rest, child);
          return Emit(child.Value(), rest);
        }
      }
    }
    return Emit(dom, rest);
  }

  /** Midway through a call on `frags`: the nodes `added` so far, followed by
      what a call on the remaining `rest` appends, are what the whole call
      appends, and it leaves what that call leaves. */
  ghost predicate Pending(frags: seq<Node>, added: seq<Node>, rest: seq<Node>)
  {
    && TagsPresent(frags) && TagsPresent(rest)
    && Reduce(frags) == Reduction(added + Reduce(rest).kids, Reduce(rest).rest)
  }

  lemma PendingStart(frags: seq<Node>)
    requires TagsPresent(frags)
    ensures Pending(frags, [], frags)
  {
    assert [] + Reduce(frags).kids == Reduce(frags).kids;
  }

  lemma PendingEmit(frags: seq<Node>, added: seq<Node>, here: seq<Node>, n: Node, rest: seq<Node>)
    requires Pending(frags, added, here) && here != [] && ReduceStep(here) == Emit(n, rest)
    ensures Pending(frags, added + [n], rest)
  {
    SuffixTagsPresent(here, rest);
    var tailKids := Reduce(rest).kids;
    assert added + [n] + tailKids == added + ([n] + tailKids);
    ReduceEmit(here, n, rest);
  }

  lemma PendingStop(frags: seq<Node>, added: seq<Node>, here: seq<Node>)
    requires Pending(frags, added, here) && here != [] && ReduceStep(here).Stop?
    ensures Reduce(frags) == Reduction(added, ReduceStep(here).rest)
  {
    assert added + [] == added;
  }

  lemma PendingDone(frags: seq<Node>, added: seq<Node>)
    requires Pending(frags, added, [])
    ensures Reduce(frags) == Reduction(added, [])
  {
    assert added + [] == added;
  }

  /** `create_dom_tree(dom_vec, parent)`: the list is passed in and what is
      left of it is returned. */
  method CreateDomTree(domVec: seq<Node>, parent: Dom) returns (rest: seq<Node>)
    requires TagsPresent(domVec)
    modifies parent
    ensures parent.Value() == old(parent.Value()).(children := old(parent.children) + Reduce(domVec).kids)
    ensures rest == Reduce(domVec).rest
    decreases |domVec|, 1
  {
    rest := domVec;
    ghost var added: seq<Node> := [];
    PendingStart(domVec);
    while rest != []
      invariant |rest| <= |domVec|
      invariant TagsPresent(rest)
      invariant parent.Value() == old(parent.Value()).(children := old(parent.children) + added)
      invariant Pending(domVec, added, rest)
      decreases |rest|
    {
      ghost var here := rest;
      var st := CreateStep(rest);
      if st.Stop? {
        PendingStop(domVec, added, here);
        return st.rest;
      }
      rest := st.rest;
      PendingEmit(domVec, added, here, st.node, rest);
      parent.AddChild(st.node);
      added := added + [st.node];
    }
    PendingDone(domVec, added);
  }

  /** A list the lexer produces: well-formed nodes without children. */
  predicate Fragments(frags: seq<Node>)
  {
    forall i :: 0 <= i < |frags| ==> IsFragment(frags[i])
  }

  lemma FragmentsSuffix(frags: seq<Node>, suffix: seq<Node>)
    requires Fragments(frags)
    requires |suffix| <= |frags| && suffix == frags[|frags| - |suffix|..]
    ensures Fragments(suffix) && TagsPresent(suffix)
  {
    forall i | 0 <= i < |suffix| ensures IsFragment(suffix[i]) {
      assert suffix[i] == frags[|frags| - |suffix| + i];
    }
    FragmentsHaveTags(suffix);
  }

  /** A node of the built tree: well-formed, never a closing tag, a
      self-closed tag has no children, and so on below. */
  predicate Built(n: Node)
    decreases n
  {
    && WellFormed(n) && !IsCloser(n)
    && (n.domType == TagType && n.tag.value.terminated ==> n.children == [])
    && forall c :: c in n.children ==> Built(c)
  }

  /** Closing tags only steer the builder: none of them ends up in the tree,
      and every node the builder appends is well-formed. */
  lemma {:induction false} ReduceBuilt(frags: seq<Node>)
    requires Fragments(frags) && TagsPresent(frags)
    ensures forall k :: k in Reduce(frags).kids ==> Built(k)
    decreases |frags|
  {
    if frags != [] {
      var d, tail := frags[0], frags[1..];
      FragmentsSuffix(frags, tail);
      assert IsFragment(d);
      match ReduceStep(frags)
      case Stop(_) =>
      case Emit(n, rest) =>
        FragmentsSuffix(frags, rest);
        ReduceBuilt(rest);
        if n != d {
          ReduceBuilt(tail);
          var inner := Reduce(tail);
          assert n == d.(children := inner.kids);
          assert WellFormed(n) by {
            forall i | 0 <= i < |n.children| ensures WellFormed(n.children[i]) {
              assert n.children[i] in inner.kids;
            }
          }
        }
        assert Built(n);
        assert Reduce(frags).kids == [n] + Reduce(rest).kids;
    }
  }

  /** `rest`, a suffix of `frags`, is empty or comes right after a closing
      tag. */
  predicate EndsAfterCloser(frags: seq<Node>, rest: seq<Node>)
  {
    rest != [] ==> |rest| < |frags| && IsCloser(frags[|frags| - |rest| - 1])
  }

  /** A call that leaves part of the list has just dropped a closing tag. */
  lemma {:induction false} ReduceStopsAfterCloser(frags: seq<Node>)
    requires TagsPresent(frags)
    ensures EndsAfterCloser(frags, Reduce(frags).rest)
    decreases |frags|, 1
  {
    if frags != [] {
      if ReduceStep(frags).Stop? {
        StopEndsAfterCloser(frags);
      } else {
        var st := ReduceStep(frags);
        EmitEndsAfterCloser(frags, st.node, st.rest);
      }
    }
  }

  lemma StopEndsAfterCloser(frags: seq<Node>)
    requires TagsPresent(frags) && frags != [] && ReduceStep(frags).Stop?
    ensures EndsAfterCloser(frags, Reduce(frags).rest)
  {
    ReduceStop(frags);
    CloserEnds(frags);
  }

  lemma {:induction false} EmitEndsAfterCloser(frags: seq<Node>, n: Node, rest: seq<Node>)
    requires TagsPresent(frags) && frags != [] && ReduceStep(frags) == Emit(n, rest)
    ensures EndsAfterCloser(frags, Reduce(frags).rest)
    decreases |frags|, 0
  {
    ReduceEmit(frags, n, rest);
    ReduceStopsAfterCloser(rest);
    EndsAfterCloserSuffix(frags, rest, Reduce(rest).rest);
  }

  lemma CloserEnds(frags: seq<Node>)
    requires frags != [] && IsCloser(frags[0])
    ensures EndsAfterCloser(frags, frags[1..])
  {
    assert |frags| - |frags[1..]| - 1 == 0;
  }

  lemma EndsAfterCloserSuffix(frags: seq<Node>, rest: seq<Node>, fin: seq<Node>)
    requires |rest| < |frags| && rest == frags[|frags| - |rest|..]
    requires EndsAfterCloser(rest, fin)
    ensures EndsAfterCloser(frags, fin)
  {
    if fin != [] {
      SuffixIndex(frags, rest, |fin|);
    }
  }

  /** Counted from the end, a suffix holds what the whole list holds. */
  lemma SuffixIndex(frags: seq<Node>, rest: seq<Node>, k: nat)
    requires |rest| <= |frags| && rest == frags[|frags| - |rest|..]
    requires k < |rest|
    ensures rest[|rest| - k - 1] == frags[|frags| - k - 1]
  {
  }

  /** The node with its children removed. */
  function Strip(n: Node): (r: Node)
    ensures r.children == [] && r == n.(children := [])
  {
    n.(children := [])
  }

  /** The nodes of a forest in document order, each without its children. */
  function Flatten(ns: seq<Node>): (r: seq<Node>)
    ensures ns == [] ==> r == []
    decreases ns
  {
    if ns == [] then [] else [Strip(ns[0])] + Flatten(ns[0].children) + Flatten(ns[1..])
  }

  /** The fragments that are not closing tags, in order. */
  function Openers(frags: seq<Node>): (r: seq<Node>)
    ensures |r| <= |frags|
    ensures forall k :: k in r ==> !IsCloser(k)
  {
    if frags == [] then []
    else (if IsCloser(frags[0]) then [] else [frags[0]]) + Openers(frags[1..])
  }

  lemma {:induction false} OpenersAppend(a: seq<Node>, b: seq<Node>)
    ensures Openers(a + b) == Openers(a) + Openers(b)
  {
    if a == [] {
      assert a + b == b;
    } else {
      assert (a + b)[0] == a[0];
      assert (a + b)[1..] == a[1..] + b;
      OpenersAppend(a[1..], b);
    }
  }

  lemma FlattenCons(n: Node, ns: seq<Node>)
    ensures Flatten([n] + ns) == Flatten([n]) + Flatten(ns)
  {
    assert ([n] + ns)[1..] == ns;
    assert [n][1..] == [];
  }

  lemma ConsumedSplit(a: seq<Node>, b: seq<Node>, c: seq<Node>)
    requires |b| <= |a| && b == a[|a| - |b|..]
    requires |c| <= |b| && c == b[|b| - |c|..]
    ensures a[..|a| - |c|] == a[..|a| - |b|] + b[..|b| - |c|]
  {
  }

  /** Read in document order, the trees of `red` are the fragments it
      consumed from `frags`, closing tags removed. */
  predicate PreOrdered(frags: seq<Node>, red: Reduction)
  {
    |red.rest| <= |frags| && Flatten(red.kids) == Openers(frags[..|frags| - |red.rest|])
  }

  /** Joins what one pass emits with what the passes after it append. */
  lemma PreOrderJoin(frags: seq<Node>, n: Node, rest: seq<Node>, after: Reduction, whole: Reduction)
    requires |rest| <= |frags| && rest == frags[|frags| - |rest|..]
    requires |after.rest| <= |rest| && after.rest == rest[|rest| - |after.rest|..]
    requires Flatten([n]) == Openers(frags[..|frags| - |rest|])
    requires PreOrdered(rest, after)
    requires whole == Reduction([n] + after.kids, after.rest)
    ensures PreOrdered(frags, whole)
  {
    FlattenCons(n, after.kids);
    ConsumedSplit(frags, rest, after.rest);
    OpenersAppend(frags[..|frags| - |rest|], rest[..|rest| - |after.rest|]);
  }

  lemma OpenersOne(x: Node)
    ensures Openers([x]) == (if IsCloser(x) then [] else [x])
  {
    assert [x][1..] == [];
  }

  lemma FlattenOne(d: Node, kids: seq<Node>)
    requires d.children == []
    ensures Flatten([d.(children := kids)]) == [d] + Flatten(kids)
  {
    assert [d.(children := kids)][1..] == [];
  }

  /** A fragment followed by its own closing tag reads as the fragment. */
  lemma PreOrderCloseNext(frags: seq<Node>, rest: seq<Node>)
    requires |frags| >= 2 && IsFragment(frags[0]) && !IsCloser(frags[0])
    requires IsCloser(frags[1]) && rest == frags[2..]
    ensures Flatten([frags[0]]) == Openers(frags[..|frags| - |rest|])
  {
    var d, c := frags[0], frags[1];
    OpenersOne(d);
    OpenersOne(c);
    FlattenOne(d, []);
    assert d.(children := []) == d;
    assert frags[..|frags| - |rest|] == [d] + [c];
    OpenersAppend([d], [c]);
    assert [d] + [] == [d];
    assert Flatten([d]) == [d] + Flatten([]);
  }

  /** A fragment that takes the nodes of a nested call as children reads as
      itself followed by what that call consumed. */
  lemma PreOrderNested(frags: seq<Node>, inner: Reduction, n: Node, rest: seq<Node>)
    requires frags != [] && IsFragment(frags[0]) && !IsCloser(frags[0])
    requires PreOrdered(frags[1..], inner)
    requires n == frags[0].(children := inner.kids) && rest == inner.rest
    ensures Flatten([n]) == Openers(frags[..|frags| - |rest|])
  {
    var d, tail := frags[0], frags[1..];
    var consumed := tail[..|tail| - |inner.rest|];
    assert frags[..|frags| - |inner.rest|] == [d] + consumed;
    OpenersAppend([d], consumed);
    OpenersOne(d);
    FlattenOne(d, inner.kids);
  }

  lemma PreOrderPlain(frags: seq<Node>)
    requires frags != [] && IsFragment(frags[0]) && !IsCloser(frags[0])
    ensures Flatten([frags[0]]) == Openers(frags[..1])
  {
    var d := frags[0];
    OpenersOne(d);
    FlattenOne(d, []);
    assert d.(children := []) == d;
    assert frags[..1] == [d];
  }

  /** What one pass consumes, read without closing tags, is the node it
      emits, flattened. */
  lemma {:induction false} StepPreOrder(frags: seq<Node>, n: Node, rest: seq<Node>)
    requires Fragments(frags) && TagsPresent(frags) && frags != []
    requires ReduceStep(frags) == Emit(n, rest)
    ensures Flatten([n]) == Openers(frags[..|frags| - |rest|])
    decreases |frags|, 1
  {
    var d, tail := frags[0], frags[1..];
    if d.domType == TagType && !d.tag.value.terminated
       && TerminatorIndex(tail, d.tag.value.name).Some? {
      if TerminatorIndex(tail, d.tag.value.name).value == 0 {
        StepCloseNextPreOrder(frags, n, rest);
      } else {
        StepNestedPreOrder(frags, n, rest);
      }
    } else {
      StepPlainPreOrder(frags, n, rest);
    }
  }

  lemma StepCloseNextPreOrder(frags: seq<Node>, n: Node, rest: seq<Node>)
    requires Fragments(frags) && TagsPresent(frags) && frags != []
    requires ReduceStep(frags) == Emit(n, rest)
    requires frags[0].domType == TagType && !frags[0].tag.value.terminated
    requires TerminatorIndex(frags[1..], frags[0].tag.value.name) == Some(0)
    ensures Flatten([n]) == Openers(frags[..|frags| - |rest|])
  {
    assert IsFragment(frags[0]);
    assert n == frags[0] && rest == frags[2..] && IsCloser(frags[1]);
    PreOrderCloseNext(frags, rest);
  }

  lemma {:induction false} StepNestedPreOrder(frags: seq<Node>, n: Node, rest: seq<Node>)
    requires Fragments(frags) && TagsPresent(frags) && frags != []
    requires ReduceStep(frags) == Emit(n, rest)
    requires frags[0].domType == TagType && !frags[0].tag.value.terminated
    requires TerminatorIndex(frags[1..], frags[0].tag.value.name).Some?
    requires TerminatorIndex(frags[1..], frags[0].tag.value.name).value > 0
    ensures Flatten([n]) == Openers(frags[..|frags| - |rest|])
    decreases |frags|, 0
  {
    var d, tail := frags[0], frags[1..];
    assert frags == [d] + tail;
    assert IsFragment(d) && !IsCloser(d);
    FragmentsSuffix(frags, tail);
    StepNested(d, tail);
    var inner := Reduce(tail);
    assert d.children + inner.kids == inner.kids;
    assert n == d.(children := inner.kids) && rest == inner.rest;
    ReducePreOrder(tail);
    PreOrderNested(frags, inner, n, rest);
  }

  lemma StepPlainPreOrder(frags: seq<Node>, n: Node, rest: seq<Node>)
    requires Fragments(frags) && TagsPresent(frags) && frags != []
    requires ReduceStep(frags) == Emit(n, rest)
    requires !(frags[0].domType == TagType && !frags[0].tag.value.terminated
               && TerminatorIndex(frags[1..], frags[0].tag.value.name).Some?)
    ensures Flatten([n]) == Openers(frags[..|frags| - |rest|])
  {
    assert n == frags[0] && rest == frags[1..];
    PreOrderPlain(frags);
  }

  /** `Reduce` after a pass that stops: only the closing tag is consumed. */
  lemma ReduceStop(frags: seq<Node>)
    requires TagsPresent(frags) && frags != [] && ReduceStep(frags).Stop?
    ensures IsCloser(frags[0]) && Reduce(frags) == Reduction([], frags[1..])
  {
  }

  /** `Reduce` after a pass that emits a node. */
  lemma ReduceEmit(frags: seq<Node>, n: Node, rest: seq<Node>)
    requires TagsPresent(frags) && frags != [] && ReduceStep(frags) == Emit(n, rest)
    ensures TagsPresent(rest)
    ensures Reduce(frags) == Reduction([n] + Reduce(rest).kids, Reduce(rest).rest)
  {
    SuffixTagsPresent(frags, rest);
  }

  lemma {:induction false} EmitPreOrder(frags: seq<Node>, n: Node, rest: seq<Node>)
    requires Fragments(frags) && TagsPresent(frags) && frags != []
    requires ReduceStep(frags) == Emit(n, rest)
    ensures PreOrdered(frags, Reduce(frags))
    decreases |frags|, 2
  {
    StepPreOrder(frags, n, rest);
    FragmentsSuffix(frags, rest);
    ReducePreOrder(rest);
    ReduceEmit(frags, n, rest);
    PreOrderJoin(frags, n, rest, Reduce(rest), Reduce(frags));
  }

  /** The builder keeps document order and loses nothing it consumes: read in
      document order, the appended trees are exactly the fragments consumed,
      closing tags removed. */
  lemma {:induction false} ReducePreOrder(frags: seq<Node>)
    requires Fragments(frags) && TagsPresent(frags)
    ensures PreOrdered(frags, Reduce(frags))
    decreases |frags|, 3
  {
    if frags == [] {
      assert frags[..0] == [];
    } else {
      var st := ReduceStep(frags);
      if st.Emit? {
        EmitPreOrder(frags, st.node, st.rest);
      } else {
        assert IsCloser(frags[0]) && Reduce(frags) == Reduction([], frags[1..]);
        OpenersOne(frags[0]);
        assert frags[..1] == [frags[0]];
      }
    }
  }

  /** When no closing tag goes astray, every fragment but the closing tags
      ends up in the tree, in document order. */
  lemma ReduceKeepsEverything(frags: seq<Node>)
    requires Fragments(frags) && TagsPresent(frags) && Reduce(frags).rest == []
    ensures Flatten(Reduce(frags).kids) == Openers(frags)
  {
    ReducePreOrder(frags);
    assert frags[..|frags|] == frags;
  }

  /** An opening tag that is not self-closed and not a closing tag. */
  predicate IsOpener(d: Node)
  {
    d.domType == TagType && d.tag.Some? && !d.tag.value.terminator && !d.tag.value.terminated
  }

  /** `<p></p>`: the closing tag that comes next is dropped, and the element
      stays empty. */
  lemma ReduceEmptyElement(d: Node, c: Node, rest: seq<Node>)
    requires IsOpener(d) && ClosesFor(c, d.tag.value.name)
    requires TagsPresent([d, c] + rest)
    ensures TagsPresent(rest)
    ensures Reduce([d, c] + rest) == Reduction([d] + Reduce(rest).kids, Reduce(rest).rest)
  {
    var frags := [d, c] + rest;
    SuffixTagsPresent(frags, rest);
    assert frags[1..][0] == c && frags[1..][1..] == rest;
    assert ReduceStep(frags) == Emit(d, rest);
  }

  /** A self-closed tag, or an opening tag with no closing tag of its name
      ahead, is appended without children and the call goes on after it. */
  lemma ReduceUnclosedStaysLeaf(d: Node, rest: seq<Node>)
    requires d.domType == TagType && d.tag.Some? && !d.tag.value.terminator
    requires d.tag.value.terminated || TerminatorIndex(rest, d.tag.value.name).None?
    requires TagsPresent([d] + rest)
    ensures TagsPresent(rest)
    ensures Reduce([d] + rest) == Reduction([d] + Reduce(rest).kids, Reduce(rest).rest)
  {
    var frags := [d] + rest;
    SuffixTagsPresent(frags, rest);
  }

  /** A closing tag at the front ends the call. */
  lemma ReduceCloserFirst(c: Node, rest: seq<Node>)
    requires IsCloser(c) && TagsPresent([c] + rest)
    ensures Reduce([c] + rest) == Reduction([], rest)
  {
    assert ([c] + rest)[1..] == rest;
  }

  /** A text or comment at the front is appended as it is. */
  lemma ReduceLeafFirst(t: Node, rest: seq<Node>)
    requires t.domType != TagType && TagsPresent([t] + rest)
    ensures TagsPresent(rest)
    ensures Reduce([t] + rest) == Reduction([t] + Reduce(rest).kids, Reduce(rest).rest)
  {
    var frags := [t] + rest;
    SuffixTagsPresent(frags, rest);
    assert frags[1..] == rest;
    assert ReduceStep(frags) == Emit(t, rest);
  }

  /** An opening tag whose closing tag lies ahead, but not next, takes what a
      nested call appends; the enclosing call goes on after it. */
  lemma ReduceNestedFirst(d: Node, rest: seq<Node>)
    requires IsOpener(d) && TagsPresent([d] + rest)
    requires TerminatorIndex(rest, d.tag.value.name).Some?
    requires TerminatorIndex(rest, d.tag.value.name).value > 0
    ensures TagsPresent(rest) && TagsPresent(Reduce(rest).rest)
    ensures Reduce([d] + rest) == Reduction(
              [d.(children := d.children + Reduce(rest).kids)] + Reduce(Reduce(rest).rest).kids,
              Reduce(Reduce(rest).rest).rest)
  {
    StepNested(d, rest);
    ReduceEmit([d] + rest, d.(children := d.children + Reduce(rest).kids), Reduce(rest).rest);
  }

  /** The pass on such an opening tag. */
  lemma StepNested(d: Node, rest: seq<Node>)
    requires IsOpener(d) && TagsPresent([d] + rest)
    requires TerminatorIndex(rest, d.tag.value.name).Some?
    requires TerminatorIndex(rest, d.tag.value.name).value > 0
    ensures TagsPresent(rest)
    ensures ReduceStep([d] + rest) == Emit(d.(children := d.children + Reduce(rest).kids), Reduce(rest).rest)
  {
    var frags := [d] + rest;
    assert frags[0] == d && frags[1..] == rest;
    SuffixTagsPresent(frags, rest);
  }

  /** Texts and comments only. */
  predicate Leaves(ns: seq<Node>)
  {
    forall i :: 0 <= i < |ns| ==> ns[i].domType != TagType
  }

  lemma TagsPresentConcat(a: seq<Node>, b: seq<Node>)
    requires TagsPresent(a) && TagsPresent(b)
    ensures TagsPresent(a + b)
  {
    forall i | 0 <= i < |a + b| && (a + b)[i].domType == TagType ensures (a + b)[i].tag.Some? {
      if i >= |a| {
        assert (a + b)[i] == b[i - |a|];
      }
    }
  }

  /** Texts and comments up to a closing tag are appended as they are, and
      the closing tag ends the call. */
  lemma {:induction false} ReduceLeavesThenCloser(pre: seq<Node>, b: Node, post: seq<Node>)
    requires Leaves(pre) && IsCloser(b) && TagsPresent(post)
    ensures TagsPresent(pre + [b] + post)
    ensures Reduce(pre + [b] + post) == Reduction(pre, post)
    decreases |pre|
  {
    TagsPresentConcat([b], post);
    if pre == [] {
      assert pre + [b] + post == [b] + post;
      ReduceCloserFirst(b, post);
    } else {
      var t, more := pre[0], pre[1..];
      assert Leaves(more) by {
        forall i | 0 <= i < |more| ensures more[i].domType != TagType {
          assert more[i] == pre[i + 1];
        }
      }
      var after := more + [b] + post;
      assert pre + [b] + post == [t] + after;
      assert [t] + more == pre;
      assert TagsPresent([t]);
      ReduceLeavesThenCloser(more, b, post);
      TagsPresentConcat([t], after);
      ReduceLeafFirst(t, after);
    }
  }

  /** An element holding only texts and comments: in `<p>x</p>` the text
      becomes the child of `p`. The nested call stops at the first closing
      tag `b` of ANY name, so in `<a>x</b>y</a>` the text `y` becomes a
      sibling of `a`, and `</a>` then ends the enclosing call. */
  lemma ReduceElementOfLeaves(d: Node, pre: seq<Node>, b: Node, post: seq<Node>)
    requires IsOpener(d) && pre != [] && Leaves(pre) && IsCloser(b) && TagsPresent(post)
    requires TerminatorIndex(pre + [b] + post, d.tag.value.name).Some?
    ensures TagsPresent([d] + (pre + [b] + post))
    ensures Reduce([d] + (pre + [b] + post))
            == Reduction([d.(children := d.children + pre)] + Reduce(post).kids, Reduce(post).rest)
  {
    var rest := pre + [b] + post;
    ReduceLeavesThenCloser(pre, b, post);
    assert TagsPresent([d]);
    TagsPresentConcat([d], rest);
    assert TerminatorIndex(rest, d.tag.value.name).value > 0 by {
      assert rest[0] == pre[0];
    }
    ReduceNestedFirst(d, rest);
  }

  /** `parse`: trim the document, lex it, and let a fresh root take what the
      builder appends; fragments left after a stray closing tag are dropped. */
  function ParseSpec(doc: string): (r: Result<Node>)
    requires '<' in TrimEnd(doc)
    ensures r.Ok? ==> r.value.domType == TagType && r.value.tag == Some(RootTag)
    ensures r.Ok? ==> forall k :: k in r.value.children ==> Built(k)
  {
    var s := TrimEnd(doc);
    var frags :- CreateDomVecSpec(s, 0);
    FragmentsHaveTags(frags);
    ReduceBuilt(frags);
    Ok(RootNode().(children := Reduce(frags).kids))
  }

  /** Read in document order, `kids` are the fragments of a prefix of
      `frags`, closing tags removed; a prefix short of the whole list ends
      with the stray closing tag that stopped the builder. */
  predicate ReadsAsPrefix(kids: seq<Node>, frags: seq<Node>)
  {
    exists m :: 0 <= m <= |frags| && Flatten(kids) == Openers(frags[..m])
                && (m < |frags| ==> 0 < m && IsCloser(frags[m - 1]))
  }

  /** What `parse` returns keeps the document order of the lexed fragments
      and drops none of them up to the first stray closing tag. */
  lemma ParseDocumentOrder(doc: string)
    requires '<' in TrimEnd(doc) && ParseSpec(doc).Ok?
    ensures ReadsAsPrefix(ParseSpec(doc).value.children, CreateDomVecSpec(TrimEnd(doc), 0).value)
  {
    var frags := CreateDomVecSpec(TrimEnd(doc), 0).value;
    FragmentsHaveTags(frags);
    assert ParseSpec(doc).value.children == Reduce(frags).kids;
    ReduceReadsAsPrefix(frags);
  }

  /** The builder's top-level call reads a prefix of the fragments that ends
      at the end of the list or just after a stray closing tag. */
  lemma ReduceReadsAsPrefix(frags: seq<Node>)
    requires Fragments(frags) && TagsPresent(frags)
    ensures ReadsAsPrefix(Reduce(frags).kids, frags)
  {
    var red := Reduce(frags);
    ReducePreOrder(frags);
    ReduceStopsAfterCloser(frags);
    var m := |frags| - |red.rest|;
    assert Flatten(red.kids) == Openers(frags[..m]);
    assert m < |frags| ==> 0 < m && IsCloser(frags[m - 1]);
  }

  method Parse(doc: string) returns (r: Result<Node>)
    requires '<' in TrimEnd(doc)
    ensures r == ParseSpec(doc)
  {
    var input := new Input(doc);
    ghost var s := input.input;
    assert IndexOf(s, '<', 0).Some?;
    var domVec :- CreateDomVec(input);
    assert CreateDomVecSpec(s, 0) == Ok(domVec);
    FragmentsHaveTags(domVec);
    var root := new Dom.NewRoot();
    var _ := CreateDomTree(domVec, root);
    assert [] + Reduce(domVec).kids == Reduce(domVec).kids;
    assert root.Value() == RootNode().(children := Reduce(domVec).kids);
    return Ok(root.Value());
  }
}
