/** Tags (src/dom/tag.rs): a tag's name, its attribute map, the self-closed
    flag (`terminated`) and the closing-marker flag (`terminator`). `TagData` is
    the value a node owns and a query returns; the class `Tag` is the object
    the parser builds it in, with the source's setters. */
module Tags {
  import opened Common

  datatype TagData = TagData(
    name: string,
    attr: Option<map<string, string>>,
    terminated: bool,
    terminator: bool)

  class Tag {
    var name: string
    var attr: Option<map<string, string>>
    var terminated: bool
    var terminator: bool

    function Value(): TagData
      reads this
    {
      TagData(name, attr, terminated, terminator)
    }

    /** `Tag::new`: no attribute map, neither flag set. */
    constructor (name: string)
      ensures Value() == TagData(name, None, false, false)
    {
      this.name := name;
      attr := None;
      terminated := false;
      terminator := false;
    }

    /** `set_attr` (`set_attrs` in the callers): replaces the whole map. */
    method SetAttr(attr: map<string, string>)
      modifies this
      ensures this.attr == Some(attr)
      ensures Value() == old(Value()).(attr := Some(attr))
    {
      this.attr := Some(attr);
    }

    method SetTerminated(b: bool)
      modifies this
      ensures terminated == b
      ensures Value() == old(Value()).(terminated := b)
    {
      terminated := b;
    }

    method SetTerminator(b: bool)
      modifies this
      ensures terminator == b
      ensures Value() == old(Value()).(terminator := b)
    {
      terminator := b;
    }
  }

  /** `get_attr(name)` as its callers use it: the value of one attribute. */
  function AttrValue(t: TagData, key: string): (r: Option<string>)
    ensures r.Some? <==> t.attr.Some? && key in t.attr.value
    ensures r.Some? ==> r.value == t.attr.value[key]
  {
    if t.attr.Some? && key in t.attr.value then Some(t.attr.value[key]) else None
  }

  /** Every attribute of the pattern map `p` is present in `q`; an empty
      pattern value is a wildcard, any other value must be equal. */
  predicate AttrsImply(p: map<string, string>, q: Option<map<string, string>>)
  {
    forall k :: k in p ==> q.Some? && k in q.value && (p[k] == "" || p[k] == q.value[k])
  }

  /** The sufficient condition `Tag::p_implies_q(p, q)`: equal names and every
      attribute constraint of `p` met by `q`. Flags are not compared. */
  predicate TagImplies(p: TagData, q: TagData)
  {
    p.name == q.name && (p.attr.Some? ==> AttrsImply(p.attr.value, q.attr))
  }

  lemma TagImpliesReflexive(t: TagData)
    ensures TagImplies(t, t)
  {
  }

  /** The relation is transitive: a value a pattern fixes is passed on, and a
      wildcard asks only for presence, which the middle tag passes on too. */
  lemma TagImpliesTransitive(p: TagData, q: TagData, t: TagData)
    requires TagImplies(p, q) && TagImplies(q, t)
    ensures TagImplies(p, t)
  {
  }

  /** Wildcard rule: an empty pattern value matches any value of a present
      attribute, and fails when the attribute is absent. */
  lemma WildcardNeedsOnlyPresence(name: string, key: string, q: TagData)
    requires q.name == name
    ensures TagImplies(TagData(name, Some(map[key := ""]), false, false), q)
            <==> (q.attr.Some? && key in q.attr.value)
  {
    var p := TagData(name, Some(map[key := ""]), false, false);
    assert key in p.attr.value;
    if q.attr.Some? && key in q.attr.value {
      assert AttrsImply(p.attr.value, q.attr);
    }
  }

  /** Monotonicity: attributes added to a candidate that already satisfies a
      pattern do not break the match, unless they replace a constrained one. */
  lemma ExtraAttributesKeepMatch(p: TagData, q: TagData, extra: map<string, string>)
    requires TagImplies(p, q) && q.attr.Some?
    requires p.attr.Some? ==> extra.Keys !! p.attr.value.Keys
    ensures TagImplies(p, q.(attr := Some(q.attr.value + extra)))
  {
  }

  /** The example of the crate: pattern `h1{class:target}` holds for
      `h1{id:q, class:target}` and not for `h1{id:q}`. */
  lemma H1Example()
    ensures TagImplies(TagData("h1", Some(map["class" := "target"]), false, false),
                       TagData("h1", Some(map["id" := "q", "class" := "target"]), false, false))
    ensures !TagImplies(TagData("h1", Some(map["class" := "target"]), false, false),
                        TagData("h1", Some(map["id" := "q"]), false, false))
  {
    var m := map["id" := "q"];
    assert "class" !in m;
  }
}
