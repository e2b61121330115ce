/** The fragment lexer of src/parser/mod.rs: `create_dom_vec` and the
    `parse_*` routines it calls. Each routine is first stated as a function of
    the buffer and the cursor it starts from, returning the value it builds and
    the cursor it leaves behind (or the error it reports); the methods further
    down run the source's steps on an `Input` object and are proved to agree
    with those functions. */
module Lexer {
  import opened Common
  import opened Scan
  import opened Tags
  import opened Doms

  /** A value produced by a scan and the cursor the scan ends on. */
  datatype Scanned<T> = Scanned(value: T, cursor: nat)

  /** A method's result and final cursor agree with the function stating it. */
  ghost predicate Agrees<T>(r: Result<T>, spec: Result<Scanned<T>>, cursor: nat)
  {
    match spec
    case Ok(sc) => r == Ok(sc.value) && cursor == sc.cursor
    case Err(e) => r == Err(e)
  }

  /** `parse_tag_attr_value`: the cursor is on the opening delimiter; the value
      runs up to the next occurrence of the same delimiter, where the cursor
      stops. */
  function AttrValueSpec(s: string, c: nat, dlmt: char): (r: Result<Scanned<string>>)
    requires c < |s|
    ensures r.Err? <==> IndexOf(s, dlmt, NextPos(s, c)).None?
    ensures r.Err? ==> r.error == UnterminatedAttributeValue
    ensures r.Ok? ==> && c <= r.value.cursor < |s| && s[r.value.cursor] == dlmt
                      && NextPos(s, c) <= r.value.cursor
                      && r.value.value == s[NextPos(s, c)..r.value.cursor]
                      && dlmt !in r.value.value
  {
    var bgn := NextPos(s, c);
    match IndexOf(s, dlmt, bgn)
    case None => Err(UnterminatedAttributeValue)
    case Some(end) =>
      // `get_string` cannot fail here: `bgn < end` and `end` is an index.
      if bgn == end then Ok(Scanned("", bgn)) else Ok(Scanned(s[bgn..end], end))
  }

  /** Where an attribute name that starts at `c` ends: at the tag's `>`, or
      earlier at the first `=` before it, or earlier still at the first space.
      The `=` is searched to the end of the tag, not only up to the next
      space. */
  function AttrNameEnd(s: string, c: nat, tagEnd: nat): (r: nat)
    requires tagEnd < |s|
    ensures r <= tagEnd
    ensures r == tagEnd || s[r] == '=' || s[r] == ' '
    ensures c <= tagEnd ==> c <= r
    ensures forall k :: c <= k < r ==> s[k] != ' ' && s[k] != '='
  {
    var toEq := match IndexOf(s, '=', c)
      case Some(q) => if q < tagEnd then q else tagEnd
      case None => tagEnd;
    match IndexOf(s, ' ', c)
    case Some(p) => if p < toEq then p else toEq
    case None => toEq
  }

  /** The value part after an attribute name, with the cursor on the name's
      end: an `=` before the tag's end followed (after blanks) by a quoted
      value gives that value; anything else gives the empty value. */
  function AttrValuePart(s: string, c: nat, tagEnd: nat): (r: Result<Scanned<string>>)
    requires c < |s|
    ensures r.Ok? ==> c <= r.value.cursor < |s|
    ensures r.Err? ==> r.error == UnterminatedAttributeValue
    ensures c == tagEnd ==> r == Ok(Scanned("", c))
    ensures r.Ok? && r.value.value != "" ==>
              && IndexOf(s, '=', c).Some? && IndexOf(s, '=', c).value < tagEnd
              && s[NextCharPos(s, IndexOf(s, '=', c).value)] in {'"', '\''}
  {
    if c == tagEnd then Ok(Scanned("", c))
    else
      match IndexOf(s, '=', c)
      case Some(q) =>
        if q < tagEnd then
          var v := NextCharPos(s, q);
          if s[v] == '"' then AttrValueSpec(s, v, '"')
          else if s[v] == '\'' then AttrValueSpec(s, v, '\'')
          else Ok(Scanned("", v))
        else Ok(Scanned("", c))
      case None => Ok(Scanned("", c))
  }

  /** One round of the attribute loop of `parse_tag_attr`: the name from `c`
      up to `AttrNameEnd`, then its value. A name that would be empty is an
      error, so a round always moves the cursor forward. */
  function AttrPair(s: string, c: nat, tagEnd: nat): (r: Result<Scanned<(string, string)>>)
    requires c < |s| && tagEnd < |s|
    ensures r.Ok? ==> c < r.value.cursor < |s| && r.value.value.0 != []
    ensures AttrNameEnd(s, c, tagEnd) <= c ==> r == Err(InvalidRange)
    ensures r.Ok? ==> && r.value.value.0 == s[c..AttrNameEnd(s, c, tagEnd)]
                      && AttrValuePart(s, AttrNameEnd(s, c, tagEnd), tagEnd)
                         == Ok(Scanned(r.value.value.1, r.value.cursor))
    ensures AttrNameEnd(s, c, tagEnd) > c && AttrValuePart(s, AttrNameEnd(s, c, tagEnd), tagEnd).Err?
            ==> r.Err?
  {
    var attrEnd := AttrNameEnd(s, c, tagEnd);
    var name :- Slice(s, c, attrEnd);
    var v :- AttrValuePart(s, attrEnd, tagEnd);
    Ok(Scanned((name, v.value), v.cursor))
  }

  /** The attribute loop of `parse_tag_attr`, from an attribute start `c`, with
      the attributes gathered so far. Each round reads one name and its value
      and inserts them, replacing an earlier attribute of the same name; it
      stops after a `>`. */
  function AttrLoop(s: string, c: nat, tagEnd: nat, attrs: map<string, string>)
    : (r: Result<Scanned<map<string, string>>>)
    requires c < |s| && tagEnd < |s|
    ensures r.Ok? ==> c <= r.value.cursor < |s| && attrs.Keys <= r.value.value.Keys
    ensures r.Ok? && s[c] != '>' ==>
              AttrPair(s, c, tagEnd).Ok? && AttrPair(s, c, tagEnd).value.value.0 in r.value.value
    ensures s[c] != '>' && AttrPair(s, c, tagEnd).Err? ==> r == Err(AttrPair(s, c, tagEnd).error)
    decreases |s| - c
  {
    if s[c] == '>' then Ok(Scanned(attrs, NextPos(s, c)))
    else
      var p :- AttrPair(s, c, tagEnd);
      var attrs' := attrs[p.value.0 := p.value.1];
      if s[p.cursor] == '>' then Ok(Scanned(attrs', NextPos(s, p.cursor)))
      else AttrLoop(s, NextCharPos(s, p.cursor), tagEnd, attrs')
  }

  /** `parse_tag_attr`: with the cursor on the first attribute, find the tag's
      `>`, read the attributes, and turn an attribute named `/` into the
      self-closed flag. */
  function TagAttrSpec(s: string, c: nat, tag: TagData): (r: Result<Scanned<TagData>>)
    requires c < |s|
    ensures IndexOf(s, '>', c).None? ==> r == Err(UnterminatedTag)
    ensures r.Ok? ==> c <= r.value.cursor < |s|
    ensures r.Ok? ==> && r.value.value.name == tag.name
                      && r.value.value.terminator == tag.terminator
                      && r.value.value.attr.Some? && "/" !in r.value.value.attr.value
    ensures r.Ok? ==>
              var m := AttrLoop(s, c, IndexOf(s, '>', c).value, map[]);
              && m.Ok? && r.value.value.attr == Some(m.value.value - {"/"})
              && (r.value.value.terminated <==> tag.terminated || "/" in m.value.value)
  {
    match IndexOf(s, '>', c)
    case None => Err(UnterminatedTag)
    case Some(tagEnd) =>
      var m :- AttrLoop(s, c, tagEnd, map[]);
      var t := if "/" in m.value then tag.(terminated := true) else tag;
      Ok(Scanned(t.(attr := Some(m.value - {"/"})), m.cursor))
  }

  /** Where a tag name that starts at `c` ends: at the first space before the
      tag's `>`, else at the `>`. */
  function TagNameEnd(s: string, c: nat, tagEnd: nat): (r: nat)
    requires tagEnd < |s|
    ensures r <= tagEnd && (r == tagEnd || s[r] == ' ')
    ensures c <= tagEnd ==> c <= r
    ensures forall k :: c <= k < r ==> s[k] != ' '
  {
    match IndexOf(s, ' ', c)
    case Some(p) => if p < tagEnd then p else tagEnd
    case None => tagEnd
  }

  /** `parse_tag_name`: the name, then either the `>` (possibly after blanks)
      or the attributes. */
  function TagNameSpec(s: string, c: nat, terminator: bool): (r: Result<Scanned<TagData>>)
    requires c < |s|
    ensures IndexOf(s, '>', c).None? ==> r == Err(UnterminatedTag)
    ensures r.Ok? ==> c < r.value.cursor < |s|
    ensures r.Ok? ==> && r.value.value.name == s[c..TagNameEnd(s, c, IndexOf(s, '>', c).value)]
                      && r.value.value.name != []
                      && r.value.value.terminator == terminator
  {
    match IndexOf(s, '>', c)
    case None => Err(UnterminatedTag)
    case Some(tagEnd) =>
      var nameEnd := TagNameEnd(s, c, tagEnd);
      var name :- Slice(s, c, nameEnd);
      var tag := TagData(name, None, false, terminator);
      if s[nameEnd] == '>' then Ok(Scanned(tag, NextPos(s, nameEnd)))
      else
        var c2 := NextCharPos(s, nameEnd);
        if s[c2] == '>' then Ok(Scanned(tag, NextPos(s, c2)))
        else TagAttrSpec(s, c2, tag)
  }

  /** `parse_tag`, with the cursor on `<`: a `/` right after it marks a
      closing tag. */
  function TagSpec(s: string, c: nat): (r: Result<Scanned<Node>>)
    requires c < |s|
    ensures r.Ok? ==> c < r.value.cursor < |s|
    ensures r.Ok? ==> && WellFormed(r.value.value) && r.value.value.domType == TagType
                      && r.value.value.children == []
                      && (r.value.value.tag.value.terminator <==> s[c + 1] == '/')
  {
    var c1 := NextPos(s, c);
    var terminator := s[c1] == '/';
    var c2 := if terminator then NextPos(s, c1) else c1;
    var t :- TagNameSpec(s, c2, terminator);
    Ok(Scanned(TagNode(t.value), t.cursor))
  }

  /** `parse_comment`, with the cursor on `<!--`: the text from after `<!--` to
      the first `-->` found from the cursor; the cursor ends after `-->`. */
  function CommentSpec(s: string, c: nat): (r: Result<Scanned<Node>>)
    requires c < |s|
    ensures Occurrence(s, "-->", c).None? <==> r == Err(UnterminatedComment)
    ensures r.Ok? ==> c < r.value.cursor < |s|
    ensures r.Ok? ==> Occurrence(s, "-->", c).Some? && c + 4 < Occurrence(s, "-->", c).value
    ensures r.Ok? ==> && WellFormed(r.value.value) && r.value.value.domType == CommentType
                      && r.value.value.comment
                         == Some(s[c + 4..Occurrence(s, "-->", c).value])
  {
    match Occurrence(s, "-->", c)
    case None => Err(UnterminatedComment)
    case Some(e) =>
      var cur := Clamp(s, e + 3);
      var body :- Slice(s, c + 4, e);
      Ok(Scanned(CommentNode(body), cur))
  }

  /** `parse_text`: the text up to the next `<`, where the cursor stops. With
      no `<` left the text ends one step (and any blanks) further on, so the
      character there is not part of it. */
  function TextSpec(s: string, c: nat): (r: Result<Scanned<Node>>)
    requires c < |s|
    ensures r.Ok? ==> c < r.value.cursor < |s|
    ensures r.Ok? ==> && WellFormed(r.value.value) && r.value.value.domType == TextType
                      && r.value.value.text == Some(s[c..r.value.cursor])
    ensures IndexOf(s, '<', c).Some? && r.Ok? ==> r.value.cursor == IndexOf(s, '<', c).value
    ensures IndexOf(s, '<', c).None? && r.Ok? ==> r.value.cursor == NextCharPos(s, c)
  {
    match IndexOf(s, '<', c)
    case Some(p) =>
      var t :- Slice(s, c, p);
      Ok(Scanned(TextNode(t), p))
    case None =>
      var e := NextCharPos(s, c);
      var t :- Slice(s, c, e);
      Ok(Scanned(TextNode(t), e))
  }

  /** `parse_text_script`: the body of a script element, verbatim, up to the
      first `</script`. */
  function ScriptTextSpec(s: string, c: nat): (r: Result<Scanned<Node>>)
    requires c < |s|
    ensures Occurrence(s, "</script", c).None? ==> r == Err(UnterminatedTag)
    ensures r.Ok? ==> c < r.value.cursor < |s|
    ensures r.Ok? ==> && WellFormed(r.value.value) && r.value.value.domType == TextType
                      && r.value.value.text == Some(s[c..r.value.cursor])
                      && OccursAt(s, "</script", r.value.cursor)
                      && forall k :: c <= k < r.value.cursor ==> !OccursAt(s, "</script", k)
  {
    match Occurrence(s, "</script", c)
    case None => Err(UnterminatedTag)
    case Some(e) =>
      var t :- Slice(s, c, e);
      Ok(Scanned(TextNode(t), e))
  }

  /** An opening `script` tag. */
  predicate IsScriptOpener(n: Node)
  {
    n.domType == TagType && n.tag.Some? && n.tag.value.name == "script" && !n.tag.value.terminator
  }

  /** A fragment as the lexer emits it: well formed, with no children. */
  predicate IsFragment(n: Node)
  {
    WellFormed(n) && n.children == []
  }

  /** A script tag and its body are both fragments. */
  lemma ScriptPair(tag: Node, body: Node)
    requires IsFragment(tag) && WellFormed(body) && body.domType == TextType
    ensures forall i :: 0 <= i < |[tag, body]| ==> IsFragment([tag, body][i])
  {
  }

  /** A round that starts on a `<` not opening a comment: the tag, and for an
      opening `script` tag not directly followed by `<`, the script body. */
  function TagRound(s: string, c: nat): (r: Result<Scanned<seq<Node>>>)
    requires c < |s|
    ensures r.Ok? ==> c < r.value.cursor < |s|
    ensures r.Ok? ==> forall i :: 0 <= i < |r.value.value| ==> IsFragment(r.value.value[i])
    ensures r.Ok? ==> && TagSpec(s, c).Ok? && 1 <= |r.value.value| <= 2
                      && r.value.value[0] == TagSpec(s, c).value.value
    ensures r.Ok? ==> (|r.value.value| == 2 <==>
                         (IsScriptOpener(TagSpec(s, c).value.value)
                          && s[TagSpec(s, c).value.cursor] != '<'))
    ensures r.Ok? && |r.value.value| == 2 ==>
              && ScriptTextSpec(s, TagSpec(s, c).value.cursor).Ok?
              && r.value.value[1] == ScriptTextSpec(s, TagSpec(s, c).value.cursor).value.value
    ensures TagSpec(s, c).Err? ==> r == Err(TagSpec(s, c).error)
  {
    var d :- TagSpec(s, c);
    if IsScriptOpener(d.value) && s[d.cursor] != '<' then
      var t :- ScriptTextSpec(s, d.cursor);
      ScriptPair(d.value, t.value);
      Ok(Scanned([d.value, t.value], t.cursor))
    else Ok(Scanned([d.value], d.cursor))
  }

  /** A round that starts elsewhere: one run of blanks is skipped, then a text
      is read unless a `<` comes next. */
  function TextRound(s: string, c: nat): (r: Result<Scanned<seq<Node>>>)
    requires c < |s| - 1 && s[c] != '<'
    ensures r.Ok? ==> c < r.value.cursor < |s|
    ensures r.Ok? ==> forall i :: 0 <= i < |r.value.value| ==> IsFragment(r.value.value[i])
    ensures var c1 := if IsBlank(s[c]) then NextCharPos(s, c) else c;
            && c <= c1 && (forall k :: c <= k < c1 ==> IsBlank(s[k]))
            && (s[c1] == '<' ==> r == Ok(Scanned([], c1)))
            && (s[c1] != '<' && r.Ok? ==>
                  && |r.value.value| == 1 && r.value.value[0].domType == TextType
                  && c1 < r.value.cursor && r.value.value[0].text == Some(s[c1..r.value.cursor]))
  {
    var c1 := if IsBlank(s[c]) then NextCharPos(s, c) else c;
    if s[c1] != '<' then
      var d :- TextSpec(s, c1);
      Ok(Scanned([d.value], d.cursor))
    else Ok(Scanned([], c1))
  }

  /** One round of the main loop of `create_dom_vec`, from a cursor before the
      last index: the fragments it emits and where it leaves the cursor. */
  function LexStep(s: string, c: nat): (r: Result<Scanned<seq<Node>>>)
    requires c < |s| - 1
    ensures r.Ok? ==> c < r.value.cursor < |s|
    ensures r.Ok? ==> forall i :: 0 <= i < |r.value.value| ==> IsFragment(r.value.value[i])
  {
    if OccursAt(s, "<!--", c) then
      var d :- CommentSpec(s, c);
      Ok(Scanned([d.value], d.cursor))
    else if s[c] == '<' then TagRound(s, c)
    else TextRound(s, c)
  }

  /** The main loop of `create_dom_vec`, from cursor `c`, with the fragments
      `acc` emitted so far. It stops when the cursor reaches the last index. */
  function LexFrom(s: string, c: nat, acc: seq<Node>): (r: Result<seq<Node>>)
    requires c < |s|
    ensures r.Ok? ==> |acc| <= |r.value| && r.value[..|acc|] == acc
    decreases |s| - c
  {
    if c == |s| - 1 then Ok(acc)
    else
      var st :- LexStep(s, c);
      var acc' := acc + st.value;
      assert acc'[..|acc|] == acc;
      LexFrom(s, st.cursor, acc')
  }

  /** Everything the main loop appends is a childless, well-formed fragment. */
  lemma {:induction false} LexFromFragments(s: string, c: nat, acc: seq<Node>)
    requires c < |s|
    ensures var r := LexFrom(s, c, acc);
            r.Ok? ==> forall i :: |acc| <= i < |r.value| ==> IsFragment(r.value[i])
    decreases |s| - c
  {
    if c < |s| - 1 {
      var st := LexStep(s, c);
      if st.Ok? {
        var acc' := acc + st.value.value;
        LexFromFragments(s, st.value.cursor, acc');
        var r := LexFrom(s, c, acc);
        assert r == LexFrom(s, st.value.cursor, acc');
        if r.Ok? {
          FragmentsJoin(r.value, acc, st.value.value);
        }
      }
    }
  }

  /** Fragments appended in one round, followed by fragments appended later. */
  lemma FragmentsJoin(r: seq<Node>, acc: seq<Node>, step: seq<Node>)
    requires |acc| + |step| <= |r| && r[..|acc| + |step|] == acc + step
    requires forall i :: 0 <= i < |step| ==> IsFragment(step[i])
    requires forall i :: |acc| + |step| <= i < |r| ==> IsFragment(r[i])
    ensures forall i :: |acc| <= i < |r| ==> IsFragment(r[i])
  {
    forall i | |acc| <= i < |acc| + |step|
      ensures IsFragment(r[i])
    {
      assert r[i] == r[..|acc| + |step|][i] == step[i - |acc|];
    }
  }

  /** `create_dom_vec`, with the cursor at `c`: skip to the first `<` at or
      after it, then run the main loop. Without such a `<` the source loops
      forever, so one is required. */
  function CreateDomVecSpec(s: string, c: nat): (r: Result<seq<Node>>)
    requires c < |s| && IndexOf(s, '<', c).Some?
    ensures r.Ok? ==> forall i :: 0 <= i < |r.value| ==> IsFragment(r.value[i])
  {
    var first := IndexOf(s, '<', c).value;
    LexFromFragments(s, first, []);
    LexFrom(s, first, [])
  }

  /* The routines themselves, on the scanning cursor. */

  method ParseTagAttrValue(input: Input, dlmt: char) returns (r: Result<string>)
    requires input.Valid()
    modifies input
    ensures input.Valid()
    ensures Agrees(r, AttrValueSpec(input.input, old(input.cursor), dlmt), input.cursor)
  {
    input.Next();
    var valueBgn := input.cursor;
    var found := input.Find(dlmt);
    if found.None? {
      return Err(UnterminatedAttributeValue);
    }
    var valueEnd := found.value;
    if valueBgn == valueEnd {
      return Ok("");
    }
    input.SetCursor(valueEnd);
    r := input.GetString(valueBgn, valueEnd);
  }

  /** The value part of one round of `parse_tag_attr`, with the cursor on the
      end of the attribute name. */
  method ParseAttrValuePart(input: Input, tagEnd: nat) returns (r: Result<string>)
    requires input.Valid()
    modifies input
    ensures input.Valid()
    ensures Agrees(r, AttrValuePart(input.input, old(input.cursor), tagEnd), input.cursor)
  {
    var value := "";
    if input.cursor != tagEnd {
      var eq := input.Find('=');
      if eq.Some? && eq.value < tagEnd {
        input.SetCursor(eq.value);
        input.NextChar();
        var dq := input.Expect('"');
        if dq {
          value :- ParseTagAttrValue(input, '"');
        } else {
          var sq := input.Expect('\'');
          if sq {
            value :- ParseTagAttrValue(input, '\'');
          }
        }
      }
    }
    return Ok(value);
  }

  /** The attribute loop of `parse_tag_attr`, from the first attribute. */
  /** One round of the attribute loop: the name, then its value. */
  method ReadAttr(input: Input, tagEnd: nat) returns (r: Result<(string, string)>)
    requires input.Valid() && tagEnd < |input.input|
    modifies input
    ensures input.Valid()
    ensures Agrees(r, AttrPair(input.input, old(input.cursor), tagEnd), input.cursor)
  {
    ghost var s := input.input;
    var attrBgn := input.cursor;
    var attrEnd := tagEnd;
    var eq := input.Find('=');
    if eq.Some? && eq.value < tagEnd {
      attrEnd := eq.value;
    }
    var sp := input.Find(' ');
    if sp.Some? && sp.value < attrEnd {
      attrEnd := sp.value;
    }
    assert attrEnd == AttrNameEnd(s, attrBgn, tagEnd);
    input.SetCursor(attrEnd);
    var attrName :- input.GetString(attrBgn, attrEnd);
    var value :- ParseAttrValuePart(input, tagEnd);
    return Ok((attrName, value));
  }

  method ParseAttrLoop(input: Input, tagEnd: nat) returns (r: Result<map<string, string>>)
    requires input.Valid() && tagEnd < |input.input|
    modifies input
    ensures input.Valid()
    ensures Agrees(r, AttrLoop(input.input, old(input.cursor), tagEnd, map[]), input.cursor)
  {
    ghost var s := input.input;
    ghost var c0 := input.cursor;
    var attrMap: map<string, string> := map[];
    while true
      invariant input.Valid()
      invariant AttrLoop(s, c0, tagEnd, map[]) == AttrLoop(s, input.cursor, tagEnd, attrMap)
      decreases |s| - input.cursor
    {
      var atEnd := input.Expect('>');
      if atEnd {
        input.Next();
        assert AttrLoop(s, c0, tagEnd, map[]) == Ok(Scanned(attrMap, input.cursor));
        return Ok(attrMap);
      }
      var pair :- ReadAttr(input, tagEnd);
      attrMap := attrMap[pair.0 := pair.1];

      atEnd := input.Expect('>');
      if atEnd {
        input.Next();
        assert AttrLoop(s, c0, tagEnd, map[]) == Ok(Scanned(attrMap, input.cursor));
        return Ok(attrMap);
      }
      input.NextChar();
    }
  }

  method ParseTagAttr(input: Input, tag: Tag) returns (r: Result<Tag>)
    requires input.Valid()
    modifies input, tag
    ensures input.Valid()
    ensures match TagAttrSpec(input.input, old(input.cursor), old(tag.Value()))
            case Ok(sc) => r == Ok(tag) && tag.Value() == sc.value && input.cursor == sc.cursor
            case Err(e) => r == Err(e)
  {
    var found := input.Find('>');
    if found.None? {
      return Err(UnterminatedTag);
    }
    var tagEnd := found.value;
    var attrMap :- ParseAttrLoop(input, tagEnd);
    ghost var loop := attrMap;
    if "/" in attrMap {
      attrMap := attrMap - {"/"};
      tag.SetTerminated(true);
    }
    assert attrMap == loop - {"/"};
    tag.SetAttr(attrMap);
    return Ok(tag);
  }

  method ParseTagName(input: Input, terminator: bool) returns (r: Result<Tag>)
    requires input.Valid()
    modifies input
    ensures input.Valid()
    ensures match TagNameSpec(input.input, old(input.cursor), terminator)
            case Ok(sc) => r.Ok? && r.value.Value() == sc.value && input.cursor == sc.cursor
            case Err(e) => r == Err(e)
  {
    var nameBgn := input.cursor;
    var found := input.Find('>');
    if found.None? {
      return Err(UnterminatedTag);
    }
    var tagEnd := found.value;
    var nameEnd := tagEnd;
    var sp := input.Find(' ');
    if sp.Some? && sp.value < tagEnd {
      nameEnd := sp.value;
    }
    input.SetCursor(nameEnd);
    var name :- input.GetString(nameBgn, nameEnd);
    var tag := new Tag(name);
    tag.SetTerminator(terminator);

    var atEnd := input.Expect('>');
    if atEnd {
      input.Next();
      return Ok(tag);
    }
    input.NextChar();
    atEnd := input.Expect('>');
    if atEnd {
      input.Next();
      return Ok(tag);
    }
    r := ParseTagAttr(input, tag);
  }

  method ParseTag(input: Input) returns (r: Result<Dom>)
    requires input.Valid()
    modifies input
    ensures input.Valid()
    ensures match TagSpec(input.input, old(input.cursor))
            case Ok(sc) => r.Ok? && r.value.Value() == sc.value && input.cursor == sc.cursor
            case Err(e) => r == Err(e)
  {
    input.Next();
    var terminator := false;
    var slash := input.Expect('/');
    if slash {
      input.Next();
      terminator := true;
    }
    var tag :- ParseTagName(input, terminator);
    var dom := new Dom(TagType);
    dom.SetTag(tag.Value());
    return Ok(dom);
  }

  method ParseComment(input: Input) returns (r: Result<Dom>)
    requires input.Valid()
    modifies input
    ensures input.Valid()
    ensures match CommentSpec(input.input, old(input.cursor))
            case Ok(sc) => r.Ok? && r.value.Value() == sc.value && input.cursor == sc.cursor
            case Err(e) => r == Err(e)
  {
    var bgn := input.cursor + 4;
    var found := input.FindStr("-->");
    if found.None? {
      return Err(UnterminatedComment);
    }
    var end := found.value;
    input.SetCursor(end + 3);
    var body :- input.GetString(bgn, end);
    var dom := new Dom(CommentType);
    dom.SetComment(body);
    return Ok(dom);
  }

  method ParseText(input: Input) returns (r: Result<Dom>)
    requires input.Valid()
    modifies input
    ensures input.Valid()
    ensures match TextSpec(input.input, old(input.cursor))
            case Ok(sc) => r.Ok? && r.value.Value() == sc.value && input.cursor == sc.cursor
            case Err(e) => r == Err(e)
  {
    var bgn := input.cursor;
    var end;
    var found := input.Find('<');
    if found.Some? {
      input.SetCursor(found.value);
      end := found.value;
    } else {
      input.NextChar();
      end := input.cursor;
    }
    var text :- input.GetString(bgn, end);
    var dom := new Dom(TextType);
    dom.SetText(text);
    return Ok(dom);
  }

  method ParseTextScript(input: Input) returns (r: Result<Dom>)
    requires input.Valid()
    modifies input
    ensures input.Valid()
    ensures match ScriptTextSpec(input.input, old(input.cursor))
            case Ok(sc) => r.Ok? && r.value.Value() == sc.value && input.cursor == sc.cursor
            case Err(e) => r == Err(e)
  {
    var bgn := input.cursor;
    var found := input.FindStr("</script");
    if found.None? {
      return Err(UnterminatedTag);
    }
    var end := found.value;
    input.SetCursor(end);
    var text :- input.GetString(bgn, end);
    var dom := new Dom(TextType);
    dom.SetText(text);
    return Ok(dom);
  }

  /** The tag branch of a round of `create_dom_vec`, with the cursor on `<`. */
  method LexTag(input: Input) returns (r: Result<seq<Node>>)
    requires input.Valid()
    modifies input
    ensures input.Valid()
    ensures Agrees(r, TagRound(input.input, old(input.cursor)), input.cursor)
  {
    ghost var s, c := input.input, input.cursor;
    var dom :- ParseTag(input);
    ghost var d := TagSpec(s, c).value;
    assert dom.Value() == d.value && input.cursor == d.cursor;
    var isBgnScript := false;
    if dom.domType == TagType {
      var tag := dom.tag.value;
      if tag.name == "script" && !tag.terminator {
        isBgnScript := true;
      }
    }
    assert isBgnScript == IsScriptOpener(d.value);
    var frags := [dom.Value()];
    if isBgnScript {
      var atLt := input.Expect('<');
      if !atLt {
        var text :- ParseTextScript(input);
        frags := frags + [text.Value()];
        assert frags == [d.value, ScriptTextSpec(s, d.cursor).value.value];
      }
    }
    return Ok(frags);
  }

  /** The text branch of a round of `create_dom_vec`. */
  method LexText(input: Input) returns (r: Result<seq<Node>>)
    requires input.Valid() && input.cursor < |input.input| - 1 && input.input[input.cursor] != '<'
    modifies input
    ensures input.Valid()
    ensures Agrees(r, TextRound(input.input, old(input.cursor)), input.cursor)
  {
    var sp := input.Expect(' ');
    var nl := input.Expect('\n');
    if sp || nl {
      input.NextChar();
    }
    var atLt := input.Expect('<');
    if !atLt {
      var text :- ParseText(input);
      return Ok([text.Value()]);
    }
    return Ok([]);
  }

  /** One round of the main loop of `create_dom_vec`: the fragments it pushes. */
  method LexRound(input: Input) returns (r: Result<seq<Node>>)
    requires input.Valid() && input.cursor < |input.input| - 1
    modifies input
    ensures input.Valid()
    ensures Agrees(r, LexStep(input.input, old(input.cursor)), input.cursor)
  {
    var isComment := input.ExpectStr("<!--");
    if isComment {
      var dom :- ParseComment(input);
      return Ok([dom.Value()]);
    }
    var isTag := input.Expect('<');
    if isTag {
      r := LexTag(input);
    } else {
      r := LexText(input);
    }
  }

  method CreateDomVec(input: Input) returns (r: Result<seq<Node>>)
    requires input.Valid() && IndexOf(input.input, '<', input.cursor).Some?
    modifies input
    ensures input.Valid()
    ensures r == CreateDomVecSpec(input.input, old(input.cursor))
  {
    ghost var s := input.input;
    ghost var first := IndexOf(s, '<', input.cursor).value;
    var atLt := input.Expect('<');
    while !atLt
      invariant input.Valid() && input.cursor <= first
      invariant atLt <==> s[input.cursor] == '<'
      decreases first - input.cursor
    {
      input.NextChar();
      atLt := input.Expect('<');
    }

    var domVec: seq<Node> := [];
    var end := input.IsEnd();
    while !end
      invariant input.Valid()
      invariant end <==> input.cursor == |s| - 1
      invariant LexFrom(s, first, []) == LexFrom(s, input.cursor, domVec)
      decreases |s| - input.cursor
    {
      var frags :- LexRound(input);
      domVec := domVec + frags;
      end := input.IsEnd();
    }
    return Ok(domVec);
  }

  /* ---------- A document type declaration ---------- */

  /** `<!DOCTYPE html>` lexes as a tag named `!DOCTYPE` whose one attribute
      is `html` with the empty value. */
  lemma DoctypeExample()
    ensures TagSpec("<!DOCTYPE html>", 0)
            == Ok(Scanned(TagNode(TagData("!DOCTYPE", Some(map["html" := ""]), false, false)), 14))
  {
    var s := "<!DOCTYPE html>";
    assert NextPos(s, 0) == 1 && s[1] == '!';
    DoctypeTagName();
  }

  lemma DoctypeTagName()
    ensures TagNameSpec("<!DOCTYPE html>", 1, false)
            == Ok(Scanned(TagData("!DOCTYPE", Some(map["html" := ""]), false, false), 14))
  {
    var s := "<!DOCTYPE html>";
    DoctypeNameEnd();
    assert s[1..9] == "!DOCTYPE";
    assert Slice(s, 1, 9) == Ok("!DOCTYPE");
    assert TagNameSpec(s, 1, false) == TagAttrSpec(s, 10, TagData("!DOCTYPE", None, false, false));
    DoctypeAttrs();
  }

  lemma DoctypeNameEnd()
    ensures var s := "<!DOCTYPE html>";
            && IndexOf(s, '>', 1) == Some(14) && TagNameEnd(s, 1, 14) == 9
            && s[9] == ' ' && NextCharPos(s, 9) == 10 && s[10] == 'h'
  {
    var s := "<!DOCTYPE html>";
    IndexOfFirst(s, '>', 1, 14);
    IndexOfFirst(s, ' ', 1, 9);
    assert NextPos(s, 9) == 10;
  }

  /** The attribute `html` is read with the empty value, and the loop ends on
      the `>`. */
  lemma DoctypeAttrs()
    ensures TagAttrSpec("<!DOCTYPE html>", 10, TagData("!DOCTYPE", None, false, false))
            == Ok(Scanned(TagData("!DOCTYPE", Some(map["html" := ""]), false, false), 14))
  {
    var s := "<!DOCTYPE html>";
    IndexOfFirst(s, '>', 10, 14);
    assert IndexOf(s, '=', 10) == None;
    assert IndexOf(s, ' ', 10) == None;
    assert AttrNameEnd(s, 10, 14) == 14;
    assert s[10..14] == "html";
    assert AttrPair(s, 10, 14) == Ok(Scanned(("html", ""), 14));
    assert AttrLoop(s, 10, 14, map[]) == Ok(Scanned(map["html" := ""], 14));
    assert map["html" := ""] - {"/"} == map["html" := ""];
  }

  /** A trailing text with no `<` after it: from `abc` at the end of `<p>abc`
      the main loop reads `a`, then `b`, and stops on the last index, so `c`
      is never read. */
  lemma TrailingTextExample()
    ensures LexFrom("<p>abc", 3, []) == Ok([TextNode("a"), TextNode("b")])
  {
    var s := "<p>abc";
    TrailingTextStep(s, 3);
    TrailingTextStep(s, 4);
    assert LexFrom(s, 5, [TextNode("a"), TextNode("b")]) == Ok([TextNode("a"), TextNode("b")]);
    assert [] + [TextNode("a")] == [TextNode("a")];
    assert [TextNode("a")] + [TextNode("b")] == [TextNode("a"), TextNode("b")];
  }

  /** One round on a plain character with no `<` after it reads that character
      alone, because `next_char` moves only one step past it. */
  lemma TrailingTextStep(s: string, c: nat)
    requires c < |s| - 1 && s[c] != '<' && s[c + 1] != '<'
    requires !IsBlank(s[c]) && !IsBlank(s[c + 1])
    requires forall k :: c <= k < |s| ==> s[k] != '<'
    ensures LexStep(s, c) == Ok(Scanned([TextNode([s[c]])], c + 1))
  {
    assert !OccursAt(s, "<!--", c);
    assert IndexOf(s, '<', c) == None;
    assert NextPos(s, c) == c + 1;
    assert NextCharPos(s, c) == c + 1;
    assert s[c..c + 1] == [s[c]];
  }
  /** The `=` that starts a value is searched up to the `>`, past the space
      that ended the name: in `<a b c="x">` the name `b` takes the value `x`,
      and no attribute `c` is read. */
  lemma ValueAcrossSpaceExample()
    ensures TagAttrSpec("<a b c=\"x\">", 3, TagData("a", None, false, false))
            == Ok(Scanned(TagData("a", Some(map["b" := "x"]), false, false), 10))
  {
    var s := "<a b c=\"x\">";
    IndexOfFirst(s, '>', 3, 10);
    ValueAcrossSpacePair();
    assert NextCharPos(s, 9) == 10 && NextPos(s, 10) == 10;
    assert AttrLoop(s, 10, 10, map["b" := "x"]) == Ok(Scanned(map["b" := "x"], 10));
    assert AttrLoop(s, 3, 10, map[]) == Ok(Scanned(map["b" := "x"], 10));
    assert map["b" := "x"] - {"/"} == map["b" := "x"];
  }

  lemma ValueAcrossSpacePair()
    ensures AttrPair("<a b c=\"x\">", 3, 10) == Ok(Scanned(("b", "x"), 9))
  {
    var s := "<a b c=\"x\">";
    IndexOfFirst(s, '=', 3, 6);
    IndexOfFirst(s, ' ', 3, 4);
    assert AttrNameEnd(s, 3, 10) == 4;
    assert s[3..4] == "b";
    IndexOfFirst(s, '=', 4, 6);
    assert NextPos(s, 6) == 7 && NextCharPos(s, 6) == 7;
    IndexOfFirst(s, '"', 8, 9);
    assert s[8..9] == "x";
    assert AttrValueSpec(s, 7, '"') == Ok(Scanned("x", 9));
    assert AttrValuePart(s, 4, 10) == Ok(Scanned("x", 9));
  }
  /** `next_char` skips the blanks after its one step, so a trailing piece is
      one character with the blanks after it: after `<p>`, `a b` reads as the
      one text `a ` and `b` is never read. */
  lemma BlankTailExample()
    ensures LexFrom("<p>a b", 3, []) == Ok([TextNode("a ")])
  {
    var s := "<p>a b";
    assert !OccursAt(s, "<!--", 3);
    assert IndexOf(s, '<', 3) == None;
    assert NextPos(s, 3) == 4 && SkipBlanks(s, 5) == 5 && NextCharPos(s, 3) == 5;
    assert s[3..5] == "a ";
    assert LexStep(s, 3) == Ok(Scanned([TextNode("a ")], 5));
    assert [] + [TextNode("a ")] == [TextNode("a ")];
  }

  /** A round that starts on a blank and lands on the last index cannot move
      past it, so the text is an empty range: `<p> x` fails as a whole. */
  lemma LastCharTextExample()
    ensures LexFrom("<p> x", 3, []) == Err(InvalidRange)
  {
    var s := "<p> x";
    assert !OccursAt(s, "<!--", 3);
    assert NextPos(s, 3) == 4 && NextCharPos(s, 3) == 4;
    assert IndexOf(s, '<', 4) == None;
    assert NextPos(s, 4) == 4 && NextCharPos(s, 4) == 4;
    assert TextSpec(s, 4) == Err(InvalidRange);
    assert LexStep(s, 3) == Err(InvalidRange);
  }
}
