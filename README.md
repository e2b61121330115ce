# parsercher in Dafny

parsercher is a Rust crate that parses an HTML- or XML-like tag document into
a tree of typed nodes and answers queries against that tree. It compares
nodes with a "sufficient condition" relation instead of equality. This project
models the crate's core as Dafny code and proves properties of it. The modules
follow the crate's files:

- `Common` (`common.dfy`) holds the `Option`/`Result` wrappers and the
  parse errors. The crate reports its errors as strings; here each is a
  constructor of `ParseError`.
- `Scan` (`scan.dfy`) is `src/parser/input.rs`. The class `Input` holds a
  character buffer and a cursor that never leaves it. Its methods run the
  crate's loops and are proved against functions that say where each move
  and each search ends.
- `Tags` (`tags.dfy`) is `src/dom/tag.rs`. `TagData` is a tag as a value.
  The class `Tag` is the object the parser fills in. `TagImplies` is the
  tag half of the sufficient condition.
- `Doms` (`doms.dfy`) is `src/dom/mod.rs`. `Node` is a node as a value,
  holding its children in order. The class `Dom` is the object that
  `add_child` grows. `NodeImplies` and `TreeImplies` are the node and
  subtree halves of the sufficient condition.
- `Lexer` (`lexer.dfy`) is the first half of `src/parser/mod.rs`.
  `create_dom_vec` and the `parse_*` routines turn the text into a flat
  list of childless fragments. Each routine is a function of the buffer and
  the starting cursor, returning the value and the final cursor. The method
  that runs on an `Input` is proved to agree with it.
- `Reducer` (`reducer.dfy`) is the second half of `src/parser/mod.rs`.
  `search_terminator` and `create_dom_tree` fold the fragment list into a
  tree, and `parse` puts it all together. `Reduce` states what one call of
  `create_dom_tree` appends and which part of the list it leaves.
- `Searcher` (`searcher.dfy`) is `src/searcher.rs`. The four collecting
  queries and the subtree search each appear three times: as a pair of
  recursive functions, as the crate's `_exe` walk (a method with the loop
  over the children), and as the public wrapper. Each query is also proved
  equal to a filter over `PreOrder`, the plain pre-order listing of the
  tree.

Behaviour of the crate that the model keeps as it is:

- The cursor does not skip blanks before the `-->` search. An empty
  comment `<!---->` therefore asks `get_string` for an empty range and fails
  with the invalid-range error.
- A text with no `<` after it ends where `next_char` stops: one step on,
  then past any spaces and newlines, but never past the last index
  (`TextSpec`). The main loop reads the rest the same way and stops on the
  last index. So a trailing text is cut into pieces, each one character
  with the blanks after it, and its last character is dropped:
  - `<p>abc` gives the texts `a` and `b` (`Lexer.TrailingTextExample`);
  - `<p>a b` gives the one text `a ` (`Lexer.BlankTailExample`).
- A text round that begins on a blank and lands on the last index cannot
  step past it. Its text is an empty range, so `<p> x` fails as a whole
  with the invalid-range error (`Lexer.LastCharTextExample`).
- An attribute name that would be empty fails with the invalid-range
  error, so `<a =b>` fails (`Lexer.AttrPair`).
- The `=` that starts a value is searched up to the tag's `>`, not only up
  to the next space. In `<a b c="x">` the name `b` takes the value `x`, and
  no attribute `c` is read (`Lexer.ValueAcrossSpaceExample`).
- A nested `create_dom_tree` call stops at the first closing tag of any
  name. In `<a>x</b>y</a>`, `y` becomes a sibling of `a`
  (`Reducer.ReduceElementOfLeaves`).
- A closing tag with no opener at the top level ends the build. Every
  fragment after it is dropped (`Reducer.ParseDocumentOrder`).
- `search_tag` and `search_text_from_tag_children` do not walk into a node
  without a tag (a text or a comment). `search_tag_from_name` walks only
  into Tag nodes. `search_attr` walks into every node.

## Model

| member | source | states |
|---|---|---|
| Scan.TrimEnd | src/parser/input.rs:8-13 | the buffer is the document minus its trailing Unicode whitespace: a prefix, not ending in whitespace, with only whitespace cut |
| Scan.Input.constructor | src/parser/input.rs:8-13 | a new input holds the trimmed document, with the cursor at 0 |
| Scan.Clamp | src/parser/input.rs:15-21 | the cursor set is `c` when `c` is an index, else the last index; always an index |
| Scan.Input.SetCursor | src/parser/input.rs:15-21 | the new cursor is `Clamp(input, c)`, and the cursor stays inside the buffer |
| Scan.NextPos | src/parser/input.rs:28-32 | one step forward, or no move at the last index |
| Scan.Input.Next | src/parser/input.rs:28-32 | the new cursor is `NextPos` of the old one |
| Scan.SkipBlanks | src/parser/input.rs:40-51 | the first index from the start holding neither space nor newline, or the last index; everything skipped is a space or a newline |
| Scan.NextCharPos | src/parser/input.rs:36-52 | `next_char` ends at or after the one-step position, inside the buffer |
| Scan.Input.NextChar | src/parser/input.rs:36-52 | the loop leaves the cursor at `NextCharPos` of the old cursor |
| Scan.Input.IsEnd | src/parser/input.rs:55-60 | true exactly when the cursor is on the last index |
| Scan.Input.Expect | src/parser/input.rs:63-69 | true exactly when the character under the cursor is `exp` |
| Scan.Input.ExpectStr | src/parser/input.rs:72-85 | true exactly when `exp` fits before the end and the characters from the cursor equal it; no read past the end |
| Scan.Input.ExpectStrInsensitive | src/parser/input.rs:89-102 | true exactly when `exp` fits and each character agrees with the input after ASCII lowering |
| Scan.IndexOf | src/parser/input.rs:105-116 | the least index at or after `from` holding the character; None exactly when there is none |
| Scan.Input.Find | src/parser/input.rs:105-116 | the least index at or after the cursor holding the needle, or None when there is none; the cursor is not moved |
| Scan.Occurrence | src/parser/input.rs:119-162 | the least index at or after `from` where the needle occurs; None exactly when it occurs nowhere after |
| Scan.Input.FindStr | src/parser/input.rs:119-162 | the naive scan with restart finds exactly `Occurrence` from the cursor, so no occurrence is skipped |
| Scan.Input.MatchRest | src/parser/input.rs:140-158 | comparing the rest of the needle after a matching first character either settles the search (the match, or no room left in the buffer) or shows that the search may resume one past the start without losing an occurrence |
| Scan.FirstMismatch | src/parser/input.rs:128-137 | a start whose first character differs from the needle's is not an occurrence, so the search goes on from the next index |
| Scan.LaterMismatch | src/parser/input.rs:147-152 | a start whose j-th character differs from the needle's is not an occurrence |
| Scan.SingleMatch | src/parser/input.rs:130-132 | a one-character needle occurs at the first index holding its character |
| Scan.Slice | src/parser/input.rs:174-189 | succeeds exactly when `bgn < end` and `end` is an index of the buffer, with the characters `bgn..end` (length `end - bgn`); an empty or reversed range and an end past the buffer give their errors |
| Scan.Input.GetString | src/parser/input.rs:174-189 | the copying loop returns `Slice` of the buffer |
| Tags.Tag.constructor | src/dom/tag.rs:20-27 | a new tag has the given name, no attribute map, and both flags false |
| Tags.Tag.SetAttr | src/dom/tag.rs:49-51 | the whole attribute map is replaced, and nothing else changes |
| Tags.Tag.SetTerminated | src/dom/tag.rs:72-74 | the self-closed flag becomes `b`, and nothing else changes |
| Tags.Tag.SetTerminator | src/dom/tag.rs:88-90 | the closing-marker flag becomes `b`, and nothing else changes |
| Tags.AttrValue | src/searcher.rs:340-347 | `get_attr(name)` gives a value exactly when the tag has a map holding the key, and then the mapped value |
| Tags.TagImpliesReflexive | src/searcher.rs:59-63 | every tag satisfies itself as a needle |
| Tags.TagImpliesTransitive | src/searcher.rs:59-63 | needles chain: if `p` is satisfied by `q` and `q` by `t`, then `p` by `t` |
| Tags.WildcardNeedsOnlyPresence | src/searcher.rs:59-63 | an empty needle value is satisfied by any value of a present attribute, and fails when the attribute is absent |
| Tags.ExtraAttributesKeepMatch | examples/satisfy_sufficient_condition.rs:5-16 | adding attributes the needle does not constrain keeps a match |
| Tags.H1Example | examples/p_implies_q.rs:5-16 | `h1{class:target}` is satisfied by `h1{id:q, class:target}` and not by `h1{id:q}` |
| Doms.RootNode | tests/parse_test.rs:33-38 | the root is a Tag node named `root`, with no children yet |
| Doms.Dom.constructor | src/dom/mod.rs:32-40 | a new node has the given variant, no payload and no children |
| Doms.Dom.NewRoot | src/searcher.rs:266-273 | `Dom::new_root` gives the root node |
| Doms.Dom.FromValue | src/parser/mod.rs:505-506 | the node taken off the fragment list, as an object |
| Doms.Dom.SetTag | src/dom/mod.rs:54-59 | only a Tag node takes a tag, and only the tag changes |
| Doms.Dom.SetText | src/dom/mod.rs:71-76 | only a Text node takes a text, and only the text changes |
| Doms.Dom.SetComment | src/dom/mod.rs:88-93 | only a Comment node takes a comment, and only the comment changes |
| Doms.Dom.AddChild | src/dom/mod.rs:102-114 | the children become the old children followed by `d`; variant and payloads are unchanged; afterwards `get_children` is Some and one longer |
| Doms.Dom.GetChildren | src/dom/mod.rs:118-120 | None exactly when no child was ever added, otherwise the children in order |
| Doms.NodeImpliesReflexive | src/searcher.rs:275-279 | every well-formed node satisfies itself as a needle |
| Doms.TreeImpliesReflexive | src/searcher.rs:275-279 | every well-formed tree satisfies itself as a needle tree, at every depth |
| Doms.LeafPatternImpliesAny | src/searcher.rs:275-279 | a needle without children puts no constraint below the root |
| Lexer.AttrValueSpec | src/parser/mod.rs:121-138 | a quoted value is the text strictly between the delimiter and its next occurrence, which holds no delimiter (`""` for adjacent quotes); with no closing delimiter it fails as unterminated; the cursor stops on the closing delimiter |
| Lexer.ParseTagAttrValue | src/parser/mod.rs:121-138 | the method's result and final cursor agree with `AttrValueSpec` |
| Lexer.AttrNameEnd | src/parser/mod.rs:165-181 | an attribute name ends at the first space, the first `=` or the tag's `>`, whichever is first, and holds neither space nor `=` |
| Lexer.AttrValuePart | src/parser/mod.rs:186-207 | a value is non-empty only when an `=` before the tag's end is followed, after blanks, by a quote; at the tag's end it is empty |
| Lexer.ParseAttrValuePart | src/parser/mod.rs:186-207 | the method agrees with `AttrValuePart` |
| Lexer.AttrPair | src/parser/mod.rs:165-207 | one round reads the name from the start up to `AttrNameEnd`, which is non-empty, and the value `AttrValuePart` reads from there, with its final cursor; a name end at or before the start (as in `<a =b>`) is an invalid range, and a failing value fails the round |
| Lexer.ReadAttr | src/parser/mod.rs:165-207 | the method agrees with `AttrPair` |
| Lexer.AttrLoop | src/parser/mod.rs:159-217 | the attribute loop keeps every attribute gathered so far, inserts the name its first round reads, fails with that round's error, and never moves the cursor back |
| Lexer.ParseAttrLoop | src/parser/mod.rs:159-217 | the method's loop agrees with `AttrLoop` |
| Lexer.TagAttrSpec | src/parser/mod.rs:147-227 | no `>` gives the unterminated-tag error; on success the name and closing flag are kept, the map is the loop's map without `/`, and the tag is self-closed exactly when it was or `/` was among the attributes |
| Lexer.ParseTagAttr | src/parser/mod.rs:147-227 | the method agrees with `TagAttrSpec` on the tag object it fills |
| Lexer.TagNameEnd | src/parser/mod.rs:247-254 | a tag name ends at the first space before the tag's `>`, else at the `>` |
| Lexer.TagNameSpec | src/parser/mod.rs:236-274 | no `>` gives the unterminated-tag error; on success the name is the non-empty text up to `TagNameEnd` and the closing flag is the one passed in |
| Lexer.ParseTagName | src/parser/mod.rs:236-274 | the method agrees with `TagNameSpec` |
| Lexer.TagSpec | src/parser/mod.rs:283-298 | a tag fragment is a well-formed, childless Tag node whose closing flag is set exactly when `/` directly follows `<` |
| Lexer.ParseTag | src/parser/mod.rs:283-298 | the method agrees with `TagSpec` |
| Lexer.CommentSpec | src/parser/mod.rs:305-321 | without a `-->` the comment is unterminated; otherwise the payload is the text from after `<!--` to the first `-->`, which must lie past `<!--` |
| Lexer.ParseComment | src/parser/mod.rs:305-321 | the method agrees with `CommentSpec` |
| Lexer.TextSpec | src/parser/mod.rs:324-345 | the text runs from the cursor to the next `<`, or, with none left, to where `next_char` stops |
| Lexer.ParseText | src/parser/mod.rs:324-345 | the method agrees with `TextSpec` |
| Lexer.ScriptTextSpec | src/parser/mod.rs:348-364 | a script body is everything up to the first `</script`, verbatim; with none it fails as unterminated |
| Lexer.ParseTextScript | src/parser/mod.rs:348-364 | the method agrees with `ScriptTextSpec` |
| Lexer.TagRound | src/parser/mod.rs:431-455 | a tag round emits the node `TagSpec` reads first; a second fragment exactly when that tag opens a `script` and the character after it is not `<`, and then it is the body `ScriptTextSpec` reads; a failing tag fails the round; all are childless fragments |
| Lexer.LexTag | src/parser/mod.rs:431-455 | the method agrees with `TagRound` |
| Lexer.TextRound | src/parser/mod.rs:456-468 | on a blank the cursor first moves to `NextCharPos`, skipping only blanks; a `<` there ends the round with nothing emitted; otherwise one Text node is emitted whose text is the characters from there to the new cursor |
| Lexer.LexText | src/parser/mod.rs:456-468 | the method agrees with `TextRound` |
| Lexer.LexStep | src/parser/mod.rs:425-468 | one round moves the cursor forward and emits only childless, well-formed fragments |
| Lexer.LexRound | src/parser/mod.rs:425-468 | the method agrees with `LexStep` |
| Lexer.LexFrom | src/parser/mod.rs:422-470 | the main loop only appends to the fragments emitted so far |
| Lexer.LexFromFragments | src/parser/mod.rs:422-470 | everything the main loop appends is a childless, well-formed fragment |
| Lexer.DoctypeExample | tests/parse_test.rs:44-46 | the tag `<!DOCTYPE html>` reads as a tag named `!DOCTYPE` whose one attribute is `html` with the empty value, neither flag set |
| Lexer.ValueAcrossSpaceExample | src/parser/mod.rs:165-217 | in `<a b c="x">` the attributes read are exactly `b` with the value `x`: the value's `=` search passes the space that ended the name |
| Lexer.TrailingTextExample | src/parser/mod.rs:324-345 | after `<p>`, the main loop reads the trailing `abc` as the two texts `a` and `b` and stops on the last index |
| Lexer.BlankTailExample | src/parser/mod.rs:324-345 | after `<p>`, the main loop reads the trailing `a b` as the one text `a `, since `next_char` skips the blank after its step, and stops on the last index |
| Lexer.LastCharTextExample | src/parser/mod.rs:456-468 | for `<p> x`, the text round skips the blank onto the last index, where `next_char` cannot move, and fails with the invalid-range error |
| Lexer.CreateDomVecSpec | src/parser/mod.rs:406-471 | the fragment list, when lexing succeeds, holds only childless, well-formed fragments |
| Lexer.CreateDomVec | src/parser/mod.rs:406-471 | both loops of `create_dom_vec` on the input agree with `CreateDomVecSpec` |
| Reducer.TerminatorIndex | src/parser/mod.rs:486-501 | the index of the first closing tag with the starter's name; None exactly when there is none |
| Reducer.SearchTerminator | src/parser/mod.rs:486-501 | the scan returns `TerminatorIndex` |
| Reducer.ReduceStep | src/parser/mod.rs:505-531 | one pass removes at least the front fragment; it stops exactly on a closing tag, and then only that tag is removed |
| Reducer.Reduce | src/parser/mod.rs:504-533 | one call leaves a suffix of the list, strictly shorter when the list is non-empty |
| Reducer.CreateStep | src/parser/mod.rs:505-531 | one pass of the loop, with its recursive call, does what `ReduceStep` states |
| Reducer.CreateDomTree | src/parser/mod.rs:504-533 | the parent's children grow by what `Reduce` appends, nothing else about the parent changes, and the list left is the one `Reduce` leaves |
| Reducer.ReduceBuilt | src/parser/mod.rs:511-531 | no closing tag is ever appended, every appended node is well-formed, and a self-closed tag has no children |
| Reducer.ReduceStopsAfterCloser | src/parser/mod.rs:511-514 | when a call leaves part of the list, the fragment just before it was a closing tag |
| Reducer.ReducePreOrder | src/parser/mod.rs:504-533 | read in pre-order without children, what a call appends is exactly the non-closing fragments it consumed, in order |
| Reducer.ReduceKeepsEverything | src/parser/mod.rs:504-533 | when the whole list is consumed, every non-closing fragment is in the tree, in document order |
| Reducer.ReduceUnclosedStaysLeaf | src/parser/mod.rs:516-528 | a self-closed tag, or one with no closing tag ahead, is appended without children |
| Reducer.ReduceEmptyElement | src/parser/mod.rs:519-523 | a closing tag right after its opener is removed, and the element stays empty |
| Reducer.ReduceCloserFirst | src/parser/mod.rs:511-514 | a closing tag at the front ends the call and appends nothing |
| Reducer.ReduceLeafFirst | src/parser/mod.rs:507-531 | a text or comment at the front is appended as it is |
| Reducer.ReduceNestedFirst | src/parser/mod.rs:524-527 | an opener whose closing tag lies ahead, but not next, takes what a nested call appends, and the call goes on where the nested one stopped |
| Reducer.ReduceLeavesThenCloser | src/parser/mod.rs:504-533 | texts and comments up to a closing tag are appended in order, and the closing tag ends the call |
| Reducer.ReduceElementOfLeaves | src/parser/mod.rs:516-531 | an element holding texts and comments takes them as children up to the first closing tag of any name |
| Reducer.ParseSpec | src/parser/mod.rs:104-112 | a parse gives the root Tag node, and every node below it is built: well-formed, never a closing tag, self-closed tags childless |
| Reducer.ParseDocumentOrder | src/parser/mod.rs:104-112 | the parsed tree, read in pre-order, is the lexed fragments up to the first stray closing tag, closing tags removed, in document order |
| Reducer.Parse | src/parser/mod.rs:104-112 | `parse` returns `ParseSpec` of the document |
| Searcher.TagsMatchedSound | src/searcher.rs:59-64 | every tag `search_tag_exe` reports is one the needle implies |
| Searcher.TagsMatchedPreOrder | src/searcher.rs:59-71 | on a well-formed tree, `search_tag_exe` reports exactly the tags the needle implies, in pre-order, parent before children |
| Searcher.TagsMatchedComplete | src/searcher.rs:59-71 | every tag in a well-formed tree that the needle implies is reported |
| Searcher.SearchTagExe | src/searcher.rs:59-71 | the walk appends `TagsMatched` to the caller's vector |
| Searcher.SearchTagChildren | src/searcher.rs:65-69 | the loop over the children appends what their walks report, in order |
| Searcher.SearchTag | src/searcher.rs:50-57 | None exactly when nothing matches; otherwise the non-empty `TagsMatched` |
| Searcher.TagsNamed | src/searcher.rs:115-128 | every tag reported has the given name |
| Searcher.TagsNamedPreOrder | src/searcher.rs:115-128 | on a well-formed tree, exactly the tags with that name, in pre-order |
| Searcher.SearchTagFromNameExe | src/searcher.rs:115-128 | the walk appends `TagsNamed` to the caller's vector |
| Searcher.SearchTagFromNameChildren | src/searcher.rs:122-126 | the loop over the children appends what their walks report, in order |
| Searcher.SearchTagFromName | src/searcher.rs:106-113 | None exactly when no tag has the name; otherwise the non-empty `TagsNamed` |
| Searcher.ChildTextsPreOrder | src/searcher.rs:162-180 | on a well-formed tree, for each tag the needle implies, in pre-order, the texts of its direct children, nested matches included |
| Searcher.DirectTextsOnly | src/searcher.rs:164-172 | each text collected for a matching tag belongs to one of its direct children |
| Searcher.PushTexts | src/searcher.rs:166-172 | the first loop appends the text of each child that has one, in order |
| Searcher.SearchTextExe | src/searcher.rs:162-180 | the walk appends `ChildTexts` to the caller's vector |
| Searcher.SearchTextChildren | src/searcher.rs:174-178 | the second loop appends what the children's walks report, in order |
| Searcher.SearchTextFromTagChildren | src/searcher.rs:153-160 | None exactly when nothing is collected; otherwise the non-empty `ChildTexts` |
| Searcher.ItemsAgainstTarget | src/searcher.rs:9-21 | in the documented list, `li{class:target}` implies the first and third items' tags and not the second's, which has no `class` |
| Searcher.ItemReports | src/searcher.rs:59-63 | an item whose tag the needle implies reports its tag to `search_tag` and its one text to `search_text_from_tag_children` |
| Searcher.ItemSilent | src/searcher.rs:59-63 | an item whose tag the needle does not imply reports nothing to either search |
| Searcher.ListTagsExample | src/searcher.rs:9-48 | `search_tag` on the documented list gives the first and third `li` tags |
| Searcher.ListTextsExample | src/searcher.rs:9-14 | `search_text_from_tag_children` on the documented list gives `first`, `therd` |
| Searcher.DomMatchesNoneNamed | src/searcher.rs:275-290 | a tree with no Tag node named like the needle's root reports no subtree |
| Searcher.DomMatchesPassOver | src/searcher.rs:283-289 | a node the needle does not satisfy reports what its children report, in order |
| Searcher.TargetListsMatch | src/lib.rs:59-89 | the `ul` lists with class `targetList` and items `key1` and `key2` satisfy the needle list and are reported whole |
| Searcher.UnclassedListsSilent | src/lib.rs:77-97 | the lists without a `class` report nothing |
| Searcher.OuterListPassesDown | src/lib.rs:84-90 | a `ul` with the right class whose only child is another `ul` fails the needle's items, and the search reports the inner list |
| Searcher.DivsPassDown | src/lib.rs:82-92 | below the two `div`s only the third list is reported |
| Searcher.BodyExample | src/lib.rs:69-98 | in `body`, the first and the third list are reported, in that order |
| Searcher.ListsDocumentExample | src/lib.rs:68-138 | `search_dom` on the documented lists reports the first and the third list, as its printed output shows |
| Searcher.AttrValuesPreOrder | src/searcher.rs:340-354 | on any tree, the value of the attribute on every Tag node that has it, in pre-order |
| Searcher.AttrValuesCount | src/searcher.rs:340-354 | there are as many values as Tag nodes carrying the attribute |
| Searcher.SearchAttrExe | src/searcher.rs:340-354 | the walk appends `AttrValues` to the caller's vector |
| Searcher.SearchAttrChildren | src/searcher.rs:349-353 | the loop over the children appends what their walks report, in order |
| Searcher.SearchAttr | src/searcher.rs:331-338 | None exactly when no node carries the attribute; otherwise the non-empty `AttrValues` |
| Searcher.DomMatches | src/searcher.rs:275-290 | every result satisfies the needle at the root and below (`p_implies_q` and `p_implies_q_tree`) |
| Searcher.VisitsArePreOrder | src/searcher.rs:275-290 | the marked listing lists every node of the tree, in pre-order |
| Searcher.DomMatchesMaximal | src/searcher.rs:275-290 | the results are exactly the matching nodes with no matching ancestor, in pre-order: no result lies inside another, and a non-matching node is searched through its children |
| Searcher.DomMatchesAreSubtrees | src/searcher.rs:275-282 | every result is a whole subtree of the searched tree |
| Searcher.DomMatchesCover | src/searcher.rs:275-290 | every matching node of the tree lies inside some result |
| Searcher.SearchDomExe | src/searcher.rs:275-290 | the result root's children grow by `DomMatches`, and nothing else about it changes |
| Searcher.SearchDom | src/searcher.rs:266-273 | None exactly when nothing matches; otherwise a root node whose children are the matches |
| Searcher.LeafNeedle | src/searcher.rs:276-277 | a needle without children matches exactly when the roots satisfy `p_implies_q` |

## Left out

- The bodies of `Tag::p_implies_q`, `Dom::p_implies_q`, `Dom::p_implies_q_tree` and `Dom::new_root` are not part of this model.
  - The crate documents the relation only as a "sufficient condition" (`src/searcher.rs:5`, `src/searcher.rs:130`, `src/searcher.rs:185`), and its examples (`examples/p_implies_q.rs`, `examples/satisfy_sufficient_condition.rs`) show only that extra attributes on the candidate keep a match. The model therefore assumes a rule consistent with those examples.
  - `TagImplies` compares names, then each needle attribute. That an empty needle value asks only for presence is an assumption.
  - `NodeImplies` requires the same variant, then compares tags by `TagImplies`. Comparing texts and comments by substring containment is an assumption.
  - `TreeImplies` requires that every needle child is satisfied by some candidate child, recursively.
  - Tags.TagImpliesTransitive: holds for the assumed rule only. The crate's relation is described as not transitive in general, with attribute wildcards as the cause, so the lemma states nothing about the crate's own `p_implies_q`.
  - The root is taken to have no attribute map.
- `Dom::search` and `search_attrs` are not part of this model. The `search_dom` scenario of `src/lib.rs` is stated on a hand-built tree (`Searcher.ListsDocumentExample`).
- `parse_doctype`, `debug_print_dom_vec` and the tree printer are left out. The first is never called, and the others only print.
- The getters are left out. They are reads of the fields that the `Value()` functions expose.
- `src/lib.rs` holds only documentation and re-exports. Two of its examples are stated on hand-built trees: the `search_tag`/`search_text_from_tag_children` list (`Searcher.ListTagsExample`, `Searcher.ListTextsExample`) and the `search_dom` document (`Searcher.ListsDocumentExample`). The trees are written by hand, not lexed from the literal documents, because lexing a whole document was too costly to prove. The only literal input read by the lexer functions is the `<!DOCTYPE html>` tag (`Lexer.DoctypeExample`). The printed-tree example is not stated.
- `Comment` and `Text` are single strings, kept as the `comment` and `text` payloads.
- Children are a sequence. The crate's `None` list and an empty list cannot be told apart, since `add_child` only ever adds.
- Queries take nodes as values. Sharing and cloning are not modelled: `search_dom` copies a subtree, which is the same value.
- `Tags.Tag.SetAttr`: the whole-map setter of `src/dom/tag.rs` is modelled. The parser calls it `set_attrs`.
  - The examples' per-key `set_attr(name, value)` and the queries' `get_attr(name)` are not in `src/dom/tag.rs`.
  - `get_attr(name)` is modelled by `Tags.AttrValue` as a map lookup.
- Attribute maps are unordered `map`s. HashMap iteration order only affects printing.
- The buffer is a sequence of characters. The byte length `exp.len()` of a needle equals its character count for the ASCII needles the parser uses.
- Scan.Input.constructor: requires a document that is not empty after trimming. On an empty buffer the crate's `len() - 1` underflows and panics.
- Lexer.CreateDomVecSpec: requires a `<` at or after the cursor. Without one, the crate's first loop spins forever on the last index. Reducer.ParseSpec and Reducer.Parse carry the same requirement.
- The `unwrap` calls on the tag of a Tag node become requirements:
  - Reducer.SearchTerminator: requires `TagsPresent`.
  - Searcher.TagsNamed and Searcher.SearchTagFromName: require `TagNodesHaveTags`.
  - The parser only builds Tag nodes that carry a tag (`Reducer.ReduceBuilt`).
- Scan.Input.ExpectStrInsensitive: lowers the expected string as ASCII, while the crate lowers it with Unicode `to_lowercase`. The two agree on ASCII needles. Its only caller is `parse_doctype`, which is not called.
- Scan.Input.FindStr: requires a non-empty needle. The crate indexes `needle[0]`, and every needle it passes is non-empty.
- Some code the crate writes inline is split into helper methods, each with its own contract: `Scan.Input.MatchRest` (the inner comparison loop of `find_str`), `Lexer.ParseAttrValuePart` and `Lexer.ReadAttr` (one round of the attribute loop), `Lexer.ParseAttrLoop` (the attribute loop), `Lexer.LexTag`, `Lexer.LexText` and `Lexer.LexRound` (one round of the main loop of `create_dom_vec`), `Reducer.CreateStep`, the `*Children` loops and `Searcher.PushTexts`.
- The `search_text_from_tag_children`, `search_tag` and `search_tag_from_name` pre-order lemmas assume well-formed trees. On a node that is not well formed, the walks' own functions still describe them exactly.
