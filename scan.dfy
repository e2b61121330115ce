/** The scanning cursor (src/parser/input.rs): a character buffer and a cursor
    that never leaves it. The functions first state, on plain sequences, where
    each move and each search ends; the class `Input` then performs them with
    the source's loops and is proved to agree with them. */
module Scan {
  import opened Common

  /** The two characters `next_char` skips. */
  predicate IsBlank(c: char) { c == ' ' || c == '\n' }

  /** Unicode White_Space, the set Rust's `trim_end` removes. */
  predicate IsWhitespace(c: char)
  {
    || ('\t' <= c <= '\r') || c == ' ' || c == '\U{0085}' || c == '\U{00A0}'
    || c == '\U{1680}' || ('\U{2000}' <= c <= '\U{200A}') || c == '\U{2028}'
    || c == '\U{2029}' || c == '\U{202F}' || c == '\U{205F}' || c == '\U{3000}'
  }

  /** The buffer `Input::new` keeps: the document without trailing whitespace. */
  function TrimEnd(s: string): (r: string)
    ensures |r| <= |s| && r == s[..|r|]
    ensures r == [] || !IsWhitespace(r[|r| - 1])
    ensures forall k :: |r| <= k < |s| ==> IsWhitespace(s[k])
  {
    if s == [] || !IsWhitespace(s[|s| - 1]) then s else TrimEnd(s[..|s| - 1])
  }

  /** `set_cursor`: a position past the end is clamped to the last index. */
  function Clamp(s: seq<char>, c: nat): (r: nat)
    requires |s| > 0
    ensures r < |s|
    ensures c < |s| ==> r == c
    ensures c >= |s| ==> r == |s| - 1
  {
    if |s| <= c then |s| - 1 else c
  }

  /** `next`: one step forward, none from the last index. */
  function NextPos(s: seq<char>, c: nat): (r: nat)
    requires c < |s|
    ensures r < |s|
    ensures r == (if c < |s| - 1 then c + 1 else c)
  {
    if c < |s| - 1 then c + 1 else c
  }

  /** The least index from `c` on that holds a non-blank character, or the
      last index when there is none. */
  function SkipBlanks(s: seq<char>, c: nat): (r: nat)
    requires c < |s|
    ensures c <= r < |s|
    ensures r == |s| - 1 || !IsBlank(s[r])
    ensures forall k :: c <= k < r ==> IsBlank(s[k])
    decreases |s| - c
  {
    if IsBlank(s[c]) && c < |s| - 1 then SkipBlanks(s, c + 1) else c
  }

  /** `next_char`: one step, then over blanks. */
  function NextCharPos(s: seq<char>, c: nat): (r: nat)
    requires c < |s|
    ensures NextPos(s, c) <= r < |s|
  {
    SkipBlanks(s, NextPos(s, c))
  }

  /** The first index at or after `from` holding `ch`. */
  function IndexOf(s: seq<char>, ch: char, from: nat): (r: Option<nat>)
    ensures r.Some? ==> from <= r.value < |s| && s[r.value] == ch
    ensures r.Some? ==> forall k :: from <= k < r.value ==> s[k] != ch
    ensures r.None? <==> forall k :: from <= k < |s| ==> s[k] != ch
    decreases |s| - from
  {
    if |s| <= from then None
    else if s[from] == ch then Some(from)
    else IndexOf(s, ch, from + 1)
  }

  /** The first index holding `ch` is the one `IndexOf` finds. */
  lemma IndexOfFirst(s: seq<char>, ch: char, from: nat, i: nat)
    requires from <= i < |s| && s[i] == ch
    requires forall k :: from <= k < i ==> s[k] != ch
    ensures IndexOf(s, ch, from) == Some(i)
  {
  }

  /** `needle` occurs in `s` starting at index `i`. */
  predicate OccursAt(s: seq<char>, needle: seq<char>, i: nat)
  {
    i + |needle| <= |s| && s[i..i + |needle|] == needle
  }

  /** The first index at or after `from` where `needle` occurs. */
  function Occurrence(s: seq<char>, needle: seq<char>, from: nat): (r: Option<nat>)
    ensures r.Some? ==> from <= r.value && OccursAt(s, needle, r.value)
    ensures r.Some? ==> forall k :: from <= k < r.value ==> !OccursAt(s, needle, k)
    ensures r.None? <==> forall k :: from <= k ==> !OccursAt(s, needle, k)
    decreases |s| - from
  {
    if |s| < from + |needle| then
      assert forall k :: from <= k ==> !OccursAt(s, needle, k);
      None
    else if OccursAt(s, needle, from) then Some(from)
    else Occurrence(s, needle, from + 1)
  }

  lemma OccurrenceHere(s: seq<char>, needle: seq<char>, i: nat)
    requires OccursAt(s, needle, i)
    ensures Occurrence(s, needle, i) == Some(i)
  {
  }

  lemma OccurrenceNoRoom(s: seq<char>, needle: seq<char>, i: nat)
    requires |s| < i + |needle|
    ensures Occurrence(s, needle, i) == None
  {
  }

  /** A one-character needle occurs wherever its character does. */
  lemma SingleMatch(s: seq<char>, needle: seq<char>, i: nat)
    requires |needle| == 1 && i < |s| && s[i] == needle[0]
    ensures Occurrence(s, needle, i) == Some(i)
  {
    assert s[i..i + 1] == needle;
  }

  /** A start whose first character differs is passed over. */
  lemma FirstMismatch(s: seq<char>, needle: seq<char>, i: nat)
    requires i < |s| && |needle| > 0 && s[i] != needle[0]
    ensures Occurrence(s, needle, i) == Occurrence(s, needle, i + 1)
  {
    if i + |needle| <= |s| {
      assert s[i..i + |needle|][0] != needle[0];
    }
  }

  /** A start whose `j`-th character differs is passed over. */
  lemma LaterMismatch(s: seq<char>, needle: seq<char>, b: nat, j: nat)
    requires j < |needle| && b + j < |s| && s[b + j] != needle[j]
    ensures Occurrence(s, needle, b) == Occurrence(s, needle, b + 1)
  {
    if b + |needle| <= |s| {
      assert s[b..b + |needle|][j] != needle[j];
    }
  }

  /** `get_string`: the characters from `bgn` up to but excluding `end`. The
      range must be non-empty, and `end` must be an index of the buffer, so the
      last character can never be the end of a slice. */
  function Slice(s: seq<char>, bgn: nat, end: nat): (r: Result<string>)
    ensures r.Ok? <==> bgn < end < |s|
    ensures r.Ok? ==> r.value == s[bgn..end] && |r.value| == end - bgn
    ensures end <= bgn ==> r == Err(InvalidRange)
    ensures bgn < end && |s| <= end ==> r == Err(OutOfInput(bgn, end))
  {
    if end <= bgn then Err(InvalidRange)
    else if |s| <= end then Err(OutOfInput(bgn, end))
    else Ok(s[bgn..end])
  }

  /** `to_ascii_lowercase`. */
  function AsciiLower(c: char): char
  {
    if 'A' <= c <= 'Z' then (c as int + 32) as char else c
  }

  class Input {
    const input: seq<char>
    var cursor: nat

    ghost predicate Valid()
      reads this
    {
      |input| > 0 && cursor < |input|
    }

    /** `Input::new`: the document with trailing whitespace trimmed. An empty
        buffer makes every later move underflow, so it is excluded. */
    constructor (doc: string)
      requires TrimEnd(doc) != []
      ensures Valid()
      ensures input == TrimEnd(doc) && cursor == 0
    {
      input := TrimEnd(doc);
      cursor := 0;
    }

    method SetCursor(c: nat)
      requires Valid()
      modifies this
      ensures Valid()
      ensures cursor == Clamp(input, c)
    {
      if |input| <= c {
        cursor := |input| - 1;
        return;
      }
      cursor := c;
    }

    method Next()
      requires Valid()
      modifies this
      ensures Valid()
      ensures cursor == NextPos(input, old(cursor))
    {
      if cursor < |input| - 1 {
        cursor := cursor + 1;
      }
    }

    method NextChar()
      requires Valid()
      modifies this
      ensures Valid()
      ensures cursor == NextCharPos(input, old(cursor))
    {
      if cursor < |input| - 1 {
        cursor := cursor + 1;
      }
      ghost var bgn := cursor;
      var i := cursor;
      while i < |input|
        invariant bgn <= cursor < |input| && i == cursor
        invariant SkipBlanks(input, bgn) == SkipBlanks(input, cursor)
      {
        if input[i] == ' ' || input[i] == '\n' {
          if cursor == |input| - 1 {
            break;
          }
          cursor := cursor + 1;
        } else {
          break;
        }
        i := i + 1;
      }
    }

    method IsEnd() returns (b: bool)
      requires Valid()
      ensures b <==> cursor == |input| - 1
    {
      if cursor == |input| - 1 {
        return true;
      }
      return false;
    }

    method Expect(exp: char) returns (b: bool)
      requires Valid()
      ensures b <==> input[cursor] == exp
    {
      b := input[cursor] == exp;
    }

    method ExpectStr(exp: string) returns (b: bool)
      requires Valid()
      ensures b <==> cursor + |exp| <= |input| && input[cursor..cursor + |exp|] == exp
    {
      if |input| < cursor + |exp| {
        return false;
      }
      for i := 0 to |exp|
        invariant forall k :: 0 <= k < i ==> input[cursor + k] == exp[k]
      {
        if exp[i] != input[cursor + i] {
          assert input[cursor..cursor + |exp|][i] != exp[i];
          return false;
        }
      }
      assert input[cursor..cursor + |exp|] == exp;
      return true;
    }

    /** Both sides are lowered as ASCII. */
    method ExpectStrInsensitive(exp: string) returns (b: bool)
      requires Valid()
      ensures b <==> cursor + |exp| <= |input|
                     && forall k :: 0 <= k < |exp| ==> AsciiLower(exp[k]) == AsciiLower(input[cursor + k])
    {
      if |input| < cursor + |exp| {
        return false;
      }
      for i := 0 to |exp|
        invariant forall k :: 0 <= k < i ==> AsciiLower(exp[k]) == AsciiLower(input[cursor + k])
      {
        if AsciiLower(exp[i]) != AsciiLower(input[cursor + i]) {
          return false;
        }
      }
      return true;
    }

    method Find(needle: char) returns (r: Option<nat>)
      requires Valid()
      ensures r.Some? ==> cursor <= r.value < |input| && input[r.value] == needle
      ensures r.Some? ==> forall k :: cursor <= k < r.value ==> input[k] != needle
      ensures r.None? <==> forall k :: cursor <= k < |input| ==> input[k] != needle
      ensures r == IndexOf(input, needle, cursor)
    {
      var bgn := cursor;
      if |input| <= bgn {
        return None;
      }
      for i := bgn to |input|
        invariant forall k :: bgn <= k < i ==> input[k] != needle
      {
        if input[i] == needle {
          return Some(i);
        }
      }
      return None;
    }

    /** The naive scan of the source: on a mismatch it restarts one past the
        previous start, so no occurrence is skipped. */
    method FindStr(needle: string) returns (r: Option<nat>)
      requires Valid()
      requires |needle| > 0
      ensures r == Occurrence(input, needle, cursor)
    {
      var i := cursor;
      if |input| <= i {
        return None;
      }
      var bgnIdx := 0;
      while i < |input|
        invariant cursor <= i <= |input|
        invariant Occurrence(input, needle, cursor) == Occurrence(input, needle, i)
        decreases |input| - i
      {
        // first character
        if input[i] == needle[0] {
          if |needle| == 1 {
            SingleMatch(input, needle, i);
            return Some(i);
          }
          bgnIdx := i;
          i := i + 1;
        } else {
          FirstMismatch(input, needle, i);
          i := i + 1;
          continue;
        }

        // second and subsequent characters
        var done, found := MatchRest(needle, bgnIdx);
        if done {
          return found;
        }
        i := bgnIdx + 1;
      }
      OccurrenceNoRoom(input, needle, i);
      return None;
    }

    /** The inner loop of `find_str`: compares the rest of `needle` with the
        text after a start `bgn` whose first character matched. It either
        settles the search (a match at `bgn`, or the end of the buffer) or
        reports that the search goes on one past `bgn`. */
    method MatchRest(needle: string, bgn: nat) returns (done: bool, r: Option<nat>)
      requires Valid()
      requires |needle| > 1 && bgn < |input| && input[bgn] == needle[0]
      ensures done ==> r == Occurrence(input, needle, bgn)
      ensures !done ==> Occurrence(input, needle, bgn) == Occurrence(input, needle, bgn + 1)
    {
      var i := bgn + 1;
      var j := 1;
      while j < |needle|
        invariant 1 <= j < |needle| && i == bgn + j && i <= |input|
        invariant forall m :: 0 <= m < j ==> input[bgn + m] == needle[m]
        decreases |needle| - j
      {
        if |input| <= i {
          OccurrenceNoRoom(input, needle, bgn);
          return true, None;
        }
        if input[i] == needle[j] {
          if j == |needle| - 1 {
            assert input[bgn..bgn + |needle|] == needle;
            OccurrenceHere(input, needle, bgn);
            return true, Some(bgn);
          }
        } else {
          LaterMismatch(input, needle, bgn, j);
          return false, None;
        }
        i := i + 1;
        j := j + 1;
      }
      assert false;
      return false, None;
    }

    method GetString(bgn: nat, end: nat) returns (r: Result<string>)
      requires Valid()
      ensures r.Ok? <==> bgn < end < |input|
      ensures r.Ok? ==> r.value == input[bgn..end]
      ensures r == Slice(input, bgn, end)
    {
      if end <= bgn {
        return Err(InvalidRange);
      }
      if |input| <= end {
        return Err(OutOfInput(bgn, end));
      }
      var s := "";
      for i := bgn to end
        invariant s == input[bgn..i]
      {
        s := s + [input[i]];
      }
      return Ok(s);
    }
  }
}
