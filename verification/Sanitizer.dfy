/**
  Removal of HTML from mail text.  The two regular expressions are written as the leftmost scans they are; both
  are deterministic, so no backtracking is lost.
 */
module Sanitizer {
  import opened Wrappers
  import opened Text

  /** Word characters, and case-insensitive equality with a pattern letter and with the captured name. */
  datatype Matching = Matching(isWord: char -> bool, same: (char, char) -> bool, sameAgain: (char, char) -> bool)

  /** Case folding never makes a pattern letter match '>'. */
  ghost predicate Sensible(m: Matching) {
    forall a | a != '>' :: !m.same(a, '>')
  }

  function SkipSpaces(s: string, i: nat): (j: nat)
    requires i <= |s|
    ensures i <= j <= |s| && (forall k | i <= k < j :: IsSpace(s[k])) && (j < |s| ==> !IsSpace(s[j]))
    decreases |s| - i
  {
    if i < |s| && IsSpace(s[i]) then SkipSpaces(s, i + 1) else i
  }

  predicate MatchesAt(same: (char, char) -> bool, word: string, s: string, i: nat) {
    i + |word| <= |s| && forall k | 0 <= k < |word| :: same(word[k], s[i + k])
  }

  predicate IsElement(m: Matching, name: string, s: string, i: nat) {
    MatchesAt(m.same, name, s, i) && (i + |name| < |s| ==> !m.isWord(s[i + |name|]))
  }

  /** The length of the active element name at `i`; no two names can match at one place. */
  function ElementLength(m: Matching, s: string, i: nat): nat {
    if IsElement(m, "script", s, i) then 6
    else if IsElement(m, "style", s, i) then 5
    else if IsElement(m, "iframe", s, i) then 6
    else if IsElement(m, "form", s, i) then 4
    else 0
  }

  /** `<\s*(script|style|iframe|form)\b[^>]*>` at the front: the captured name and where the match ends. */
  function OpenTag(m: Matching, s: string): (r: Option<(string, nat)>)
    ensures r.Some? ==> 0 < r.value.1 <= |s|
  {
    if s == "" || s[0] != '<' then None
    else
      var start := SkipSpaces(s, 1);
      var n := ElementLength(m, s, start);
      if n == 0 || start + n > |s| then None
      else
        var close := start + n + IndexOf(s[start + n..], '>');
        if close == |s| then None else Some((s[start..start + n], close + 1))
  }

  /** Where `<\s*` + `/\s*` + the name + `\s*>` ends when it begins at `i`. */
  function CloseTag(m: Matching, s: string, name: string, i: nat): (r: Option<nat>)
    ensures r.Some? ==> i < r.value <= |s|
  {
    if i >= |s| || s[i] != '<' then None
    else
      var slash := SkipSpaces(s, i + 1);
      if slash == |s| || s[slash] != '/' then None
      else
        var start := SkipSpaces(s, slash + 1);
        if !MatchesAt(m.sameAgain, name, s, start) then None
        else
          var end := SkipSpaces(s, start + |name|);
          if end < |s| && s[end] == '>' then Some(end + 1) else None
  }

  /** The end of the first closing tag from `i` on, as the lazy `.*?` finds it. */
  function FindClose(m: Matching, s: string, name: string, i: nat): (r: Option<nat>)
    ensures r.Some? ==> i < r.value <= |s|
    decreases |s| - i
  {
    if i >= |s| then None
    else
      var end := CloseTag(m, s, name, i);
      if end.Some? then end else FindClose(m, s, name, i + 1)
  }

  function ActiveEnd(m: Matching, s: string): (r: Option<nat>)
    ensures r.Some? ==> 0 < r.value <= |s|
  {
    var open := OpenTag(m, s);
    if open.None? then None else FindClose(m, s, open.value.0, open.value.1)
  }

  /** The first pass: each active element becomes a space. */
  function RemoveActive(m: Matching, s: string): string
    decreases |s|
  {
    if s == "" then ""
    else
      var end := ActiveEnd(m, s);
      if end.Some? then " " + RemoveActive(m, s[end.value..]) else [s[0]] + RemoveActive(m, s[1..])
  }

  /** Where `<[^>]+>` ends when it matches at the front. */
  function TagEnd(s: string): (r: Option<nat>)
    ensures r.Some? ==> 0 < r.value <= |s|
  {
    if s == "" || s[0] != '<' then None
    else
      var body := IndexOf(s[1..], '>');
      if 1 <= body < |s| - 1 then Some(body + 2) else None
  }

  /** The second pass: each tag becomes a space. */
  function RemoveTags(s: string): string
    decreases |s|
  {
    if s == "" then ""
    else
      var end := TagEnd(s);
      if end.Some? then " " + RemoveTags(s[end.value..]) else [s[0]] + RemoveTags(s[1..])
  }

  function NulToSpace(s: string): (r: string)
    ensures |r| == |s| && forall i | 0 <= i < |s| :: r[i] == if s[i] == '\0' then ' ' else s[i]
  {
    seq(|s|, i requires 0 <= i < |s| => if s[i] == '\0' then ' ' else s[i])
  }

  function Sanitize(m: Matching, s: string): string {
    Strip(NulToSpace(RemoveTags(RemoveActive(m, s))))
  }

  // ---- tag-free text ----

  /** A '<' at `i`, one or more characters other than '>', and a '>' at `j`. */
  predicate IsTag(s: string, i: nat, j: nat) {
    i + 1 < j < |s| && s[i] == '<' && s[j] == '>' && forall k | i < k < j :: s[k] != '>'
  }

  ghost predicate TagFree(s: string) {
    forall i: nat, j: nat :: !IsTag(s, i, j)
  }

  /** What sanitised text looks like. */
  ghost predicate Clean(s: string) {
    TagFree(s) && '\0' !in s && IsStripped(s)
  }

  /** The scan finds a tag at the front exactly when there is one. */
  lemma TagEndIff(s: string)
    ensures TagEnd(s).Some? <==> exists j: nat :: IsTag(s, 0, j)
    ensures TagEnd(s).Some? ==> IsTag(s, 0, TagEnd(s).value - 1)
  {
    if s != "" && s[0] == '<' {
      var body := IndexOf(s[1..], '>');
      var tail := s[1..];
      assert forall k | 1 <= k < |s| :: s[k] == tail[k - 1];
      assert forall k | 0 <= k < body :: tail[..body][k] == tail[k];
      forall j: nat | IsTag(s, 0, j)
        ensures TagEnd(s).Some?
      {
        var before := tail[..j - 1];
        assert forall k | 0 <= k < j - 1 :: before[k] == s[k + 1];
        IndexOfUnique(tail, '>', j - 1);
      }
      if TagEnd(s).Some? {
        assert forall k | 0 < k < body + 1 :: s[k] == tail[..body][k - 1];
        assert IsTag(s, 0, body + 1);
      }
    }
  }

  lemma {:induction false} RemoveTagsChars(s: string)
    ensures forall c | c in RemoveTags(s) :: c in s || c == ' '
  {
    if s == "" {
    } else {
      var end := TagEnd(s);
      RemoveTagsChars(if end.Some? then s[end.value..] else s[1..]);
    }
  }

  lemma PrependTag(c: char, s: string, i: nat, j: nat)
    ensures IsTag([c] + s, i, j) && i > 0 ==> IsTag(s, i - 1, j - 1)
    ensures IsTag([c] + s, 0, j) ==> c == '<' && '>' in s && s[0] != '>'
  {
    var t := [c] + s;
    assert forall k | 0 <= k < |s| :: s[k] == t[k + 1];
  }

  lemma PrependKeepsTagFree(c: char, s: string)
    requires TagFree(s) && (c == '<' ==> '>' !in s || s[0] == '>')
    ensures TagFree([c] + s)
  {
    forall i: nat, j: nat
      ensures !IsTag([c] + s, i, j)
    {
      PrependTag(c, s, i, j);
    }
  }

  /** A '<' that opens no tag is followed by '>' at once or by no '>' at all, and stays so. */
  lemma LoneBracket(s: string)
    requires s != "" && s[0] == '<' && TagEnd(s).None?
    ensures var rest := RemoveTags(s[1..]); '>' !in rest || rest[0] == '>'
  {
    var tail := s[1..];
    var body := IndexOf(tail, '>');
    if body == |tail| {
      assert tail[..body] == tail;
      RemoveTagsChars(tail);
    } else {
      assert body == 0 && tail[0] == '>';
    }
  }

  /** Whatever the text, no tag is left after the scan; nor does the removal of one tag create another. */
  lemma {:induction false} RemovedTagsAreGone(s: string)
    ensures TagFree(RemoveTags(s))
  {
    if s == "" {
    } else {
      var end := TagEnd(s);
      if end.Some? {
        RemovedTagsAreGone(s[end.value..]);
        PrependKeepsTagFree(' ', RemoveTags(s[end.value..]));
      } else {
        var rest := RemoveTags(s[1..]);
        RemovedTagsAreGone(s[1..]);
        if s[0] == '<' {
          LoneBracket(s);
        }
        PrependKeepsTagFree(s[0], rest);
      }
    }
  }

  lemma SliceTag(s: string, i: nat, j: nat, a: nat, b: nat)
    requires i <= j <= |s|
    ensures IsTag(s[i..j], a, b) ==> IsTag(s, i + a, i + b)
  {
    var t := s[i..j];
    assert forall k | i <= k < j :: s[k] == t[k - i];
  }

  lemma SliceKeepsTagFree(s: string, i: nat, j: nat)
    requires i <= j <= |s| && TagFree(s)
    ensures TagFree(s[i..j])
  {
    forall a: nat, b: nat
      ensures !IsTag(s[i..j], a, b)
    {
      SliceTag(s, i, j, a, b);
    }
  }

  lemma NulTag(s: string, i: nat, j: nat)
    ensures IsTag(NulToSpace(s), i, j) ==> IsTag(s, i, j)
  {
    var t := NulToSpace(s);
    assert forall k | 0 <= k < |s| :: t[k] != '>' ==> s[k] != '>';
  }

  lemma NulToSpaceKeepsTagFree(s: string)
    requires TagFree(s)
    ensures TagFree(NulToSpace(s)) && '\0' !in NulToSpace(s)
  {
    forall i: nat, j: nat
      ensures !IsTag(NulToSpace(s), i, j)
    {
      NulTag(s, i, j);
    }
  }

  /** Sanitised text is tag-free, NUL-free and stripped, for every input and whatever the first pass removed. */
  lemma SanitizedIsClean(m: Matching, s: string)
    ensures Clean(Sanitize(m, s))
  {
    var untagged := RemoveTags(RemoveActive(m, s));
    RemovedTagsAreGone(RemoveActive(m, s));
    NulToSpaceKeepsTagFree(untagged);
    var t := NulToSpace(untagged);
    StripMeaning(t);
    var i: nat, j: nat :| i <= j <= |t| && Strip(t) == t[i..j];
    SliceKeepsTagFree(t, i, j);
  }

  lemma {:induction false} TagFreeIsKept(s: string)
    requires TagFree(s)
    ensures RemoveTags(s) == s
  {
    if s == "" {
    } else {
      TagEndIff(s);
      SliceKeepsTagFree(s, 1, |s|);
      assert s[1..|s|] == s[1..];
      TagFreeIsKept(s[1..]);
    }
  }

  lemma ElementStart(m: Matching, s: string, i: nat)
    requires Sensible(m) && ElementLength(m, s, i) > 0
    ensures i < |s| && s[i] != '>'
  {
    assert "script"[0] != '>' && "style"[0] != '>' && "iframe"[0] != '>' && "form"[0] != '>';
    assert s[i] == s[i + 0];
  }

  /** An active element begins with a tag. */
  lemma ActiveNeedsTag(m: Matching, s: string)
    requires Sensible(m) && ActiveEnd(m, s).Some?
    ensures TagEnd(s).Some?
  {
    var start := SkipSpaces(s, 1);
    ElementStart(m, s, start);
    assert s[1] != '>';
    var tail := s[1..];
    var body := IndexOf(tail, '>');
    var close := OpenTag(m, s).value.1 - 1;
    assert s[close] == '>' == tail[close - 1];
    assert tail[0] == s[1];
    IndexOfFound(tail, '>');
  }

  lemma {:induction false} TagFreeHasNoActive(m: Matching, s: string)
    requires Sensible(m) && TagFree(s)
    ensures RemoveActive(m, s) == s
  {
    if s == "" {
    } else {
      if ActiveEnd(m, s).Some? {
        ActiveNeedsTag(m, s);
        TagEndIff(s);
      }
      SliceKeepsTagFree(s, 1, |s|);
      assert s[1..|s|] == s[1..];
      TagFreeHasNoActive(m, s[1..]);
    }
  }

  lemma NulFreeIsKept(s: string)
    requires '\0' !in s
    ensures NulToSpace(s) == s
  {
    assert forall i | 0 <= i < |s| :: s[i] in s;
  }

  /** Sanitising changes a text exactly when it has a tag, a NUL or surrounding white space ... */
  lemma FixedPointIffClean(m: Matching, s: string)
    requires Sensible(m)
    ensures Sanitize(m, s) == s <==> Clean(s)
  {
    SanitizedIsClean(m, s);
    if Clean(s) {
      TagFreeHasNoActive(m, s);
      TagFreeIsKept(s);
      NulFreeIsKept(s);
      StripMeaning(s);
    }
  }

  /** ... so sanitising twice is sanitising once. */
  lemma SanitizeTwice(m: Matching, s: string)
    requires Sensible(m)
    ensures Sanitize(m, Sanitize(m, s)) == Sanitize(m, s)
  {
    SanitizedIsClean(m, s);
    FixedPointIffClean(m, Sanitize(m, s));
  }

  // ---- what is removed ----

  /** Text before the first '<' is kept, a tag gives one space, and the scan goes on behind it. */
  lemma {:induction false} FirstTagRemoved(text: string, body: string, rest: string)
    requires '<' !in text && '>' !in body && body != ""
    ensures RemoveTags(text + "<" + body + ">" + rest) == text + " " + RemoveTags(rest)
  {
    var s := text + "<" + body + ">" + rest;
    if text == "" {
      assert s[1..] == body + ['>'] + rest;
      SplitAtFirst(body, '>', rest);
      assert s[|body| + 2..] == rest;
    } else {
      assert s[0] == text[0] && s[1..] == text[1..] + "<" + body + ">" + rest;
      FirstTagRemoved(text[1..], body, rest);
      assert [text[0]] + (text[1..] + " " + RemoveTags(rest)) == text + " " + RemoveTags(rest);
    }
  }

  lemma {:induction false} FindCloseSkips(m: Matching, s: string, name: string, i: nat, j: nat)
    requires i <= j < |s| && CloseTag(m, s, name, j).Some?
    requires forall k: nat | i <= k < j :: CloseTag(m, s, name, k).None?
    ensures FindClose(m, s, name, i) == CloseTag(m, s, name, j)
    decreases j - i
  {
    if i == j {
    } else {
      FindCloseSkips(m, s, name, i + 1, j);
    }
  }

  /** Equality up to case holds of a character and itself, and '>' ends a word. */
  ghost predicate Reflexive(m: Matching) {
    !m.isWord('>') && forall c :: m.same(c, c) && m.sameAgain(c, c)
  }

  /** The letters that tell the four names apart are not equal up to case. */
  predicate TellsNamesApart(m: Matching) {
    !m.same('c', 't') && !m.same('s', 'i') && !m.same('s', 'f') && !m.same('i', 'f')
  }

  predicate IsActiveName(name: string) {
    name == "script" || name == "style" || name == "iframe" || name == "form"
  }

  function Element(name: string, code: string): string {
    "<" + name + ">" + code + "</" + name + ">"
  }

  lemma WholeWordMatches(m: Matching, name: string, s: string, i: nat)
    requires Reflexive(m) && i + |name| < |s| && s[i..i + |name|] == name && s[i + |name|] == '>'
    ensures IsElement(m, name, s, i)
  {
    var here := s[i..i + |name|];
    assert forall k | 0 <= k < |name| :: here[k] == s[i + k];
  }

  lemma NameIsFound(m: Matching, name: string, s: string, i: nat)
    requires Reflexive(m) && TellsNamesApart(m) && IsActiveName(name)
    requires i + |name| < |s| && s[i..i + |name|] == name && s[i + |name|] == '>'
    ensures ElementLength(m, s, i) == |name| && !IsSpace(name[0]) && '>' !in name
  {
    WholeWordMatches(m, name, s, i);
    assert s[i] == name[0] && s[i + 1] == name[1];
    assert "script"[0] == 's' && "script"[1] == 'c' && "style"[0] == 's' && "iframe"[0] == 'i';
    assert s[i + 0] == s[i];
  }

  lemma OpenTagOf(m: Matching, name: string, tail: string)
    requires Reflexive(m) && TellsNamesApart(m) && IsActiveName(name)
    ensures OpenTag(m, "<" + name + ">" + tail) == Some((name, |name| + 2))
  {
    var s := "<" + name + ">" + tail;
    assert s[1..1 + |name|] == name && s[1 + |name|] == '>';
    NameIsFound(m, name, s, 1);
    assert s[1] == name[0];
    assert SkipSpaces(s, 1) == 1;
    var after := s[1 + |name|..];
    assert after == ">" + tail && IndexOf(after, '>') == 0;
  }

  predicate SpacesIn(s: string, i: nat, j: nat) {
    i <= j <= |s| && forall k | i <= k < j :: IsSpace(s[k])
  }

  lemma SkipTo(s: string, i: nat, j: nat)
    requires SpacesIn(s, i, j) && (j < |s| ==> !IsSpace(s[j]))
    ensures SkipSpaces(s, i) == j
  {
    var k := SkipSpaces(s, i);
  }

  lemma CloseTagOf(m: Matching, name: string, before: string, rest: string)
    requires Reflexive(m) && name != "" && !IsSpace(name[0])
    ensures CloseTag(m, before + "</" + name + ">" + rest, name, |before|) == Some(|before| + |name| + 3)
  {
    var s := before + "</" + name + ">" + rest;
    var i := |before|;
    var n := i + 2 + |name|;
    assert s[i] == '<' && s[i + 1] == '/' && s[i + 2] == name[0] && s[n] == '>';
    assert !IsSpace('/') && !IsSpace('>');
    SkipTo(s, i + 1, i + 1);
    SkipTo(s, i + 2, i + 2);
    SkipTo(s, n, n);
    assert MatchesAt(m.sameAgain, name, s, i + 2) by {
      assert forall k | 0 <= k < |name| :: s[i + 2 + k] == name[k];
    }
  }

  /** An active element goes with everything up to its first closing tag. */
  lemma ElementIsActive(m: Matching, name: string, code: string, rest: string)
    requires Reflexive(m) && TellsNamesApart(m) && IsActiveName(name)
    requires forall p: nat | |name| + 2 <= p < |name| + 2 + |code| :: CloseTag(m, Element(name, code) + rest, name, p).None?
    ensures ActiveEnd(m, Element(name, code) + rest) == Some(|Element(name, code)|)
  {
    var s := Element(name, code) + rest;
    var before := "<" + name + ">" + code;
    assert s == "<" + name + ">" + (code + "</" + name + ">" + rest);
    OpenTagOf(m, name, code + "</" + name + ">" + rest);
    assert s == before + "</" + name + ">" + rest;
    CloseTagOf(m, name, before, rest);
    FindCloseSkips(m, s, name, |name| + 2, |before|);
  }

  lemma NotActive(m: Matching, c: char, s: string)
    requires c != '<'
    ensures RemoveActive(m, [c] + s) == [c] + RemoveActive(m, s)
  {
    assert ([c] + s)[1..] == s;
  }

  /** A scan that copies every character but '<' copies a whole text without '<'. */
  lemma {:induction false} TextIsCopied(scan: string -> string, text: string, s: string)
    requires '<' !in text && forall c, t | c != '<' :: scan([c] + t) == [c] + scan(t)
    ensures scan(text + s) == text + scan(s)
  {
    if text == "" {
      assert text + s == s;
    } else {
      TextIsCopied(scan, text[1..], s);
      assert text + s == [text[0]] + (text[1..] + s);
      assert text + scan(s) == [text[0]] + (text[1..] + scan(s));
    }
  }

  lemma LeadingTextStays(m: Matching, text: string, s: string)
    requires '<' !in text
    ensures RemoveActive(m, text + s) == text + RemoveActive(m, s)
  {
    var scan := (t: string) => RemoveActive(m, t);
    forall c, t | c != '<'
      ensures scan([c] + t) == [c] + scan(t)
    {
      NotActive(m, c, t);
    }
    TextIsCopied(scan, text, s);
  }

  lemma AfterActive(m: Matching, element: string, rest: string)
    requires ActiveEnd(m, element + rest) == Some(|element|)
    ensures RemoveActive(m, element + rest) == " " + RemoveActive(m, rest)
  {
    assert (element + rest)[|element|..] == rest;
  }

  lemma ActiveElementRemoved(m: Matching, text: string, name: string, code: string, rest: string)
    requires Reflexive(m) && TellsNamesApart(m) && IsActiveName(name) && '<' !in text
    requires forall p: nat | |name| + 2 <= p < |name| + 2 + |code| :: CloseTag(m, Element(name, code) + rest, name, p).None?
    ensures RemoveActive(m, text + (Element(name, code) + rest)) == text + " " + RemoveActive(m, rest)
  {
    var element := Element(name, code);
    ElementIsActive(m, name, code, rest);
    LeadingTextStays(m, text, element + rest);
    AfterActive(m, element, rest);
    assert text + (" " + RemoveActive(m, rest)) == text + " " + RemoveActive(m, rest);
  }

  predicate IsPlain(s: string) {
    '<' !in s && '\0' !in s
  }

  lemma NoBracketNoTag(s: string)
    requires '<' !in s
    ensures TagFree(s)
  {
  }

  lemma PlainCodeHasNoClose(m: Matching, name: string, code: string, rest: string)
    requires '<' !in code
    ensures forall p: nat | |name| + 2 <= p < |name| + 2 + |code| :: CloseTag(m, Element(name, code) + rest, name, p).None?
  {
    var e := Element(name, code) + rest;
    forall p: nat | |name| + 2 <= p < |name| + 2 + |code|
      ensures CloseTag(m, e, name, p).None?
    {
      assert e[p] == code[p - |name| - 2] && e[p] in code;
    }
  }

  /** The code of an active element leaves no character behind: plain text around it is all that remains. */
  lemma ActiveCodeVanishes(m: Matching, text: string, name: string, code: string, rest: string)
    requires Sensible(m) && Reflexive(m) && TellsNamesApart(m) && IsActiveName(name)
    requires IsPlain(text) && IsPlain(code) && IsPlain(rest)
    ensures Sanitize(m, text + (Element(name, code) + rest)) == Strip(text + " " + rest)
  {
    PlainCodeHasNoClose(m, name, code, rest);
    ActiveElementRemoved(m, text, name, code, rest);
    NoBracketNoTag(rest);
    TagFreeHasNoActive(m, rest);
    NoBracketNoTag(text + " " + rest);
    TagFreeIsKept(text + " " + rest);
    NulFreeIsKept(text + " " + rest);
  }

  // ---- the two passes, exactly ----

  /** A scan that copies the character at each place before `n` copies all of that text. */
  lemma {:induction false} CopiesTo(scan: string -> string, s: string, n: nat)
    requires n <= |s| && forall k: nat | k < n :: scan(s[k..]) == [s[k]] + scan(s[k + 1..])
    ensures scan(s) == s[..n] + scan(s[n..])
  {
    if n == 0 {
      assert s[0..] == s && s[..0] == "";
    } else {
      CopiesTo(scan, s, n - 1);
      assert s[..n] == s[..n - 1] + [s[n - 1]];
    }
  }

  lemma TagScanCopies(s: string, k: nat)
    requires k < |s| && forall j: nat :: !IsTag(s, k, j)
    ensures RemoveTags(s[k..]) == [s[k]] + RemoveTags(s[k + 1..])
  {
    var t := s[k..|s|];
    assert t == s[k..];
    TagEndIff(t);
    forall j: nat
      ensures !IsTag(t, 0, j)
    {
      SliceTag(s, k, |s|, 0, j);
    }
    assert t[1..] == s[k + 1..];
  }

  lemma TagEndsOnce(s: string, j: nat, k: nat)
    requires IsTag(s, 0, j) && IsTag(s, 0, k)
    ensures j == k
  {
  }

  /** The scan for tags copies up to the first place where a tag begins, puts a space for the tag and goes on behind it. */
  lemma FirstTagGoes(s: string, n: nat, j: nat)
    requires IsTag(s, n, j) && forall i: nat, k: nat | i < n :: !IsTag(s, i, k)
    ensures RemoveTags(s) == s[..n] + " " + RemoveTags(s[j + 1..])
  {
    var scan := (t: string) => RemoveTags(t);
    forall k: nat | k < n
      ensures scan(s[k..]) == [s[k]] + scan(s[k + 1..])
    {
      TagScanCopies(s, k);
    }
    CopiesTo(scan, s, n);
    var t := s[n..];
    assert forall x | n <= x < |s| :: t[x - n] == s[x];
    assert IsTag(t, 0, j - n) by {
      assert forall x | 0 <= x < |t| :: t[x] == s[n + x];
    }
    TagEndIff(t);
    TagEndsOnce(t, j - n, TagEnd(t).value - 1);
    assert t[j - n + 1..] == s[j + 1..];
    assert s[..n] + (" " + RemoveTags(s[j + 1..])) == s[..n] + " " + RemoveTags(s[j + 1..]);
  }

  /** The letters of the names match no space, and no character matches two letters that tell names apart. */
  ghost predicate Regular(m: Matching) {
    && (forall a, c | IsSpace(c) && !IsSpace(a) :: !m.same(a, c) && !m.sameAgain(a, c))
    && forall c :: !(m.same('c', c) && m.same('t', c)) && !(m.same('s', c) && m.same('i', c))
                   && !(m.same('s', c) && m.same('f', c)) && !(m.same('i', c) && m.same('f', c))
  }

  /** One of the four names stands at `i`, with `n` characters, up to case and as a whole word. */
  predicate NameAt(m: Matching, s: string, i: nat, n: nat) {
    && ((n == 6 && (MatchesAt(m.same, "script", s, i) || MatchesAt(m.same, "iframe", s, i)))
        || (n == 5 && MatchesAt(m.same, "style", s, i)) || (n == 4 && MatchesAt(m.same, "form", s, i)))
    && (i + n < |s| ==> !m.isWord(s[i + n]))
  }

  lemma MatchesFirst(same: (char, char) -> bool, word: string, s: string, i: nat)
    requires MatchesAt(same, word, s, i) && |word| >= 2
    ensures i + 1 < |s| && same(word[0], s[i]) && same(word[1], s[i + 1])
  {
    assert s[i + 0] == s[i];
  }

  lemma NameLengthIff(m: Matching, s: string, i: nat, n: nat)
    requires Regular(m) && n > 0
    ensures ElementLength(m, s, i) == n <==> NameAt(m, s, i, n)
    ensures NameAt(m, s, i, n) ==> i + n <= |s| && !IsSpace(s[i])
  {
    assert "script"[0] == 's' && "script"[1] == 'c' && "style"[0] == 's' && "style"[1] == 't';
    assert "iframe"[0] == 'i' && "form"[0] == 'f';
    if MatchesAt(m.same, "script", s, i) { MatchesFirst(m.same, "script", s, i); }
    if MatchesAt(m.same, "style", s, i) { MatchesFirst(m.same, "style", s, i); }
    if MatchesAt(m.same, "iframe", s, i) { MatchesFirst(m.same, "iframe", s, i); }
    if MatchesAt(m.same, "form", s, i) { MatchesFirst(m.same, "form", s, i); }
  }

  /** An opening tag with its name from `i` to `j`, whatever attributes, and the first '>' behind the name just before `end`. */
  predicate IsOpening(m: Matching, s: string, i: nat, j: nat, end: nat) {
    && 1 <= i < j < end <= |s| && s[0] == '<' && SpacesIn(s, 1, i) && NameAt(m, s, i, j - i)
    && s[end - 1] == '>' && forall k | j <= k < end - 1 :: s[k] != '>'
  }

  lemma FirstClosing(s: string, j: nat, end: nat)
    requires j < end <= |s| && s[end - 1] == '>' && forall k | j <= k < end - 1 :: s[k] != '>'
    ensures IndexOf(s[j..], '>') == end - 1 - j
  {
    var rest := s[j..];
    var front := rest[..end - 1 - j];
    assert forall k | 0 <= k < |front| :: front[k] == s[j + k];
    IndexOfUnique(rest, '>', end - 1 - j);
  }

  lemma OpenTagFinds(m: Matching, s: string)
    requires Regular(m) && OpenTag(m, s).Some?
    ensures var (name, end) := OpenTag(m, s).value;
            var i := SkipSpaces(s, 1);
            IsOpening(m, s, i, i + |name|, end) && name == s[i..i + |name|]
  {
    var i := SkipSpaces(s, 1);
    var n := ElementLength(m, s, i);
    NameLengthIff(m, s, i, n);
    var end := OpenTag(m, s).value.1;
    var front := s[i + n..][..end - 1 - i - n];
    assert forall k | i + n <= k < end - 1 :: s[k] == front[k - i - n];
  }

  lemma OpenTagFound(m: Matching, s: string, i: nat, j: nat, end: nat)
    requires Regular(m) && IsOpening(m, s, i, j, end)
    ensures OpenTag(m, s) == Some((s[i..j], end))
  {
    NameLengthIff(m, s, i, j - i);
    SkipTo(s, 1, i);
    FirstClosing(s, j, end);
  }

  /** The matcher for opening tags finds exactly those. */
  lemma OpenTagIff(m: Matching, s: string, name: string, end: nat)
    requires Regular(m)
    ensures OpenTag(m, s) == Some((name, end))
            <==> exists i: nat, j: nat :: IsOpening(m, s, i, j, end) && name == s[i..j]
  {
    if OpenTag(m, s) == Some((name, end)) {
      OpenTagFinds(m, s);
    }
    forall i: nat, j: nat | IsOpening(m, s, i, j, end) && name == s[i..j]
      ensures OpenTag(m, s) == Some((name, end))
    {
      OpenTagFound(m, s, i, j, end);
    }
  }

  /** A closing tag for the name from `i` on, spaces allowed around slash and name. */
  predicate IsClosing(m: Matching, s: string, name: string, i: nat, slash: nat, start: nat, end: nat) {
    && i < slash < start <= start + |name| < end <= |s| && s[i] == '<' && SpacesIn(s, i + 1, slash) && s[slash] == '/'
    && SpacesIn(s, slash + 1, start) && MatchesAt(m.sameAgain, name, s, start)
    && SpacesIn(s, start + |name|, end - 1) && s[end - 1] == '>'
  }

  lemma CloseTagFound(m: Matching, s: string, name: string, i: nat, slash: nat, start: nat, end: nat)
    requires Regular(m) && name != "" && !IsSpace(name[0]) && IsClosing(m, s, name, i, slash, start, end)
    ensures CloseTag(m, s, name, i) == Some(end)
  {
    assert !IsSpace('/') && !IsSpace('>');
    SkipTo(s, i + 1, slash);
    assert s[start + 0] == s[start] && m.sameAgain(name[0], s[start]);
    SkipTo(s, slash + 1, start);
    SkipTo(s, start + |name|, end - 1);
  }

  lemma CloseTagFinds(m: Matching, s: string, name: string, i: nat)
    requires CloseTag(m, s, name, i).Some?
    ensures var slash := SkipSpaces(s, i + 1);
            IsClosing(m, s, name, i, slash, SkipSpaces(s, slash + 1), CloseTag(m, s, name, i).value)
  {
  }

  /** The matcher for closing tags finds exactly those. */
  lemma CloseTagIff(m: Matching, s: string, name: string, i: nat, end: nat)
    requires Regular(m) && name != "" && !IsSpace(name[0])
    ensures CloseTag(m, s, name, i) == Some(end) <==> exists slash: nat, start: nat :: IsClosing(m, s, name, i, slash, start, end)
  {
    if CloseTag(m, s, name, i) == Some(end) {
      CloseTagFinds(m, s, name, i);
    }
    forall slash: nat, start: nat | IsClosing(m, s, name, i, slash, start, end)
      ensures CloseTag(m, s, name, i) == Some(end)
    {
      CloseTagFound(m, s, name, i, slash, start, end);
    }
  }

  /** No closing tag begins from `i` until `p`, where one begins that ends at `end`. */
  predicate FirstClose(m: Matching, s: string, name: string, i: nat, p: nat, end: nat) {
    i <= p && CloseTag(m, s, name, p) == Some(end) && forall k: nat | i <= k < p :: CloseTag(m, s, name, k) == None
  }

  lemma {:induction false} CloseIsFound(m: Matching, s: string, name: string, i: nat, p: nat, end: nat)
    requires FirstClose(m, s, name, i, p, end)
    ensures FindClose(m, s, name, i) == Some(end)
    decreases p - i
  {
    if i == p {
    } else {
      CloseIsFound(m, s, name, i + 1, p, end);
    }
  }

  lemma {:induction false} FoundIsFirst(m: Matching, s: string, name: string, i: nat) returns (p: nat)
    requires FindClose(m, s, name, i).Some?
    ensures FirstClose(m, s, name, i, p, FindClose(m, s, name, i).value)
    decreases |s| - i
  {
    if CloseTag(m, s, name, i).Some? {
      p := i;
    } else {
      p := FoundIsFirst(m, s, name, i + 1);
    }
  }

  /** The search finds the closing tag that begins first. */
  lemma FindCloseIff(m: Matching, s: string, name: string, i: nat, end: nat)
    ensures FindClose(m, s, name, i) == Some(end) <==> exists p: nat :: FirstClose(m, s, name, i, p, end)
  {
    if FindClose(m, s, name, i) == Some(end) {
      var p := FoundIsFirst(m, s, name, i);
    }
    forall p: nat | FirstClose(m, s, name, i, p, end)
      ensures FindClose(m, s, name, i) == Some(end)
    {
      CloseIsFound(m, s, name, i, p, end);
    }
  }

  lemma ActiveScanCopies(m: Matching, s: string, k: nat)
    requires k < |s| && ActiveEnd(m, s[k..]) == None
    ensures RemoveActive(m, s[k..]) == [s[k]] + RemoveActive(m, s[k + 1..])
  {
    assert s[k..][1..] == s[k + 1..];
  }

  lemma CopiesUntilActive(m: Matching, s: string, n: nat)
    requires n <= |s| && forall k: nat | k < n :: ActiveEnd(m, s[k..]) == None
    ensures RemoveActive(m, s) == s[..n] + RemoveActive(m, s[n..])
  {
    var scan := (t: string) => RemoveActive(m, t);
    forall k: nat | k < n
      ensures scan(s[k..]) == [s[k]] + scan(s[k + 1..])
    {
      ActiveScanCopies(m, s, k);
    }
    CopiesTo(scan, s, n);
  }

  /** Without an active element at any place the first pass changes nothing. */
  lemma NothingActive(m: Matching, s: string)
    requires forall n: nat | n < |s| :: ActiveEnd(m, s[n..]) == None
    ensures RemoveActive(m, s) == s
  {
    CopiesUntilActive(m, s, |s|);
    assert s[|s|..] == "" && s[..|s|] == s && RemoveActive(m, "") == "" && s + "" == s;
  }

  /** Otherwise it copies up to the first one, puts a space for it and goes on behind it. */
  lemma FirstActiveGoes(m: Matching, s: string, n: nat)
    requires n < |s| && ActiveEnd(m, s[n..]).Some? && forall k: nat | k < n :: ActiveEnd(m, s[k..]) == None
    ensures RemoveActive(m, s) == s[..n] + " " + RemoveActive(m, s[n..][ActiveEnd(m, s[n..]).value..])
  {
    CopiesUntilActive(m, s, n);
    var tail := RemoveActive(m, s[n..][ActiveEnd(m, s[n..]).value..]);
    assert s[..n] + (" " + tail) == s[..n] + " " + tail;
  }

  /** Sanitising is the two passes, NULs turned into spaces, and the ends stripped. */
  lemma SanitizeIs(m: Matching, s: string) returns (front: string, back: string)
    ensures NulToSpace(RemoveTags(RemoveActive(m, s))) == front + Sanitize(m, s) + back && AllSpace(front) && AllSpace(back)
    ensures IsStripped(Sanitize(m, s))
  {
    front, back := StripIs(NulToSpace(RemoveTags(RemoveActive(m, s))));
  }
}
