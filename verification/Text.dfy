/** String operations of the modelled code: searching, stripping, splitting and joining. */
module Text {
  /** The index of the first `c`, or the length of `s` when there is none. */
  function IndexOf(s: string, c: char): (i: nat)
    ensures i <= |s| && c !in s[..i]
    ensures i < |s| ==> s[i] == c
  {
    if s == "" || s[0] == c then 0
    else
      var rest := IndexOf(s[1..], c);
      assert s[..rest + 1] == [s[0]] + s[1..][..rest];
      rest + 1
  }

  lemma IndexOfUnique(s: string, c: char, i: nat)
    requires i < |s| && s[i] == c && c !in s[..i]
    ensures IndexOf(s, c) == i
  {
    if i == 0 {
    } else {
      assert s[0] == s[..i][0] && s[1..][..i - 1] == s[..i][1..];
      IndexOfUnique(s[1..], c, i - 1);
    }
  }

  lemma IndexOfFound(s: string, c: char)
    ensures IndexOf(s, c) < |s| <==> c in s
  {
    assert IndexOf(s, c) == |s| ==> s[..IndexOf(s, c)] == s;
  }

  /** Splitting at the first separator undoes joining with it. */
  lemma SplitAtFirst(head: string, c: char, tail: string)
    requires c !in head
    ensures var s := head + [c] + tail;
            IndexOf(s, c) == |head| && s[..|head|] == head && s[|head| + 1..] == tail
  {
    var s := head + [c] + tail;
    assert s[..|head|] == head;
    IndexOfUnique(s, c, |head|);
  }

  /** The characters that `str.strip` removes and `\s` matches. */
  predicate IsSpace(c: char) {
    || '\U{0009}' <= c <= '\U{000D}' || '\U{001C}' <= c <= '\U{0020}'
    || c == '\U{0085}' || c == '\U{00A0}' || c == '\U{1680}' || '\U{2000}' <= c <= '\U{200A}'
    || c == '\U{2028}' || c == '\U{2029}' || c == '\U{202F}' || c == '\U{205F}' || c == '\U{3000}'
  }

  /** Nothing that `Strip` would remove. */
  predicate IsStripped(s: string) {
    s == "" || (!IsSpace(s[0]) && !IsSpace(s[|s| - 1]))
  }

  function StripLeft(s: string): string {
    if s != "" && IsSpace(s[0]) then StripLeft(s[1..]) else s
  }

  function StripRight(s: string): string {
    if s != "" && IsSpace(s[|s| - 1]) then StripRight(s[..|s| - 1]) else s
  }

  function Strip(s: string): string {
    StripRight(StripLeft(s))
  }

  /** `r` is a stretch of `s`. */
  ghost predicate IsSlice(r: string, s: string) {
    exists i: nat, j: nat :: i <= j <= |s| && r == s[i..j]
  }

  lemma {:induction false} StripLeftIsSuffix(s: string)
    ensures var r := StripLeft(s);
            |r| <= |s| && r == s[|s| - |r|..] && (r == "" || !IsSpace(r[0]))
  {
    if s == "" || !IsSpace(s[0]) {
    } else {
      StripLeftIsSuffix(s[1..]);
    }
  }

  lemma {:induction false} StripRightIsPrefix(s: string)
    ensures var r := StripRight(s);
            |r| <= |s| && r == s[..|r|] && (r == "" || !IsSpace(r[|r| - 1]))
  {
    if s == "" || !IsSpace(s[|s| - 1]) {
    } else {
      StripRightIsPrefix(s[..|s| - 1]);
    }
  }

  lemma StripMeaning(s: string)
    ensures IsStripped(Strip(s)) && IsSlice(Strip(s), s) && |Strip(s)| <= |s|
    ensures forall c :: c in Strip(s) ==> c in s
    ensures Strip(s) == s <==> IsStripped(s)
  {
    var left := StripLeft(s);
    StripLeftIsSuffix(s);
    StripRightIsPrefix(left);
    var i := |s| - |left|;
    assert Strip(s) == s[i..i + |Strip(s)|];
  }

  predicate AllSpace(s: string) {
    forall c | c in s :: IsSpace(c)
  }

  lemma {:induction false} StripLeftTakesSpaces(s: string)
    ensures |StripLeft(s)| <= |s| && AllSpace(s[..|s| - |StripLeft(s)|])
  {
    StripLeftIsSuffix(s);
    if s == "" || !IsSpace(s[0]) {
    } else {
      StripLeftTakesSpaces(s[1..]);
      StripLeftIsSuffix(s[1..]);
      var n := |s| - |StripLeft(s)|;
      assert s[..n] == [s[0]] + s[1..][..n - 1];
    }
  }

  lemma {:induction false} StripRightTakesSpaces(s: string)
    ensures |StripRight(s)| <= |s| && AllSpace(s[|StripRight(s)|..])
  {
    StripRightIsPrefix(s);
    if s == "" || !IsSpace(s[|s| - 1]) {
    } else {
      var n := |s| - 1;
      StripRightTakesSpaces(s[..n]);
      StripRightIsPrefix(s[..n]);
      assert s[|StripRight(s)|..] == s[..n][|StripRight(s)|..] + [s[n]];
    }
  }

  lemma LeftPart(s: string) returns (front: string)
    ensures s == front + StripLeft(s) && AllSpace(front)
  {
    StripLeftIsSuffix(s);
    StripLeftTakesSpaces(s);
    front := s[..|s| - |StripLeft(s)|];
  }

  lemma RightPart(s: string) returns (back: string)
    ensures s == StripRight(s) + back && AllSpace(back)
  {
    StripRightIsPrefix(s);
    StripRightTakesSpaces(s);
    back := s[|StripRight(s)|..];
  }

  /** Stripping takes white space off both ends and nothing else. */
  lemma StripIs(s: string) returns (front: string, back: string)
    ensures s == front + Strip(s) + back && AllSpace(front) && AllSpace(back) && IsStripped(Strip(s))
  {
    StripMeaning(s);
    var left := StripLeft(s);
    front := LeftPart(s);
    back := RightPart(left);
    assert s == front + (Strip(s) + back);
  }

  lemma {:induction false} StripLeftSkips(front: string, s: string)
    requires AllSpace(front)
    ensures StripLeft(front + s) == StripLeft(s)
  {
    if front == "" {
      assert front + s == s;
    } else {
      assert front[0] in front && (front + s)[1..] == front[1..] + s;
      StripLeftSkips(front[1..], s);
    }
  }

  lemma {:induction false} StripRightSkips(s: string, back: string)
    requires AllSpace(back)
    ensures StripRight(s + back) == StripRight(s)
  {
    if back == "" {
      assert s + back == s;
    } else {
      var n := |back| - 1;
      assert back[n] in back && (s + back)[..|s + back| - 1] == s + back[..n];
      StripRightSkips(s, back[..n]);
    }
  }

  /** And that determines the result. */
  lemma StripUnique(front: string, core: string, back: string)
    requires AllSpace(front) && AllSpace(back) && IsStripped(core)
    ensures Strip(front + core + back) == core
  {
    StripLeftSkips(front, core + back);
    assert front + core + back == front + (core + back);
    if core == "" {
      StripLeftSkips(back, "");
      assert core + back == back + "" && back == back + "";
      assert StripLeft(back) == "";
    } else {
      assert (core + back)[0] == core[0];
      StripRightSkips(core, back);
    }
  }

  lemma {:induction false} StripLeftKeeps(s: string, c: char)
    requires c in s && !IsSpace(c)
    ensures c in StripLeft(s)
  {
    if !IsSpace(s[0]) {
    } else {
      assert s == [s[0]] + s[1..];
      StripLeftKeeps(s[1..], c);
    }
  }

  lemma {:induction false} StripRightKeeps(s: string, c: char)
    requires c in s && !IsSpace(c)
    ensures c in StripRight(s)
  {
    var n := |s| - 1;
    if !IsSpace(s[n]) {
    } else {
      assert s == s[..n] + [s[n]];
      StripRightKeeps(s[..n], c);
    }
  }

  lemma StripKeeps(s: string, c: char)
    requires c in s && !IsSpace(c)
    ensures Strip(s) != ""
  {
    StripLeftKeeps(s, c);
    StripRightKeeps(StripLeft(s), c);
  }

  lemma BlankIff(s: string)
    ensures Strip(s) != "" <==> !AllSpace(s)
  {
    StripMeaning(s);
    if c :| c in s && !IsSpace(c) {
      StripKeeps(s, c);
    }
  }

  /** `sep.join(parts)` for a one-character separator. */
  function Join(parts: seq<string>, sep: char): string {
    if parts == [] then "" else if |parts| == 1 then parts[0]
    else parts[0] + [sep] + Join(parts[1..], sep)
  }

  /** `s.split(sep)` for a one-character separator. */
  function Split(s: string, sep: char): seq<string>
    decreases |s|
  {
    var i := IndexOf(s, sep);
    if i == |s| then [s] else [s[..i]] + Split(s[i + 1..], sep)
  }

  lemma {:induction false} SplitJoin(parts: seq<string>, sep: char)
    requires parts != [] && forall p :: p in parts ==> sep !in p
    ensures Split(Join(parts, sep), sep) == parts
  {
    if |parts| == 1 {
      IndexOfFound(parts[0], sep);
    } else {
      SplitAtFirst(parts[0], sep, Join(parts[1..], sep));
      SplitJoin(parts[1..], sep);
    }
  }

  lemma CutAt(s: string, i: nat)
    requires i < |s|
    ensures s == s[..i] + [s[i]] + s[i + 1..]
  {
  }

  lemma JoinOfCons(head: string, parts: seq<string>, sep: char)
    requires parts != []
    ensures Join([head] + parts, sep) == head + [sep] + Join(parts, sep)
  {
    assert ([head] + parts)[1..] == parts;
  }

  /** Joining undoes splitting, and no part contains the separator. */
  lemma {:induction false} JoinSplit(s: string, sep: char)
    ensures Join(Split(s, sep), sep) == s && Split(s, sep) != [] && forall p | p in Split(s, sep) :: sep !in p
    decreases |s|
  {
    var i := IndexOf(s, sep);
    if i == |s| {
      assert s[..i] == s;
    } else {
      var parts := Split(s[i + 1..], sep);
      JoinSplit(s[i + 1..], sep);
      CutAt(s, i);
      JoinOfCons(s[..i], parts, sep);
    }
  }

  predicate HasAt(s: string, sub: string, i: nat) {
    i + |sub| <= |s| && s[i..i + |sub|] == sub
  }

  /** `sub in s` */
  predicate Contains(s: string, sub: string) {
    exists i: nat | i <= |s| :: HasAt(s, sub, i)
  }

  predicate StartsWith(s: string, prefix: string) {
    prefix <= s
  }

  function WordsFrom(word: string, s: string): seq<string>
    decreases |s|
  {
    if s == "" then (if word == "" then [] else [word])
    else if IsSpace(s[0]) then (if word == "" then [] else [word]) + WordsFrom("", s[1..])
    else WordsFrom(word + [s[0]], s[1..])
  }

  /** `s.split()`: the maximal stretches without white space. */
  function Words(s: string): seq<string> {
    WordsFrom("", s)
  }

  predicate NoSpace(s: string) {
    forall k | 0 <= k < |s| :: !IsSpace(s[k])
  }

  /** `w` is a maximal stretch of `s` without white space, at `i`. */
  predicate IsWordAt(w: string, s: string, i: nat) {
    && w != "" && NoSpace(w) && HasAt(s, w, i)
    && (i > 0 ==> IsSpace(s[i - 1])) && (i + |w| < |s| ==> IsSpace(s[i + |w|]))
  }

  /** Behind a space, words are found where they are found in the rest alone. */
  lemma WordShift(t: string, m: nat, w: string, i: nat)
    requires 0 < m <= |t| && IsSpace(t[m - 1])
    ensures IsWordAt(w, t[m..], i) <==> IsWordAt(w, t, m + i)
  {
    var rest := t[m..];
    if i + |w| <= |rest| {
      assert rest[i..i + |w|] == t[m + i..m + i + |w|];
    }
  }

  /** A word that begins before the first space is the text before it. */
  lemma WordBeforeSpace(t: string, n: nat, w: string, i: nat)
    requires n <= |t| && (n < |t| ==> IsSpace(t[n])) && NoSpace(t[..n]) && i <= n && IsWordAt(w, t, i)
    ensures i == 0 && w == t[..n]
  {
    assert forall k | 0 <= k < n :: t[k] == t[..n][k];
    assert forall k | i <= k < i + |w| :: t[k] == w[k - i] && !IsSpace(t[k]);
  }

  /** A space ends the word before it; the others are found behind it. */
  lemma WordAroundSpace(t: string, n: nat, w: string, i: nat)
    requires n < |t| && IsSpace(t[n]) && NoSpace(t[..n]) && IsWordAt(w, t, i)
    ensures w == t[..n] || (i > n && IsWordAt(w, t[n + 1..], i - n - 1))
  {
    if i <= n {
      WordBeforeSpace(t, n, w, i);
    } else {
      WordShift(t, n + 1, w, i - n - 1);
    }
  }

  lemma FirstWord(t: string, n: nat)
    requires 0 < n < |t| && IsSpace(t[n]) && NoSpace(t[..n])
    ensures IsWordAt(t[..n], t, 0)
  {
  }

  lemma WordsAfterSpace(word: string, s: string, w: string)
    requires NoSpace(word) && s != "" && IsSpace(s[0])
    ensures (exists i: nat :: IsWordAt(w, word + s, i)) <==> (w != "" && w == word) || exists i: nat :: IsWordAt(w, s[1..], i)
  {
    var t, n := word + s, |word|;
    assert t[n] == s[0] && t[..n] == word && t[n + 1..] == s[1..];
    forall i: nat | IsWordAt(w, t, i)
      ensures (w != "" && w == word) || exists k: nat :: IsWordAt(w, s[1..], k)
    {
      WordAroundSpace(t, n, w, i);
    }
    if w != "" && w == word {
      FirstWord(t, n);
    }
    forall i: nat | IsWordAt(w, s[1..], i)
      ensures IsWordAt(w, t, n + 1 + i)
    {
      WordShift(t, n + 1, w, i);
    }
  }

  lemma {:induction false} WordsFromMembers(word: string, s: string, w: string)
    requires NoSpace(word)
    ensures w in WordsFrom(word, s) <==> exists i: nat :: IsWordAt(w, word + s, i)
    decreases |s|
  {
    if s == "" {
      assert word + s == word && word[..|word|] == word;
      assert word != "" ==> IsWordAt(word, word, 0);
      forall i: nat | IsWordAt(w, word, i)
        ensures w == word
      {
        WordBeforeSpace(word, |word|, w, i);
      }
    } else if IsSpace(s[0]) {
      WordsFromMembers("", s[1..], w);
      assert "" + s[1..] == s[1..];
      WordsAfterSpace(word, s, w);
    } else {
      WordsFromMembers(word + [s[0]], s[1..], w);
      assert word + [s[0]] + s[1..] == word + s;
    }
  }

  /** `s.split()` gives exactly the maximal stretches without white space. */
  lemma WordsAre(s: string, w: string)
    ensures w in Words(s) <==> exists i: nat :: IsWordAt(w, s, i)
  {
    WordsFromMembers("", s, w);
    assert "" + s == s;
  }

  /** A control character, as `ord(char) < 32 or ord(char) == 127`. */
  predicate IsControl(c: char) {
    c < '\U{0020}' || c == '\U{007F}'
  }

  predicate HasControl(s: string) {
    exists c | c in s :: IsControl(c)
  }

  predicate IsAscii(s: string) {
    forall c | c in s :: c < '\U{0080}'
  }
}
