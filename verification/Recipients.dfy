/**
  Recipient normalisation and the text that the recipient digest is taken of.  `lower` is `str.lower`;
  nothing here depends on which function it is.
 */
module Recipients {
  import opened Wrappers
  import opened Text

  datatype AddressError = AddressInvalid | AddressesInvalid | Duplicate | TooMany

  /** `[^\s@]+@[^\s@]+\.[^\s@]+` as a full match, with the '@' at `at` and a '.' at `dot`. */
  predicate IsEmailAt(s: string, at: nat, dot: nat) {
    && 1 <= at && at + 2 <= dot && dot + 2 <= |s| && s[at] == '@' && s[dot] == '.'
    && (forall i | 0 <= i < |s| :: !IsSpace(s[i]) && (s[i] == '@' ==> i == at))
  }

  predicate IsEmail(s: string) {
    exists at: nat, dot: nat | at < |s| && dot < |s| :: IsEmailAt(s, at, dot)
  }

  predicate AllDistinct(xs: seq<string>) {
    forall i, j | 0 <= i < j < |xs| :: xs[i] != xs[j]
  }

  /** `ensure_addresses` */
  function EnsureAddresses(lower: string -> string, addresses: seq<string>): Result<seq<string>, AddressError> {
    if exists a | a in addresses :: Strip(a) == "" || |a| > 320 then Err(AddressInvalid)
    else
      var normalized := seq(|addresses|, i requires 0 <= i < |addresses| => lower(Strip(addresses[i])));
      if normalized == [] || exists a | a in normalized :: !IsEmail(a) then Err(AddressesInvalid)
      else if !AllDistinct(normalized) then Err(Duplicate)
      else Ok(normalized)
  }

  function OptionalAddresses(lower: string -> string, addresses: seq<string>): Result<seq<string>, AddressError> {
    if addresses == [] then Ok([]) else EnsureAddresses(lower, addresses)
  }

  /** The three recipient lists of a draft. */
  datatype Headers = Headers(to: seq<string>, cc: seq<string>, bcc: seq<string>)

  /** The address part of a draft's construction. */
  function DraftHeaders(lower: string -> string, raw: Headers): Result<Headers, AddressError> {
    var to := EnsureAddresses(lower, raw.to);
    if to.Err? then Err(to.error) else
    var cc := OptionalAddresses(lower, raw.cc);
    if cc.Err? then Err(cc.error) else
    var bcc := OptionalAddresses(lower, raw.bcc);
    if bcc.Err? then Err(bcc.error) else
    var all := to.value + cc.value + bcc.value;
    if !AllDistinct(all) then Err(Duplicate)
    else if |all| > 50 then Err(TooMany)
    else Ok(Headers(to.value, cc.value, bcc.value))
  }

  // ---- which drafts are accepted ----

  /** Some text without white space and '@'. */
  predicate IsAtom(s: string) {
    s != "" && NoSpace(s) && '@' !in s
  }

  /** The shape of an address, as the three texts that `^[^\s@]+@[^\s@]+\.[^\s@]+$` matches around the '@' and a '.'. */
  ghost predicate IsAddress(s: string) {
    exists local, host, top :: IsAtom(local) && IsAtom(host) && IsAtom(top) && s == local + "@" + host + "." + top
  }

  lemma AddressOfParts(local: string, host: string, top: string)
    requires IsAtom(local) && IsAtom(host) && IsAtom(top)
    ensures IsEmail(local + "@" + host + "." + top)
  {
    var s, at, dot := local + "@" + host + "." + top, |local|, |local| + 1 + |host|;
    forall i | 0 <= i < |s|
      ensures !IsSpace(s[i]) && (s[i] == '@' ==> i == at)
    {
      assert i < at ==> s[i] == local[i] && local[i] in local;
      assert at < i < dot ==> s[i] == host[i - at - 1] && host[i - at - 1] in host;
      assert dot < i ==> s[i] == top[i - dot - 1] && top[i - dot - 1] in top;
    }
    assert IsEmailAt(s, at, dot);
  }

  lemma EmailIff(s: string)
    ensures IsEmail(s) <==> IsAddress(s)
  {
    if IsEmail(s) {
      var at: nat, dot: nat :| at < |s| && dot < |s| && IsEmailAt(s, at, dot);
      var local, host, top := s[..at], s[at + 1..dot], s[dot + 1..];
      assert s == local + "@" + host + "." + top;
      assert IsAtom(local) && IsAtom(host) && IsAtom(top);
    }
    if IsAddress(s) {
      var local, host, top :| IsAtom(local) && IsAtom(host) && IsAtom(top) && s == local + "@" + host + "." + top;
      AddressOfParts(local, host, top);
    }
  }

  predicate InBounds(a: string) {
    Strip(a) != "" && |a| <= 320
  }

  /** `list` holds, place by place, the stripped and lowered texts of `raw`, each bounded before and an address after. */
  ghost predicate Normalises(lower: string -> string, raw: seq<string>, list: seq<string>) {
    && |list| == |raw|
    && forall i | 0 <= i < |raw| ::
         InBounds(raw[i]) && list[i] == lower(Strip(raw[i])) && IsAddress(list[i])
  }

  function Lowered(lower: string -> string, raw: seq<string>): seq<string> {
    seq(|raw|, i requires 0 <= i < |raw| => lower(Strip(raw[i])))
  }

  lemma EnsuredIs(lower: string -> string, raw: seq<string>)
    ensures var r, list := EnsureAddresses(lower, raw), Lowered(lower, raw);
            && (r == Ok(list) <==>
                  (forall a | a in raw :: InBounds(a)) && raw != [] && (forall a | a in list :: IsEmail(a)) && AllDistinct(list))
            && (r.Ok? ==> r.value == list)
  {
  }

  lemma NormalisesIff(lower: string -> string, raw: seq<string>, list: seq<string>)
    ensures Normalises(lower, raw, list)
       <==> list == Lowered(lower, raw) && (forall a | a in raw :: InBounds(a)) && forall a | a in list :: IsEmail(a)
  {
    forall a
      ensures IsEmail(a) <==> IsAddress(a)
    {
      EmailIff(a);
    }
    assert forall i | 0 <= i < |raw| :: raw[i] in raw;
    assert forall i | 0 <= i < |list| :: list[i] in list;
    if Normalises(lower, raw, list) {
      assert list == Lowered(lower, raw);
    }
  }

  lemma ListAcceptedIff(lower: string -> string, raw: seq<string>, list: seq<string>)
    ensures EnsureAddresses(lower, raw) == Ok(list) <==> raw != [] && Normalises(lower, raw, list) && AllDistinct(list)
  {
    EnsuredIs(lower, raw);
    NormalisesIff(lower, raw, list);
  }

  lemma OptionalAcceptedIff(lower: string -> string, raw: seq<string>, list: seq<string>)
    ensures OptionalAddresses(lower, raw) == Ok(list) <==> Normalises(lower, raw, list) && AllDistinct(list)
  {
    ListAcceptedIff(lower, raw, list);
  }

  lemma PartsAreDistinct(a: seq<string>, b: seq<string>, c: seq<string>)
    requires AllDistinct(a + b + c)
    ensures AllDistinct(a) && AllDistinct(b) && AllDistinct(c)
  {
    var all := a + b + c;
    assert forall i | 0 <= i < |a| :: all[i] == a[i];
    assert forall i | 0 <= i < |b| :: all[|a| + i] == b[i];
    assert forall i | 0 <= i < |c| :: all[|a| + |b| + i] == c[i];
  }

  /**
    A draft is accepted, with these three lists, exactly when it has a To address, every list is the normalised
    one of the same name, and the addresses of all three together are distinct and at most 50.
   */
  lemma DraftAcceptedIff(lower: string -> string, raw: Headers, h: Headers)
    ensures DraftHeaders(lower, raw) == Ok(h)
       <==> && raw.to != []
            && Normalises(lower, raw.to, h.to) && Normalises(lower, raw.cc, h.cc) && Normalises(lower, raw.bcc, h.bcc)
            && AllDistinct(h.to + h.cc + h.bcc) && |h.to| + |h.cc| + |h.bcc| <= 50
  {
    ListAcceptedIff(lower, raw.to, h.to);
    OptionalAcceptedIff(lower, raw.cc, h.cc);
    OptionalAcceptedIff(lower, raw.bcc, h.bcc);
    if AllDistinct(h.to + h.cc + h.bcc) {
      PartsAreDistinct(h.to, h.cc, h.bcc);
    }
  }

  lemma OnlyDistinctnessLeft(lower: string -> string, raw: seq<string>, list: seq<string>)
    requires Normalises(lower, raw, list)
    ensures OptionalAddresses(lower, raw) == if AllDistinct(list) then Ok(list) else Err(Duplicate)
    ensures raw != [] ==> OptionalAddresses(lower, raw) == EnsureAddresses(lower, raw)
  {
    NormalisesIff(lower, raw, list);
  }

  /** With every list normalised, what is left to refuse is a repetition first and then a draft that is too long. */
  lemma DraftOfNormalised(lower: string -> string, raw: Headers, h: Headers)
    requires raw.to != []
    requires Normalises(lower, raw.to, h.to) && Normalises(lower, raw.cc, h.cc) && Normalises(lower, raw.bcc, h.bcc)
    ensures var all, draft := h.to + h.cc + h.bcc, DraftHeaders(lower, raw);
            && (draft == Err(Duplicate) <==> !AllDistinct(all))
            && (draft == Err(TooMany) <==> AllDistinct(all) && |all| >= 51)
  {
    OnlyDistinctnessLeft(lower, raw.to, h.to);
    OnlyDistinctnessLeft(lower, raw.cc, h.cc);
    OnlyDistinctnessLeft(lower, raw.bcc, h.bcc);
    if AllDistinct(h.to + h.cc + h.bcc) {
      PartsAreDistinct(h.to, h.cc, h.bcc);
    }
  }

  predicate Repeats(xs: seq<string>) {
    exists i, j | 0 <= i < j < |xs| :: xs[i] == xs[j]
  }

  /** The error of a list: a blank or overlong text, else no text or one that is no address once normalised, else a repetition. */
  lemma ListErrorIff(lower: string -> string, raw: seq<string>)
    ensures var r, list := EnsureAddresses(lower, raw), Lowered(lower, raw);
            var bounded, addressed := forall a | a in raw :: InBounds(a), list != [] && forall a | a in list :: IsEmail(a);
            && (r == Err(AddressInvalid) <==> !bounded)
            && (r == Err(AddressesInvalid) <==> bounded && !addressed)
            && (r == Err(Duplicate) <==> bounded && addressed && Repeats(list))
            && r != Err(TooMany)
  {
  }

  function Prefixed(prefix: string, addresses: seq<string>): seq<string> {
    seq(|addresses|, i requires 0 <= i < |addresses| => prefix + addresses[i])
  }

  /** The lines of the form with Cc or Bcc. */
  function PrefixedLines(h: Headers): seq<string> {
    Prefixed("to:", h.to) + Prefixed("cc:", h.cc) + Prefixed("bcc:", h.bcc)
  }

  predicate ToOnly(h: Headers) {
    h.cc == [] && h.bcc == []
  }

  /** The lines whose joined text `digest_recipient_headers` hashes. */
  function DigestLines(h: Headers): seq<string> {
    if ToOnly(h) then h.to else PrefixedLines(h)
  }

  function DigestText(h: Headers): string {
    Join(DigestLines(h), '\n')
  }

  /** What normalisation guarantees and unambiguity rests on: a recipient, and only e-mail addresses. */
  ghost predicate Normal(h: Headers) {
    h.to != [] && forall a | a in h.to + h.cc + h.bcc :: IsEmail(a)
  }

  /** An accepted draft is normal, without duplicates across its lists, and has at most 50 recipients. */
  lemma DraftsAreNormal(lower: string -> string, raw: Headers)
    ensures var draft := DraftHeaders(lower, raw);
            draft.Ok? ==>
              var h := draft.value;
              Normal(h) && AllDistinct(h.to + h.cc + h.bcc) && |h.to + h.cc + h.bcc| <= 50
  {
    var draft := DraftHeaders(lower, raw);
    if draft.Ok? {
      var h := draft.value;
      DraftAcceptedIff(lower, raw, h);
      NormalisesIff(lower, raw.to, h.to);
      NormalisesIff(lower, raw.cc, h.cc);
      NormalisesIff(lower, raw.bcc, h.bcc);
    }
  }

  lemma EmailsAreStripped(a: string)
    ensures IsEmail(a) ==> a != "" && Strip(a) == a
  {
    StripMeaning(a);
  }

  /**
    Normalising an accepted list again gives the same list exactly when no address outgrew the limit under
    lowering, which can lengthen a text.
   */
  lemma NormalisingAgain(lower: string -> string, addresses: seq<string>)
    requires forall s :: lower(lower(s)) == lower(s)
    ensures var once := EnsureAddresses(lower, addresses);
            once.Ok? ==> (EnsureAddresses(lower, once.value) == once <==> forall a | a in once.value :: |a| <= 320)
  {
    var once := EnsureAddresses(lower, addresses);
    if once.Ok? {
      var v := once.value;
      forall i | 0 <= i < |v|
        ensures v[i] != "" && Strip(v[i]) == v[i] && lower(Strip(v[i])) == v[i]
      {
        assert v[i] in v && v[i] == lower(Strip(addresses[i]));
        EmailsAreStripped(v[i]);
      }
      assert seq(|v|, i requires 0 <= i < |v| => lower(Strip(v[i]))) == v;
    }
  }

  lemma LinesHaveNoBreak(h: Headers)
    requires Normal(h)
    ensures DigestLines(h) != [] && forall line | line in DigestLines(h) :: '\n' !in line
  {
    forall a | a in h.to + h.cc + h.bcc
      ensures '\n' !in a
    {
      assert IsSpace('\n');
    }
  }

  /** A line with one prefix is not a line with another, and the prefix gives the address back. */
  lemma PrefixesDiffer(a: string, b: string)
    ensures "to:" + a != "cc:" + b && "to:" + a != "bcc:" + b && "cc:" + a != "bcc:" + b
    ensures "to:" + a == "to:" + b ==> a == b
    ensures "cc:" + a == "cc:" + b ==> a == b
    ensures "bcc:" + a == "bcc:" + b ==> a == b
  {
    assert ("to:" + a)[0] == 't' && ("cc:" + b)[0] == 'c' && ("bcc:" + b)[0] == 'b' && ("cc:" + a)[0] == 'c';
    assert ("to:" + a)[3..] == a && ("to:" + b)[3..] == b && ("cc:" + a)[3..] == a && ("cc:" + b)[3..] == b;
    assert ("bcc:" + a)[4..] == a && ("bcc:" + b)[4..] == b;
  }

  /** The kind of a prefixed line: 0 for To, 1 for Cc, 2 for Bcc. */
  function Kind(h: Headers, i: nat): nat {
    if i < |h.to| then 0 else if i < |h.to| + |h.cc| then 1 else 2
  }

  function Address(h: Headers, i: nat): string
    requires i < |h.to| + |h.cc| + |h.bcc|
  {
    if i < |h.to| then h.to[i] else if i < |h.to| + |h.cc| then h.cc[i - |h.to|] else h.bcc[i - |h.to| - |h.cc|]
  }

  lemma LineAt(h: Headers, i: nat)
    requires i < |h.to| + |h.cc| + |h.bcc|
    ensures PrefixedLines(h)[i] == ["to:", "cc:", "bcc:"][Kind(h, i)] + Address(h, i)
  {
  }

  lemma SameLineSameAddress(a: Headers, b: Headers, i: nat)
    requires i < |PrefixedLines(a)| && PrefixedLines(a) == PrefixedLines(b)
    ensures |a.to| + |a.cc| + |a.bcc| == |b.to| + |b.cc| + |b.bcc|
    ensures Kind(a, i) == Kind(b, i) && Address(a, i) == Address(b, i)
  {
    LineAt(a, i);
    LineAt(b, i);
    PrefixesDiffer(Address(a, i), Address(b, i));
    PrefixesDiffer(Address(b, i), Address(a, i));
  }

  lemma SameAddressesSameHeaders(a: Headers, b: Headers)
    requires |a.to| == |b.to| && |a.cc| == |b.cc| && |a.bcc| == |b.bcc|
    requires forall i: nat | i < |a.to| + |a.cc| + |a.bcc| :: Address(a, i) == Address(b, i)
    ensures a == b
  {
    assert a.to == b.to by {
      assert forall i | 0 <= i < |a.to| :: a.to[i] == Address(a, i) && b.to[i] == Address(b, i);
    }
    assert a.cc == b.cc by {
      assert forall i | 0 <= i < |a.cc| :: a.cc[i] == Address(a, |a.to| + i) && b.cc[i] == Address(b, |a.to| + i);
    }
    assert a.bcc == b.bcc by {
      var m := |a.to| + |a.cc|;
      assert forall i | 0 <= i < |a.bcc| :: a.bcc[i] == Address(a, m + i) && b.bcc[i] == Address(b, m + i);
    }
  }

  lemma SameKindsSameLengths(a: Headers, b: Headers, n: nat)
    requires n == |a.to| + |a.cc| + |a.bcc| == |b.to| + |b.cc| + |b.bcc|
    requires forall i | 0 <= i < n :: Kind(a, i) == Kind(b, i)
    ensures |a.to| == |b.to| && |a.cc| == |b.cc| && |a.bcc| == |b.bcc|
  {
    assert |a.to| < n ==> Kind(b, |a.to|) != 0;
    assert |b.to| < n ==> Kind(a, |b.to|) != 0;
    assert |a.to| == |b.to|;
    assert |a.to| + |a.cc| < n ==> Kind(b, |a.to| + |a.cc|) == 2;
    assert |b.to| + |b.cc| < n ==> Kind(a, |b.to| + |b.cc|) == 2;
  }

  /** The prefixed form is unambiguous by itself. */
  lemma PrefixedLinesInjective(a: Headers, b: Headers)
    requires PrefixedLines(a) == PrefixedLines(b)
    ensures a == b
  {
    var n := |a.to| + |a.cc| + |a.bcc|;
    assert n == |PrefixedLines(a)| == |b.to| + |b.cc| + |b.bcc|;
    forall i: nat | i < n
      ensures Kind(a, i) == Kind(b, i) && Address(a, i) == Address(b, i)
    {
      SameLineSameAddress(a, b, i);
    }
    SameKindsSameLengths(a, b, n);
    SameAddressesSameHeaders(a, b);
  }

  /** One draft has To alone, and its addresses read like the prefixed lines of the other. */
  predicate Mimics(a: Headers, b: Headers) {
    ToOnly(a) && !ToOnly(b) && a.to == PrefixedLines(b)
  }

  /**
    Exactly when two normalised drafts share a digest text: they are the same draft, or the To addresses of
    one are, letter for letter, the prefixed lines of the other.
   */
  lemma SameTextIff(a: Headers, b: Headers)
    requires Normal(a) && Normal(b)
    ensures DigestText(a) == DigestText(b) <==> a == b || Mimics(a, b) || Mimics(b, a)
  {
    LinesHaveNoBreak(a);
    LinesHaveNoBreak(b);
    SplitJoin(DigestLines(a), '\n');
    SplitJoin(DigestLines(b), '\n');
    if DigestText(a) == DigestText(b) {
      assert DigestLines(a) == DigestLines(b);
      if !ToOnly(a) && !ToOnly(b) {
        PrefixedLinesInjective(a, b);
      }
    }
  }

  /** No To address of a To-only draft begins like a Cc or Bcc line. */
  predicate NoHeaderLikeAddress(h: Headers) {
    ToOnly(h) ==> forall a | a in h.to :: !StartsWith(a, "cc:") && !StartsWith(a, "bcc:")
  }

  lemma MimicsNeedsPrefix(a: Headers, b: Headers)
    ensures Mimics(a, b) ==> !NoHeaderLikeAddress(a)
  {
    if Mimics(a, b) {
      var i := if b.cc != [] then |b.to| else |b.to| + |b.cc|;
      LineAt(b, i);
      assert a.to[i] in a.to;
      assert StartsWith(a.to[i], "cc:") || StartsWith(a.to[i], "bcc:");
    }
  }

  /** So the recipient binding is unambiguous unless a To address begins with "cc:" or "bcc:". */
  lemma RecipientBindingInjective(a: Headers, b: Headers)
    requires Normal(a) && Normal(b) && NoHeaderLikeAddress(a) && NoHeaderLikeAddress(b)
    ensures DigestText(a) == DigestText(b) ==> a == b
  {
    SameTextIff(a, b);
    MimicsNeedsPrefix(a, b);
    MimicsNeedsPrefix(b, a);
  }

  // ---- the condition on one draft ----

  lemma PrefixKeepsEmail(prefix: string, address: string)
    requires IsEmail(address) && forall c | c in prefix :: !IsSpace(c) && c != '@'
    ensures IsEmail(prefix + address)
  {
    var at: nat, dot: nat :| at < |address| && dot < |address| && IsEmailAt(address, at, dot);
    var line, n := prefix + address, |prefix|;
    forall i | 0 <= i < |line|
      ensures !IsSpace(line[i]) && (line[i] == '@' ==> i == at + n)
    {
      assert line[i] == if i < n then prefix[i] else address[i - n];
    }
    assert IsEmailAt(line, at + n, dot + n);
  }

  /** The To-only draft whose addresses are the prefixed lines of `h`. */
  function Twin(h: Headers): Headers {
    Headers(PrefixedLines(h), [], [])
  }

  lemma PrefixedLinesAreEmails(h: Headers)
    requires Normal(h)
    ensures forall line | line in PrefixedLines(h) :: IsEmail(line)
  {
    var lines := PrefixedLines(h);
    forall i: nat | i < |lines|
      ensures IsEmail(lines[i])
    {
      LineAt(h, i);
      assert Address(h, i) in h.to + h.cc + h.bcc;
      PrefixKeepsEmail(["to:", "cc:", "bcc:"][Kind(h, i)], Address(h, i));
    }
  }

  /** Every draft with Cc or Bcc shares its digest text with a different draft, which has To alone. */
  lemma EveryCopyHasATwin(h: Headers)
    requires Normal(h) && !ToOnly(h)
    ensures Normal(Twin(h)) && ToOnly(Twin(h)) && Twin(h) != h && DigestText(Twin(h)) == DigestText(h)
  {
    PrefixedLinesAreEmails(h);
    assert Twin(h).to + Twin(h).cc + Twin(h).bcc == PrefixedLines(h);
  }

  predicate IsLine(prefix: string, line: string) {
    StartsWith(line, prefix) && IsEmail(line[|prefix|..])
  }

  /** The lines before `i` are To lines, at least one, those up to `j` Cc lines and the others Bcc lines, with some Cc or Bcc. */
  predicate ReadsAs(lines: seq<string>, i: nat, j: nat) {
    && 0 < i <= j <= |lines| && i < |lines|
    && (forall k | 0 <= k < i :: IsLine("to:", lines[k]))
    && (forall k | i <= k < j :: IsLine("cc:", lines[k]))
    && (forall k | j <= k < |lines| :: IsLine("bcc:", lines[k]))
  }

  predicate ReadsAsHeaders(lines: seq<string>) {
    exists i: nat, j: nat | i <= |lines| && j <= |lines| :: ReadsAs(lines, i, j)
  }

  /** A line without its first `n` characters. */
  function Rest(line: string, n: nat): string {
    if n <= |line| then line[n..] else ""
  }

  function Unprefixed(n: nat, lines: seq<string>): seq<string> {
    seq(|lines|, k requires 0 <= k < |lines| => Rest(lines[k], n))
  }

  lemma UnprefixedLines(prefix: string, lines: seq<string>)
    requires forall k | 0 <= k < |lines| :: IsLine(prefix, lines[k])
    ensures Prefixed(prefix, Unprefixed(|prefix|, lines)) == lines
    ensures forall a | a in Unprefixed(|prefix|, lines) :: IsEmail(a)
  {
    forall k | 0 <= k < |lines|
      ensures prefix + Rest(lines[k], |prefix|) == lines[k] && IsEmail(Rest(lines[k], |prefix|))
    {
      assert IsLine(prefix, lines[k]);
      assert lines[k][..|prefix|] == prefix;
    }
  }

  /** Lines that read as headers are the prefixed lines of a normalised draft with Cc or Bcc. */
  lemma HeadersOfLines(lines: seq<string>, i: nat, j: nat) returns (h: Headers)
    requires ReadsAs(lines, i, j)
    ensures Normal(h) && !ToOnly(h) && PrefixedLines(h) == lines
  {
    var to, cc, bcc := lines[..i], lines[i..j], lines[j..];
    UnprefixedLines("to:", to);
    UnprefixedLines("cc:", cc);
    UnprefixedLines("bcc:", bcc);
    h := Headers(Unprefixed(3, to), Unprefixed(3, cc), Unprefixed(4, bcc));
    assert lines == to + cc + bcc;
  }

  lemma PrefixOf(prefix: string, address: string)
    ensures StartsWith(prefix + address, prefix) && (prefix + address)[|prefix|..] == address
  {
  }

  lemma LinesOfHeaders(h: Headers)
    requires Normal(h) && !ToOnly(h)
    ensures ReadsAsHeaders(PrefixedLines(h))
  {
    var lines, i, j := PrefixedLines(h), |h.to|, |h.to| + |h.cc|;
    forall k: nat | k < |lines|
      ensures IsLine(["to:", "cc:", "bcc:"][Kind(h, k)], lines[k])
    {
      LineAt(h, k);
      assert Address(h, k) in h.to + h.cc + h.bcc;
      PrefixOf(["to:", "cc:", "bcc:"][Kind(h, k)], Address(h, k));
    }
    assert ReadsAs(lines, i, j);
  }

  /**
    Exactly which drafts are alone with their digest text: those with To alone whose addresses do not read as
    headers.  Both can be checked on the one draft.
   */
  lemma AloneIff(a: Headers)
    requires Normal(a)
    ensures (forall b | Normal(b) :: DigestText(b) == DigestText(a) ==> b == a) <==> ToOnly(a) && !ReadsAsHeaders(a.to)
  {
    if !ToOnly(a) {
      EveryCopyHasATwin(a);
    } else if ReadsAsHeaders(a.to) {
      var i: nat, j: nat :| i <= |a.to| && j <= |a.to| && ReadsAs(a.to, i, j);
      var b := HeadersOfLines(a.to, i, j);
      assert DigestText(b) == DigestText(a) && b != a;
    } else {
      forall b | Normal(b) && DigestText(b) == DigestText(a)
        ensures b == a
      {
        SameTextIff(a, b);
        if Mimics(a, b) {
          LinesOfHeaders(b);
        }
      }
    }
  }

  // ---- twins that are accepted as drafts ----

  /** Lowering leaves a prefix in front of a lowered text alone. */
  ghost predicate KeepsPrefixes(lower: string -> string) {
    forall s :: && lower("to:" + lower(s)) == "to:" + lower(s)
                && lower("cc:" + lower(s)) == "cc:" + lower(s)
                && lower("bcc:" + lower(s)) == "bcc:" + lower(s)
  }

  ghost predicate IsLowered(lower: string -> string, a: string) {
    exists s :: a == lower(s)
  }

  lemma EnsuredAreLowered(lower: string -> string, addresses: seq<string>)
    ensures var r := OptionalAddresses(lower, addresses); r.Ok? ==> forall a | a in r.value :: IsLowered(lower, a)
    ensures var r := EnsureAddresses(lower, addresses); r.Ok? ==> forall a | a in r.value :: IsLowered(lower, a)
  {
    assert forall i | 0 <= i < |addresses| :: IsLowered(lower, lower(Strip(addresses[i])));
  }

  lemma DraftsAreLowered(lower: string -> string, raw: Headers)
    ensures var draft := DraftHeaders(lower, raw);
            draft.Ok? ==> var h := draft.value; forall a | a in h.to + h.cc + h.bcc :: IsLowered(lower, a)
  {
    EnsuredAreLowered(lower, raw.to);
    EnsuredAreLowered(lower, raw.cc);
    EnsuredAreLowered(lower, raw.bcc);
  }

  lemma AddressAt(h: Headers, i: nat)
    requires i < |h.to| + |h.cc| + |h.bcc|
    ensures Address(h, i) == (h.to + h.cc + h.bcc)[i]
  {
  }

  lemma LinesAreDistinct(h: Headers)
    requires AllDistinct(h.to + h.cc + h.bcc)
    ensures AllDistinct(PrefixedLines(h))
  {
    var lines := PrefixedLines(h);
    forall i: nat, j: nat | i < j < |lines|
      ensures lines[i] != lines[j]
    {
      LineAt(h, i);
      LineAt(h, j);
      AddressAt(h, i);
      AddressAt(h, j);
      PrefixesDiffer(Address(h, i), Address(h, j));
    }
  }

  /** Addresses that normalising leaves alone are accepted as they are exactly within the length limit. */
  lemma AcceptedAsTheyAre(lower: string -> string, lines: seq<string>)
    requires lines != [] && AllDistinct(lines) && forall line | line in lines :: IsEmail(line) && lower(line) == line
    ensures EnsureAddresses(lower, lines) == Ok(lines) <==> forall line | line in lines :: |line| <= 320
  {
    forall i | 0 <= i < |lines|
      ensures lines[i] != "" && Strip(lines[i]) == lines[i] && lower(Strip(lines[i])) == lines[i]
    {
      assert lines[i] in lines;
      EmailsAreStripped(lines[i]);
    }
    assert seq(|lines|, i requires 0 <= i < |lines| => lower(Strip(lines[i]))) == lines;
  }

  lemma LinesAreLowered(lower: string -> string, raw: Headers)
    requires KeepsPrefixes(lower) && DraftHeaders(lower, raw).Ok?
    ensures forall line | line in PrefixedLines(DraftHeaders(lower, raw).value) :: lower(line) == line
  {
    var h := DraftHeaders(lower, raw).value;
    DraftsAreLowered(lower, raw);
    var lines := PrefixedLines(h);
    forall i: nat | i < |lines|
      ensures lower(lines[i]) == lines[i]
    {
      LineAt(h, i);
      AddressAt(h, i);
      assert Address(h, i) in h.to + h.cc + h.bcc;
      assert IsLowered(lower, Address(h, i));
      var s :| Address(h, i) == lower(s);
      assert Kind(h, i) == 0 || Kind(h, i) == 1 || Kind(h, i) == 2;
    }
  }

  /**
    The twin of an accepted draft with Cc or Bcc is itself an accepted draft exactly when every address still has
    at most 320 characters behind its prefix.
   */
  lemma TwinIsADraftIff(lower: string -> string, raw: Headers)
    requires KeepsPrefixes(lower)
    ensures var draft := DraftHeaders(lower, raw);
            draft.Ok? ==>
              var twin := Twin(draft.value);
              DraftHeaders(lower, twin) == Ok(twin) <==> forall line | line in twin.to :: |line| <= 320
  {
    var draft := DraftHeaders(lower, raw);
    if draft.Ok? {
      var h := draft.value;
      var lines := PrefixedLines(h);
      DraftsAreNormal(lower, raw);
      LinesAreDistinct(h);
      PrefixedLinesAreEmails(h);
      LinesAreLowered(lower, raw);
      AcceptedAsTheyAre(lower, lines);
      assert lines + [] + [] == lines && |lines| == |h.to + h.cc + h.bcc|;
    }
  }

  /** An instance: "to:a@x.y" and "cc:b@x.y" are themselves valid addresses. */
  lemma HeaderLikeAddressesCollide()
    ensures var a := Headers(["to:a@x.y", "cc:b@x.y"], [], []);
            var b := Headers(["a@x.y"], ["b@x.y"], []);
            Normal(a) && Normal(b) && a != b && DigestText(a) == DigestText(b)
  {
    assert IsEmailAt("a@x.y", 1, 3) && IsEmailAt("b@x.y", 1, 3) && IsEmailAt("to:a@x.y", 4, 6) && IsEmailAt("cc:b@x.y", 4, 6);
    var a := Headers(["to:a@x.y", "cc:b@x.y"], [], []);
    var b := Headers(["a@x.y"], ["b@x.y"], []);
    assert "to:" + "a@x.y" == "to:a@x.y" && "cc:" + "b@x.y" == "cc:b@x.y";
    assert Prefixed("to:", b.to) == ["to:a@x.y"] && Prefixed("cc:", b.cc) == ["cc:b@x.y"] && Prefixed("bcc:", b.bcc) == [];
    assert a.to == PrefixedLines(b);
    assert a.to != b.to by {
      assert |a.to| != |b.to|;
    }
  }
}
