/**
  Unpadded base64url tokens and the signed OAuth state.  Decoding follows the lenient decoder of the
  standard library: unknown characters are skipped and data after complete padding is ignored.
 */
module SignedState {
  import opened Wrappers
  import opened Text

  type Byte = b: int | 0 <= b < 256
  type Sextet = v: int | 0 <= v < 64

  // ---- section 5 of RFC 4648 ----

  function Letter(v: Sextet): char {
    if v < 26 then ('A' as int + v) as char
    else if v < 52 then ('a' as int + v - 26) as char
    else if v < 62 then ('0' as int + v - 52) as char
    else if v == 62 then '-' else '_'
  }

  /** The decoder maps '-' and '_' to '+' and '/' first, so it knows all four. */
  function ValueOf(c: char): Option<Sextet> {
    if 'A' <= c <= 'Z' then Some(c as int - 'A' as int)
    else if 'a' <= c <= 'z' then Some(c as int - 'a' as int + 26)
    else if '0' <= c <= '9' then Some(c as int - '0' as int + 52)
    else if c == '-' || c == '+' then Some(62)
    else if c == '_' || c == '/' then Some(63)
    else None
  }

  /** `urlsafe_b64encode`, with padding. */
  function Encode(b: seq<Byte>): string {
    if |b| == 0 then ""
    else if |b| == 1 then [Letter(b[0] / 4), Letter(b[0] % 4 * 16), '=', '=']
    else if |b| == 2 then [Letter(b[0] / 4), Letter(b[0] % 4 * 16 + b[1] / 16), Letter(b[1] % 16 * 4), '=']
    else
      [Letter(b[0] / 4), Letter(b[0] % 4 * 16 + b[1] / 16), Letter(b[1] % 16 * 4 + b[2] / 64), Letter(b[2] % 64)]
      + Encode(b[3..])
  }

  /** `.rstrip("=")` */
  function DropPadding(s: string): string {
    if s != "" && s[|s| - 1] == '=' then DropPadding(s[..|s| - 1]) else s
  }

  /** `_b64url`, and `_token` of the random bytes it draws. */
  function B64Url(b: seq<Byte>): string {
    DropPadding(Encode(b))
  }

  /** How many characters `-len % 4` adds. */
  function MissingPadding(n: nat): nat {
    (4 - n % 4) % 4
  }

  function Equals(n: nat): string {
    if n == 0 then "" else "=" + Equals(n - 1)
  }

  function Prepend(b: Byte, rest: Option<seq<Byte>>): Option<seq<Byte>> {
    match rest
    case None => None
    case Some(bytes) => Some([b] + bytes)
  }

  /** The decoder: `quad` is the position within a group of four, `left` the bits not yet written. */
  function DecodeFrom(s: string, quad: nat, left: nat, pads: nat): Option<seq<Byte>>
    requires quad < 4 && (quad == 1 ==> left < 64) && (quad == 2 ==> left < 16) && (quad == 3 ==> left < 4)
    decreases |s|
  {
    if s == "" then (if quad == 0 then Some([]) else None)
    else if s[0] == '=' then
      if quad >= 2 && quad + pads + 1 >= 4 then Some([])
      else DecodeFrom(s[1..], quad, left, if quad >= 2 then pads + 1 else pads)
    else
      match ValueOf(s[0])
      case None => DecodeFrom(s[1..], quad, left, pads)
      case Some(v) =>
        if quad == 0 then DecodeFrom(s[1..], 1, v, 0)
        else if quad == 1 then Prepend(left * 4 + v / 16, DecodeFrom(s[1..], 2, v % 16, 0))
        else if quad == 2 then Prepend(left * 16 + v / 4, DecodeFrom(s[1..], 3, v % 4, 0))
        else Prepend(left * 64 + v, DecodeFrom(s[1..], 0, 0, 0))
  }

  /** `urlsafe_b64decode(s + "=" * (-len(s) % 4))`, for an ASCII text. */
  function DecodeUnpadded(s: string): Option<seq<Byte>> {
    DecodeFrom(s + Equals(MissingPadding(|s|)), 0, 0, 0)
  }

  // ---- round trip ----

  lemma LetterValue(v: Sextet)
    ensures ValueOf(Letter(v)) == Some(v) && Letter(v) != '=' && Letter(v) != '.'
  {
  }

  /** The decoder knows the letters of the url-safe alphabet, and the two of the plain one in place of its last two. */
  lemma ValueOfIff(c: char, v: Sextet)
    ensures ValueOf(c) == Some(v) <==> c == Letter(v) || (v == 62 && c == '+') || (v == 63 && c == '/')
  {
  }

  /** The encoding without its padding. */
  function Body(b: seq<Byte>): string {
    if |b| == 0 then ""
    else if |b| == 1 then [Letter(b[0] / 4), Letter(b[0] % 4 * 16)]
    else if |b| == 2 then [Letter(b[0] / 4), Letter(b[0] % 4 * 16 + b[1] / 16), Letter(b[1] % 16 * 4)]
    else
      [Letter(b[0] / 4), Letter(b[0] % 4 * 16 + b[1] / 16), Letter(b[1] % 16 * 4 + b[2] / 64), Letter(b[2] % 64)]
      + Body(b[3..])
  }

  lemma {:induction false} BodyLength(b: seq<Byte>)
    ensures |Body(b)| == (4 * |b| + 2) / 3
  {
    if |b| < 3 {
    } else {
      BodyLength(b[3..]);
    }
  }

  lemma {:induction false} BodyLetters(b: seq<Byte>)
    ensures forall c | c in Body(b) :: exists v: Sextet :: c == Letter(v)
  {
    if |b| < 3 {
    } else {
      BodyLetters(b[3..]);
    }
  }

  lemma SamePadding(n: nat)
    ensures MissingPadding(n + 4) == MissingPadding(n)
  {
  }

  lemma {:induction false} BodyPlusPadding(b: seq<Byte>)
    ensures Encode(b) == Body(b) + Equals(MissingPadding(|Body(b)|))
  {
    if |b| == 0 || |b| == 2 {
    } else if |b| == 1 {
      assert Equals(2) == "=" + Equals(1);
    } else {
      BodyPlusPadding(b[3..]);
      SamePadding(|Body(b[3..])|);
    }
  }

  lemma {:induction false} EqualsAtEnd(n: nat)
    ensures |Equals(n)| == n && (n > 0 ==> Equals(n) == Equals(n - 1) + "=")
  {
    if n == 0 {
    } else {
      EqualsAtEnd(n - 1);
    }
  }

  lemma {:induction false} DropAllPadding(body: string, n: nat)
    requires body == "" || body[|body| - 1] != '='
    ensures DropPadding(body + Equals(n)) == body
  {
    if n == 0 {
      assert body + Equals(0) == body;
    } else {
      EqualsAtEnd(n);
      var s := body + Equals(n);
      assert s[..|s| - 1] == body + Equals(n - 1);
      DropAllPadding(body, n - 1);
    }
  }

  /** Stripping the padding leaves the body, of length ceil(4n/3), over the url-safe alphabet. */
  lemma TokenShape(b: seq<Byte>)
    ensures B64Url(b) == Body(b) && |B64Url(b)| == (4 * |b| + 2) / 3
    ensures forall c | c in B64Url(b) :: exists v: Sextet :: c == Letter(v)
    ensures '.' !in B64Url(b) && '=' !in B64Url(b)
  {
    BodyLength(b);
    BodyLetters(b);
    BodyPlusPadding(b);
    forall v: Sextet
      ensures Letter(v) != '=' && Letter(v) != '.'
    {
      LetterValue(v);
    }
    DropAllPadding(Body(b), MissingPadding(|Body(b)|));
  }

  lemma DecodeLetter(v: Sextet, rest: string, quad: nat, left: nat, pads: nat)
    requires quad < 4 && (quad == 1 ==> left < 64) && (quad == 2 ==> left < 16) && (quad == 3 ==> left < 4)
    ensures DecodeFrom([Letter(v)] + rest, quad, left, pads)
         == if quad == 0 then DecodeFrom(rest, 1, v, 0)
            else if quad == 1 then Prepend(left * 4 + v / 16, DecodeFrom(rest, 2, v % 16, 0))
            else if quad == 2 then Prepend(left * 16 + v / 4, DecodeFrom(rest, 3, v % 4, 0))
            else Prepend(left * 64 + v, DecodeFrom(rest, 0, 0, 0))
  {
    LetterValue(v);
    var s := [Letter(v)] + rest;
    assert s[0] == Letter(v) && s[1..] == rest;
  }

  lemma BitsFit(a: Byte, b: Byte, c: Byte)
    ensures a / 4 * 4 + (a % 4 * 16 + b / 16) / 16 == a && (a % 4 * 16 + b / 16) % 16 == b / 16
    ensures b / 16 * 16 + (b % 16 * 4 + c / 64) / 4 == b && (b % 16 * 4 + c / 64) % 4 == c / 64
    ensures c / 64 * 64 + c % 64 == c
  {
  }

  /** The first two characters of a group give its first byte. */
  lemma DecodeFirstHalf(a: Byte, b: Byte, rest: string)
    ensures DecodeFrom([Letter(a / 4)] + ([Letter(a % 4 * 16 + b / 16)] + rest), 0, 0, 0) == Prepend(a, DecodeFrom(rest, 2, b / 16, 0))
  {
    BitsFit(a, b, 0);
    DecodeLetter(a / 4, [Letter(a % 4 * 16 + b / 16)] + rest, 0, 0, 0);
    DecodeLetter(a % 4 * 16 + b / 16, rest, 1, a / 4, 0);
  }

  lemma DecodeLastTwo(v2: Sextet, v3: Sextet, left: nat, rest: string)
    requires left < 16
    ensures DecodeFrom([Letter(v2)] + ([Letter(v3)] + rest), 2, left, 0)
         == Prepend(left * 16 + v2 / 4, Prepend(v2 % 4 * 64 + v3, DecodeFrom(rest, 0, 0, 0)))
  {
    DecodeLetter(v2, [Letter(v3)] + rest, 2, left, 0);
    DecodeLetter(v3, rest, 3, v2 % 4, 0);
  }

  /** The last two give the other bytes. */
  lemma DecodeSecondHalf(b: Byte, c: Byte, rest: string)
    ensures DecodeFrom([Letter(b % 16 * 4 + c / 64)] + ([Letter(c % 64)] + rest), 2, b / 16, 0)
         == Prepend(b, Prepend(c, DecodeFrom(rest, 0, 0, 0)))
  {
    BitsFit(0, b, c);
    DecodeLastTwo(b % 16 * 4 + c / 64, c % 64, b / 16, rest);
  }

  /** One full group of four characters gives its three bytes back. */
  lemma DecodeGroup(a: Byte, b: Byte, c: Byte, rest: string)
    ensures DecodeFrom([Letter(a / 4), Letter(a % 4 * 16 + b / 16), Letter(b % 16 * 4 + c / 64), Letter(c % 64)] + rest, 0, 0, 0)
         == Prepend(a, Prepend(b, Prepend(c, DecodeFrom(rest, 0, 0, 0))))
  {
    var v0, v1, v2, v3 := Letter(a / 4), Letter(a % 4 * 16 + b / 16), Letter(b % 16 * 4 + c / 64), Letter(c % 64);
    assert [v0, v1, v2, v3] + rest == [v0] + ([v1] + ([v2] + ([v3] + rest)));
    DecodeFirstHalf(a, b, [v2] + ([v3] + rest));
    DecodeSecondHalf(b, c, rest);
  }

  lemma DecodeOneByte(a: Byte)
    ensures DecodeFrom([Letter(a / 4), Letter(a % 4 * 16), '=', '='], 0, 0, 0) == Some([a])
  {
    BitsFit(a, 0, 0);
    var s1 := [Letter(a % 4 * 16)] + "==";
    assert [Letter(a / 4), Letter(a % 4 * 16), '=', '='] == [Letter(a / 4)] + s1;
    DecodeLetter(a / 4, s1, 0, 0, 0);
    DecodeLetter(a % 4 * 16, "==", 1, a / 4, 0);
    assert "=="[1..] == "=";
    assert DecodeFrom("=", 2, 0, 1) == Some([]);
    assert DecodeFrom("==", 2, 0, 0) == Some([]);
    assert [a] + [] == [a];
  }

  lemma DecodeTwoBytes(a: Byte, b: Byte)
    ensures DecodeFrom([Letter(a / 4), Letter(a % 4 * 16 + b / 16), Letter(b % 16 * 4), '='], 0, 0, 0) == Some([a, b])
  {
    BitsFit(a, b, 0);
    var v1, v2 := a % 4 * 16 + b / 16, b % 16 * 4;
    var s2 := [Letter(v2)] + "=";
    var s1 := [Letter(v1)] + s2;
    assert [Letter(a / 4), Letter(v1), Letter(v2), '='] == [Letter(a / 4)] + s1;
    DecodeLetter(a / 4, s1, 0, 0, 0);
    DecodeLetter(v1, s2, 1, a / 4, 0);
    DecodeLetter(v2, "=", 2, b / 16, 0);
    assert DecodeFrom("=", 3, 0, 0) == Some([]);
    assert [b] + [] == [b] && [a] + [b] == [a, b];
  }

  lemma {:induction false} DecodeEncode(b: seq<Byte>)
    ensures DecodeFrom(Encode(b), 0, 0, 0) == Some(b)
  {
    if |b| == 0 {
    } else if |b| == 1 {
      DecodeOneByte(b[0]);
      assert b == [b[0]];
    } else if |b| == 2 {
      DecodeTwoBytes(b[0], b[1]);
      assert b == [b[0], b[1]];
    } else {
      DecodeEncode(b[3..]);
      DecodeGroup(b[0], b[1], b[2], Encode(b[3..]));
      assert b == [b[0]] + ([b[1]] + ([b[2]] + b[3..]));
    }
  }

  /** Stripping the padding and re-adding `-len % 4` signs loses nothing, for every byte string. */
  lemma UnpaddedRoundTrip(b: seq<Byte>)
    ensures DecodeUnpadded(B64Url(b)) == Some(b)
  {
    TokenShape(b);
    BodyPlusPadding(b);
    DecodeEncode(b);
  }

  /** Distinct random bytes give distinct tokens. */
  lemma TokensAreInjective(a: seq<Byte>, b: seq<Byte>)
    ensures B64Url(a) == B64Url(b) ==> a == b
  {
    UnpaddedRoundTrip(a);
    UnpaddedRoundTrip(b);
  }

  /** The unreserved characters of section 2.3 of RFC 3986. */
  predicate IsUnreserved(c: char) {
    'A' <= c <= 'Z' || 'a' <= c <= 'z' || '0' <= c <= '9' || c in "-._~"
  }

  /** The verifier of 48 random bytes is 64 unreserved characters, as section 4.1 of RFC 7636 demands (43 to 128). */
  lemma VerifierIsValid(random: seq<Byte>)
    requires |random| == 48
    ensures |B64Url(random)| == 64 && forall c | c in B64Url(random) :: IsUnreserved(c)
  {
    TokenShape(random);
  }

  // ---- the signed state ----

  /** What parsing the payload bytes as UTF-8 JSON gives. */
  datatype Loaded<P> = Garbage | NotObject | Object(payload: P)

  /** HMAC-SHA256 with the signing secret, and canonical JSON with its parser. */
  datatype Codec<!P> = Codec(mac: string -> seq<Byte>, dump: P -> seq<Byte>, load: seq<Byte> -> Loaded<P>)

  /** JSON gives back what was written and is never empty; nor is a MAC. */
  ghost predicate Faithful<P(!new)>(codec: Codec<P>) {
    && (forall p :: codec.load(codec.dump(p)) == Object(p) && codec.dump(p) != [])
    && (forall s :: codec.mac(s) != [])
  }

  datatype StateError = FormatInvalid | NotAscii | EncodingInvalid | SignatureInvalid

  function SignState<P>(codec: Codec<P>, payload: P): string {
    var encoded := B64Url(codec.dump(payload));
    encoded + ['.'] + B64Url(codec.mac(encoded))
  }

  function VerifyState<P>(codec: Codec<P>, value: string): Result<P, StateError> {
    if !(20 <= |value| <= 4000) then Err(FormatInvalid)
    else
      var parts := Split(value, '.');
      if |parts| != 2 || parts[0] == "" || parts[1] == "" then Err(FormatInvalid)
      else
        var encoded, signature := parts[0], parts[1];
        if !IsAscii(encoded) then Err(NotAscii)
        else
          var expected := codec.mac(encoded);
          var actual := if IsAscii(signature) then DecodeUnpadded(signature) else None;
          var bytes := DecodeUnpadded(encoded);
          if actual.None? || bytes.None? then Err(EncodingInvalid)
          else
            match codec.load(bytes.value)
            case Garbage => Err(EncodingInvalid)
            case NotObject => Err(SignatureInvalid)
            case Object(payload) => if expected == actual.value then Ok(payload) else Err(SignatureInvalid)
  }

  lemma TokenIsAscii(b: seq<Byte>)
    ensures IsAscii(B64Url(b)) && (b != [] ==> B64Url(b) != "")
  {
    TokenShape(b);
  }

  /** A signed state verifies to its payload exactly when its length passes the check, and is refused otherwise. */
  lemma SignedStateVerifies<P(!new)>(codec: Codec<P>, payload: P)
    requires Faithful(codec)
    ensures VerifyState(codec, SignState(codec, payload))
         == if 20 <= |SignState(codec, payload)| <= 4000 then Ok(payload) else Err(FormatInvalid)
  {
    var bytes := codec.dump(payload);
    var encoded := B64Url(bytes);
    var mac := codec.mac(encoded);
    var signature := B64Url(mac);
    TokenShape(bytes);
    TokenShape(mac);
    TokenIsAscii(bytes);
    TokenIsAscii(mac);
    UnpaddedRoundTrip(bytes);
    UnpaddedRoundTrip(mac);
    SplitAtFirst(encoded, '.', signature);
    assert IndexOf(signature, '.') == |signature|;
    assert Split(SignState(codec, payload), '.') == [encoded, signature];
  }

  /** The length of a signed state from the sizes of its payload and MAC. */
  lemma SignedLength<P>(codec: Codec<P>, payload: P)
    ensures |SignState(codec, payload)|
         == (4 * |codec.dump(payload)| + 2) / 3 + 1 + (4 * |codec.mac(B64Url(codec.dump(payload)))| + 2) / 3
  {
    TokenShape(codec.dump(payload));
    TokenShape(codec.mac(B64Url(codec.dump(payload))));
  }

  // ---- exactly which states verify ----

  /** The text carries the payload in `encoded`, whatever its signature. */
  ghost predicate Encodes<P>(codec: Codec<P>, encoded: string, payload: P) {
    && encoded != "" && IsAscii(encoded) && DecodeUnpadded(encoded).Some?
    && codec.load(DecodeUnpadded(encoded).value) == Object(payload)
  }

  lemma PartsOf(encoded: string, signature: string)
    requires '.' !in encoded && '.' !in signature
    ensures Split(encoded + "." + signature, '.') == [encoded, signature]
  {
    SplitAtFirst(encoded, '.', signature);
    IndexOfFound(signature, '.');
  }

  /** A two-part text verifies exactly if its signature part decodes to the MAC of its first part, which carries the payload. */
  lemma TwoPartsVerifyIff<P>(codec: Codec<P>, encoded: string, signature: string, payload: P)
    requires '.' !in encoded && '.' !in signature
    ensures VerifyState(codec, encoded + "." + signature) == Ok(payload)
            <==> && 20 <= |encoded| + 1 + |signature| <= 4000 && signature != "" && IsAscii(signature)
                 && Encodes(codec, encoded, payload) && DecodeUnpadded(signature) == Some(codec.mac(encoded))
  {
    PartsOf(encoded, signature);
  }

  /** Any other signature that decodes is refused as such. */
  lemma OtherSignatureIsRefused<P>(codec: Codec<P>, encoded: string, signature: string, payload: P)
    requires '.' !in encoded && '.' !in signature && 20 <= |encoded| + 1 + |signature| <= 4000 && Encodes(codec, encoded, payload)
    requires signature != "" && IsAscii(signature) && DecodeUnpadded(signature).Some? && DecodeUnpadded(signature).value != codec.mac(encoded)
    ensures VerifyState(codec, encoded + "." + signature) == Err(SignatureInvalid)
  {
    PartsOf(encoded, signature);
  }

  /** The two parts, their payload and their signature. */
  ghost predicate IsSigned<P>(codec: Codec<P>, value: string, encoded: string, signature: string, payload: P) {
    && value == encoded + "." + signature && '.' !in encoded && '.' !in signature && signature != "" && IsAscii(signature)
    && Encodes(codec, encoded, payload) && DecodeUnpadded(signature) == Some(codec.mac(encoded))
  }

  /** Whatever is presented: a payload is verified exactly from a text of allowed length that is signed for it. */
  lemma VerifiedIff<P>(codec: Codec<P>, value: string, payload: P)
    ensures VerifyState(codec, value) == Ok(payload)
            <==> 20 <= |value| <= 4000 && exists encoded, signature :: IsSigned(codec, value, encoded, signature, payload)
  {
    if VerifyState(codec, value) == Ok(payload) {
      var parts := Split(value, '.');
      JoinSplit(value, '.');
      assert parts == [parts[0], parts[1]] && value == parts[0] + ['.'] + parts[1];
      TwoPartsVerifyIff(codec, parts[0], parts[1], payload);
      assert IsSigned(codec, value, parts[0], parts[1], payload);
    }
    forall encoded, signature | IsSigned(codec, value, encoded, signature, payload)
      ensures VerifyState(codec, value) == Ok(payload) <==> 20 <= |value| <= 4000
    {
      TwoPartsVerifyIff(codec, encoded, signature, payload);
    }
  }

  // ---- the decoder on other texts ----

  /** Characters the decoder does not know. */
  predicate IsForeign(s: string) {
    forall k | 0 <= k < |s| :: s[k] != '=' && ValueOf(s[k]) == None
  }

  /** The bits that stay behind when a character is read at a position of its group. */
  function Carried(quad: nat, v: Sextet): nat {
    if quad == 0 then v else if quad == 1 then v % 16 else if quad == 2 then v % 4 else 0
  }

  lemma CarriedFits(quad: nat, v: Sextet)
    requires quad < 4
    ensures var next, left := (quad + 1) % 4, Carried(quad, v);
            next < 4 && (next == 1 ==> left < 64) && (next == 2 ==> left < 16) && (next == 3 ==> left < 4)
  {
  }

  lemma {:induction false} ForeignIsSkipped(a: string, f: string, b: string, quad: nat, left: nat, pads: nat)
    requires quad < 4 && (quad == 1 ==> left < 64) && (quad == 2 ==> left < 16) && (quad == 3 ==> left < 4)
    requires IsForeign(f)
    ensures DecodeFrom(a + f + b, quad, left, pads) == DecodeFrom(a + b, quad, left, pads)
    decreases |a| + |f|
  {
    if a != "" {
      ForeignBehindFirst(a, f, b, quad, left, pads);
    } else if f == "" {
      assert a + f + b == a + b;
    } else {
      assert (a + f + b)[0] == f[0] && (a + f + b)[1..] == a + f[1..] + b;
      ForeignIsSkipped(a, f[1..], b, quad, left, pads);
    }
  }

  lemma {:induction false} ForeignBehindFirst(a: string, f: string, b: string, quad: nat, left: nat, pads: nat)
    requires quad < 4 && (quad == 1 ==> left < 64) && (quad == 2 ==> left < 16) && (quad == 3 ==> left < 4)
    requires IsForeign(f) && a != ""
    ensures DecodeFrom(a + f + b, quad, left, pads) == DecodeFrom(a + b, quad, left, pads)
    decreases |a| + |f|, 0
  {
    var t := a[1..];
    assert (a + f + b)[0] == a[0] == (a + b)[0] && (a + f + b)[1..] == t + f + b && (a + b)[1..] == t + b;
    if a[0] == '=' {
      ForeignIsSkipped(t, f, b, quad, left, if quad >= 2 then pads + 1 else pads);
    } else if ValueOf(a[0]) == None {
      ForeignIsSkipped(t, f, b, quad, left, pads);
    } else {
      var v := ValueOf(a[0]).value;
      ForeignIsSkipped(t, f, b, (quad + 1) % 4, Carried(quad, v), 0);
    }
  }

  /** A multiple of four unknown characters anywhere changes nothing in what a text decodes to. */
  lemma UnknownCharactersDoNotMatter(a: string, f: string, b: string)
    requires IsForeign(f) && |f| % 4 == 0
    ensures DecodeUnpadded(a + f + b) == DecodeUnpadded(a + b)
  {
    var padding := Equals(MissingPadding(|a + b|));
    assert MissingPadding(|a + f + b|) == MissingPadding(|a + b|);
    ForeignIsSkipped(a, f, b + padding, 0, 0, 0);
    assert a + f + b + padding == a + f + (b + padding) && a + b + padding == a + (b + padding);
  }

  predicate IsAlphabet(s: string) {
    forall k | 0 <= k < |s| :: ValueOf(s[k]).Some?
  }

  /** What reading one known character does. */
  lemma DecodeKnown(s: string, quad: nat, left: nat, pads: nat)
    requires quad < 4 && (quad == 1 ==> left < 64) && (quad == 2 ==> left < 16) && (quad == 3 ==> left < 4)
    requires s != "" && ValueOf(s[0]).Some?
    ensures var v := ValueOf(s[0]).value;
            var rest := DecodeFrom(s[1..], (quad + 1) % 4, Carried(quad, v), 0);
            var r := DecodeFrom(s, quad, left, pads);
            && (r.Some? <==> rest.Some?)
            && (r.Some? ==> |r.value| == |rest.value| + if quad == 0 then 0 else 1)
  {
    assert s[0] != '=';
  }

  /** The number of bytes that `n` characters add from the given position on. */
  function ByteCount(quad: nat, n: nat): int {
    3 * (quad + n) / 4 - 3 * quad / 4
  }

  lemma CountNext(quad: nat, n: nat)
    requires quad < 4 && n > 0
    ensures ByteCount(quad, n) == ByteCount((quad + 1) % 4, n - 1) + if quad == 0 then 0 else 1
    ensures (quad + n) % 4 == ((quad + 1) % 4 + (n - 1)) % 4
  {
  }

  lemma MissingPaddingNext(quad: nat, n: nat)
    requires quad < 4 && n > 0
    ensures MissingPadding((quad + 1) % 4 + (n - 1)) == MissingPadding(quad + n)
  {
  }

  lemma DecodedPadding(n: nat, quad: nat, left: nat)
    requires quad < 4 && (quad == 1 ==> left < 64) && (quad == 2 ==> left < 16) && (quad == 3 ==> left < 4)
    requires n == MissingPadding(quad)
    ensures DecodeFrom(Equals(n), quad, left, 0) == if quad == 1 then None else Some([])
  {
    assert Equals(1) == "=" && Equals(2) == "==" && Equals(3) == "===";
    assert "=="[1..] == "=" && "==="[1..] == "==" && "="[1..] == "";
  }

  /** How many bytes a decoding yields, if it succeeds. */
  lemma {:induction false} DecodedLength(s: string, n: nat, quad: nat, left: nat)
    requires quad < 4 && (quad == 1 ==> left < 64) && (quad == 2 ==> left < 16) && (quad == 3 ==> left < 4)
    requires IsAlphabet(s) && n == MissingPadding(quad + |s|)
    ensures var r := DecodeFrom(s + Equals(n), quad, left, 0);
            && (r.Some? <==> (quad + |s|) % 4 != 1)
            && (r.Some? ==> |r.value| == ByteCount(quad, |s|))
    decreases |s|
  {
    if s == "" {
      assert s + Equals(n) == Equals(n);
      DecodedPadding(n, quad, left);
    } else {
      var t := s + Equals(n);
      assert t[0] == s[0] && t[1..] == s[1..] + Equals(n);
      var v := ValueOf(s[0]).value;
      DecodeKnown(t, quad, left, 0);
      MissingPaddingNext(quad, |s|);
      CountNext(quad, |s|);
      CarriedFits(quad, v);
      DecodedLength(s[1..], n, (quad + 1) % 4, Carried(quad, v));
    }
  }

  /** A text over the alphabet decodes exactly if its length is not one over a multiple of four, to three bytes for four characters. */
  lemma DecodableIff(s: string)
    requires IsAlphabet(s)
    ensures DecodeUnpadded(s).Some? <==> |s| % 4 != 1
    ensures DecodeUnpadded(s).Some? ==> |DecodeUnpadded(s).value| == 3 * |s| / 4
  {
    DecodedLength(s, MissingPadding(|s|), 0, 0);
  }
}
