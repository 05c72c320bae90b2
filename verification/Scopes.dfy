/**
  The scope checks of the credential broker and the provider's token response.  `fold` is `str.casefold`;
  nothing here depends on which function it is.
 */
module Scopes {
  import opened Wrappers
  import opened Text

  datatype Provider = Gmail | MicrosoftGraph

  const GMAIL_READ := "https://www.googleapis.com/auth/gmail.readonly"
  const GRAPH_READ := "mail.read"
  const OFFLINE := "offline_access"
  const MAX_TOKEN_CHARS := 32_768

  function Required(fold: string -> string, provider: Provider): set<string> {
    match provider
    case Gmail => {fold(GMAIL_READ)}
    case MicrosoftGraph => {GRAPH_READ, OFFLINE}
  }

  function WriteMarkers(provider: Provider): seq<string> {
    match provider
    case Gmail => [
      "https://www.googleapis.com/auth/gmail.modify",
      "https://www.googleapis.com/auth/gmail.compose",
      "https://www.googleapis.com/auth/gmail.send",
      "https://www.googleapis.com/auth/gmail.insert",
      "https://www.googleapis.com/auth/gmail.settings."]
    case MicrosoftGraph => ["mail.send", "mail.readwrite", "mail.manage", "mail.fullaccessasuser"]
  }

  predicate IsWrite(provider: Provider, folded: string) {
    exists m | m in WriteMarkers(provider) :: folded == m || StartsWith(folded, m)
  }

  predicate BoundedText(value: string, maximum: nat) {
    1 <= |value| <= maximum && value == Strip(value) && !HasControl(value)
  }

  function Folded(fold: string -> string, scopes: seq<string>): set<string> {
    set s | s in scopes :: fold(s)
  }

  datatype ScopeError = CountInvalid | TextInvalid | ReadScopeMissing | WriteScopeForbidden

  /** What a scope list must satisfy: bounded, with the provider's read scopes and without any write scope. */
  ghost predicate ReadOnly(fold: string -> string, provider: Provider, scopes: seq<string>) {
    && 1 <= |scopes| <= 40
    && (forall s | s in scopes :: BoundedText(s, 200))
    && Required(fold, provider) <= Folded(fold, scopes)
    && (forall s | s in scopes :: !IsWrite(provider, fold(s)))
  }

  /** The first check that fails, in the order of the code. */
  function ScopeErrorOf(fold: string -> string, provider: Provider, scopes: seq<string>): (e: Option<ScopeError>)
    ensures e == None <==> ReadOnly(fold, provider, scopes)
  {
    if scopes == [] || |scopes| > 40 then Some(CountInvalid)
    else if exists s | s in scopes :: !BoundedText(s, 200) then Some(TextInvalid)
    else if !(Required(fold, provider) <= Folded(fold, scopes)) then Some(ReadScopeMissing)
    else if exists s | s in scopes :: IsWrite(provider, fold(s)) then Some(WriteScopeForbidden)
    else None
  }

  /** The first loop: the distinct folded scopes, unless one is not acceptable text. */
  method FoldScopes(fold: string -> string, scopes: seq<string>) returns (normalized: Option<seq<string>>)
    ensures normalized == None <==> exists s | s in scopes :: !BoundedText(s, 200)
    ensures normalized.Some? ==> forall v :: v in normalized.value <==> v in Folded(fold, scopes)
  {
    var values: seq<string> := [];
    for i := 0 to |scopes|
      invariant forall j | 0 <= j < i :: BoundedText(scopes[j], 200)
      invariant forall v :: v in values <==> v in Folded(fold, scopes[..i])
    {
      if !BoundedText(scopes[i], 200) {
        return None;
      }
      var value := fold(scopes[i]);
      assert scopes[..i + 1] == scopes[..i] + [scopes[i]];
      if value !in values {
        values := values + [value];
      }
    }
    assert scopes[..|scopes|] == scopes;
    normalized := Some(values);
  }

  /** The second loop: whether a folded scope is a write scope. */
  method AnyWrite(provider: Provider, normalized: seq<string>) returns (found: bool)
    ensures found <==> exists v | v in normalized :: IsWrite(provider, v)
  {
    for i := 0 to |normalized|
      invariant forall j | 0 <= j < i :: !IsWrite(provider, normalized[j])
    {
      if IsWrite(provider, normalized[i]) {
        return true;
      }
    }
    found := false;
  }

  method ValidateScopes(fold: string -> string, provider: Provider, scopes: seq<string>) returns (error: Option<ScopeError>)
    ensures error == ScopeErrorOf(fold, provider, scopes)
  {
    if scopes == [] || |scopes| > 40 {
      return Some(CountInvalid);
    }
    var normalized := FoldScopes(fold, scopes);
    if normalized.None? {
      return Some(TextInvalid);
    }
    if !(forall r | r in Required(fold, provider) :: r in normalized.value) {
      return Some(ReadScopeMissing);
    }
    var found := AnyWrite(provider, normalized.value);
    assert forall v :: v in normalized.value <==> exists s :: s in scopes && fold(s) == v;
    error := if found then Some(WriteScopeForbidden) else None;
  }

  /** `_same_scopes`; an invalid list on either side raises. */
  function SameScopes(fold: string -> string, provider: Provider, requested: seq<string>, registered: seq<string>): Result<bool, ScopeError> {
    var first, second := ScopeErrorOf(fold, provider, requested), ScopeErrorOf(fold, provider, registered);
    if first.Some? then Err(first.value)
    else if second.Some? then Err(second.value)
    else Ok(Folded(fold, requested) == Folded(fold, registered))
  }

  // ---- the token response ----

  /** A value of the provider's JSON answer; `Other` is anything but text and numbers. */
  datatype Field = Absent | Text(text: string) | Number(number: real) | Other(truthy: bool)

  datatype TokenReply = TokenReply(accessToken: Field, refreshToken: Field, tokenType: Field, expiresIn: Field, scope: Field)

  datatype TokenError =
    | AccessTokenMissing | AccessTokenInvalid | TokenTypeInvalid | ExpiryInvalid
    | RefreshTokenMissing | RefreshTokenInvalid | GrantedScopesMissing | ScopesRejected(error: ScopeError)

  datatype TokenGrant = TokenGrant(access: string, refresh: string, seconds: int, scopes: seq<string>)

  predicate Truthy(f: Field) {
    match f
    case Absent => false
    case Text(t) => t != ""
    case Number(n) => n != 0.0
    case Other(truthy) => truthy
  }

  /** `int(x)` of a number truncates toward zero. */
  function Truncated(x: real): int {
    if x >= 0.0 then x.Floor else -((-x).Floor)
  }

  predicate BoundedToken(value: string) {
    1 <= |value| <= MAX_TOKEN_CHARS && forall c | c in value :: c >= '\U{0021}' && c != '\U{007F}'
  }

  /** The requested scopes that pass `keep`, in order. */
  function Kept(requested: seq<string>, keep: string -> bool): seq<string> {
    if requested == [] then [] else
      Kept(requested[..|requested| - 1], keep) + if keep(requested[|requested| - 1]) then [requested[|requested| - 1]] else []
  }

  /** The first requested scope with the given folded form. */
  function FirstWith(fold: string -> string, requested: seq<string>, value: string): (s: string)
    requires value in Folded(fold, requested)
    ensures s in requested && fold(s) == value
  {
    if fold(requested[0]) == value then requested[0] else FirstWith(fold, requested[1..], value)
  }

  /** `dict.fromkeys`: first occurrences only, in order. */
  function Distinct(xs: seq<string>): seq<string> {
    if xs == [] then [] else
      var init := Distinct(xs[..|xs| - 1]);
      if xs[|xs| - 1] in init then init else init + [xs[|xs| - 1]]
  }

  /** What is granted of the requested scopes when the answer lists `returned`. */
  function Granted(fold: string -> string, provider: Provider, requested: seq<string>, returned: set<string>): seq<string> {
    var granted := Kept(requested, s => fold(s) in returned);
    if provider == MicrosoftGraph && OFFLINE in Folded(fold, requested) && OFFLINE !in Folded(fold, granted)
    then granted + [FirstWith(fold, requested, OFFLINE)]
    else granted
  }

  function ValidateTokenResponse(fold: string -> string, provider: Provider, reply: TokenReply, requested: seq<string>,
                                 existingRefresh: Option<string>): Result<TokenGrant, TokenError>
  {
    if !reply.accessToken.Text? then Err(AccessTokenMissing)
    else if !BoundedToken(reply.accessToken.text) then Err(AccessTokenInvalid)
    else if !reply.tokenType.Text? || fold(reply.tokenType.text) != "bearer" then Err(TokenTypeInvalid)
    else if !reply.expiresIn.Number? || !(60 <= Truncated(reply.expiresIn.number) <= 86_400) then Err(ExpiryInvalid)
    else
      var refresh :=
        if Truthy(reply.refreshToken) then (if reply.refreshToken.Text? then Some(reply.refreshToken.text) else None)
        else existingRefresh;
      if refresh.None? || refresh.value == "" then Err(RefreshTokenMissing)
      else if !BoundedToken(refresh.value) then Err(RefreshTokenInvalid)
      else if !reply.scope.Text? || Strip(reply.scope.text) == "" then Err(GrantedScopesMissing)
      else
        var granted := Granted(fold, provider, requested, Folded(fold, Words(reply.scope.text)));
        var error := ScopeErrorOf(fold, provider, granted);
        if error.Some? then Err(ScopesRejected(error.value))
        else Ok(TokenGrant(reply.accessToken.text, refresh.value, Truncated(reply.expiresIn.number), Distinct(granted)))
  }

  lemma {:induction false} KeptMembers(requested: seq<string>, keep: string -> bool)
    ensures forall s :: s in Kept(requested, keep) <==> s in requested && keep(s)
  {
    if requested == [] {
    } else {
      KeptMembers(requested[..|requested| - 1], keep);
      assert requested == requested[..|requested| - 1] + [requested[|requested| - 1]];
    }
  }

  lemma {:induction false} DistinctMembers(xs: seq<string>)
    ensures forall s :: s in Distinct(xs) <==> s in xs
    ensures |Distinct(xs)| <= |xs| && (xs != [] ==> Distinct(xs) != [])
    ensures forall i, j | 0 <= i < j < |Distinct(xs)| :: Distinct(xs)[i] != Distinct(xs)[j]
  {
    if xs == [] {
    } else {
      DistinctMembers(xs[..|xs| - 1]);
      assert xs == xs[..|xs| - 1] + [xs[|xs| - 1]];
    }
  }

  /**
    Whatever a provider answers, an accepted grant is a duplicate-free selection from the requested scopes
    that is read-only for the provider, and a requested scope is in it exactly when the answer lists it;
    only the offline scope may also be there unlisted.
   */
  lemma GrantIsReadOnlySelection(fold: string -> string, provider: Provider, reply: TokenReply, requested: seq<string>, existingRefresh: Option<string>)
    requires ValidateTokenResponse(fold, provider, reply, requested, existingRefresh).Ok?
    ensures var grant := ValidateTokenResponse(fold, provider, reply, requested, existingRefresh).value;
            && ReadOnly(fold, provider, grant.scopes)
            && (forall s | s in grant.scopes :: s in requested)
            && Folded(fold, grant.scopes) <= Folded(fold, requested)
            && (forall s | fold(s) != OFFLINE ::
                  s in grant.scopes <==> s in requested && fold(s) in Folded(fold, Words(reply.scope.text)))
            && (forall i, j | 0 <= i < j < |grant.scopes| :: grant.scopes[i] != grant.scopes[j])
            && BoundedToken(grant.refresh)
  {
    var returned := Folded(fold, Words(reply.scope.text));
    var granted := Granted(fold, provider, requested, returned);
    KeptMembers(requested, s => fold(s) in returned);
    DistinctMembers(granted);
    assert Folded(fold, Distinct(granted)) == Folded(fold, granted);
  }

  // ---- exactly which replies are accepted ----

  /** Two lists are the same scopes exactly when both are read-only and fold to the same set. */
  lemma SameScopesIff(fold: string -> string, provider: Provider, requested: seq<string>, registered: seq<string>)
    ensures SameScopes(fold, provider, requested, registered) == Ok(true)
            <==> && ReadOnly(fold, provider, requested) && ReadOnly(fold, provider, registered)
                 && (forall s | s in requested :: exists t :: t in registered && fold(t) == fold(s))
                 && (forall t | t in registered :: exists s :: s in requested && fold(s) == fold(t))
  {
    var a, b := Folded(fold, requested), Folded(fold, registered);
    if a == b {
      assert forall s | s in requested :: fold(s) in b;
      assert forall t | t in registered :: fold(t) in a;
    }
  }

  /** The answer lists a scope as one of its words, up to case. */
  ghost predicate Lists(fold: string -> string, text: string, value: string) {
    exists w, i: nat :: IsWordAt(w, text, i) && fold(w) == value
  }

  lemma ListsIff(fold: string -> string, text: string, value: string)
    ensures Lists(fold, text, value) <==> value in Folded(fold, Words(text))
  {
    if w, i: nat :| IsWordAt(w, text, i) && fold(w) == value {
      WordsAre(text, w);
    }
    if value in Folded(fold, Words(text)) {
      var w :| w in Words(text) && fold(w) == value;
      WordsAre(text, w);
    }
  }

  /** Of the requested scopes exactly the returned ones are granted, and on Graph the offline scope in any case. */
  lemma GrantedScopes(fold: string -> string, provider: Provider, requested: seq<string>, returned: set<string>, value: string)
    ensures value in Folded(fold, Granted(fold, provider, requested, returned))
            <==> value in Folded(fold, requested) && (value in returned || (provider == MicrosoftGraph && value == OFFLINE))
  {
    var kept := Kept(requested, s => fold(s) in returned);
    KeptMembers(requested, s => fold(s) in returned);
    assert value in Folded(fold, kept) <==> value in Folded(fold, requested) && value in returned;
    if provider == MicrosoftGraph && OFFLINE in Folded(fold, requested) && OFFLINE !in Folded(fold, kept) {
      var offline := FirstWith(fold, requested, OFFLINE);
      assert Folded(fold, kept + [offline]) == Folded(fold, kept) + {OFFLINE};
    }
  }

  lemma {:induction false} KeptCount(requested: seq<string>, keep: string -> bool)
    ensures |Kept(requested, keep)| <= |requested|
    ensures (exists s :: s in requested && !keep(s)) ==> |Kept(requested, keep)| < |requested|
  {
    if requested == [] {
    } else {
      var init := requested[..|requested| - 1];
      KeptCount(init, keep);
      assert requested == init + [requested[|requested| - 1]];
    }
  }

  lemma GrantedCount(fold: string -> string, provider: Provider, requested: seq<string>, returned: set<string>)
    ensures |Granted(fold, provider, requested, returned)| <= |requested|
    ensures forall s | s in Granted(fold, provider, requested, returned) :: s in requested
  {
    var keep := s => fold(s) in returned;
    KeptCount(requested, keep);
    KeptMembers(requested, keep);
    if provider == MicrosoftGraph && OFFLINE in Folded(fold, requested) && OFFLINE !in Folded(fold, Kept(requested, keep)) {
      var offline := FirstWith(fold, requested, OFFLINE);
      assert !keep(offline) by {
        assert keep(offline) ==> offline in Kept(requested, keep) && fold(offline) in Folded(fold, Kept(requested, keep));
      }
    }
  }

  /** The scope without which a grant is worthless. */
  function ReadScope(fold: string -> string, provider: Provider): string {
    if provider == Gmail then fold(GMAIL_READ) else GRAPH_READ
  }

  lemma OfflineIsNotRead()
    ensures GRAPH_READ != OFFLINE
  {
    assert |GRAPH_READ| == 9 && |OFFLINE| == 14;
  }

  /** Of a read-only request a read-only selection is granted exactly when the read scope is returned. */
  lemma SelectionIsReadOnlyIff(fold: string -> string, provider: Provider, requested: seq<string>, returned: set<string>)
    requires ReadOnly(fold, provider, requested)
    ensures ReadOnly(fold, provider, Granted(fold, provider, requested, returned)) <==> ReadScope(fold, provider) in returned
  {
    OfflineIsNotRead();
    var granted := Granted(fold, provider, requested, returned);
    GrantedCount(fold, provider, requested, returned);
    GrantedScopes(fold, provider, requested, returned, ReadScope(fold, provider));
    GrantedScopes(fold, provider, requested, returned, OFFLINE);
    assert ReadScope(fold, provider) in Folded(fold, granted) ==> granted != [];
  }

  /** The refresh token that counts: a text in the answer, or the one at hand when the answer has nothing. */
  function RefreshOf(reply: TokenReply, existing: Option<string>): Option<string> {
    match reply.refreshToken
    case Text(t) => if t != "" then Some(t) else existing
    case Absent => existing
    case Number(n) => if n == 0.0 then existing else None
    case Other(truthy) => if truthy then None else existing
  }

  lemma TruncatedRange(x: real)
    ensures 60 <= Truncated(x) <= 86_400 <==> 60.0 <= x < 86_401.0
  {
  }

  lemma NoWordInSpace(text: string, w: string, i: nat)
    ensures IsWordAt(w, text, i) ==> !AllSpace(text)
  {
    if IsWordAt(w, text, i) {
      assert w[0] == text[i] && text[i] in text;
    }
  }

  lemma BlankListsNothing(fold: string -> string, text: string, value: string)
    ensures Strip(text) == "" ==> !Lists(fold, text, value)
  {
    var front, back := StripIs(text);
    if Strip(text) == "" {
      assert text == front + back && AllSpace(text);
      forall w, i: nat
        ensures !IsWordAt(w, text, i)
      {
        NoWordInSpace(text, w, i);
      }
    }
  }

  /** Which folded scopes an accepted answer grants. */
  lemma GrantValues(fold: string -> string, provider: Provider, requested: seq<string>, text: string)
    ensures forall v :: v in Folded(fold, Distinct(Granted(fold, provider, requested, Folded(fold, Words(text)))))
              <==> v in Folded(fold, requested) && (Lists(fold, text, v) || (provider == MicrosoftGraph && v == OFFLINE))
  {
    var granted := Granted(fold, provider, requested, Folded(fold, Words(text)));
    DistinctMembers(granted);
    assert Folded(fold, Distinct(granted)) == Folded(fold, granted);
    forall v
      ensures v in Folded(fold, granted)
              <==> v in Folded(fold, requested) && (Lists(fold, text, v) || (provider == MicrosoftGraph && v == OFFLINE))
    {
      GrantedScopes(fold, provider, requested, Folded(fold, Words(text)), v);
      ListsIff(fold, text, v);
    }
  }

  /** The scope line of an answer passes exactly when it lists the read scope. */
  lemma ScopeLineIff(fold: string -> string, provider: Provider, requested: seq<string>, text: string)
    requires ReadOnly(fold, provider, requested)
    ensures Strip(text) != "" && ScopeErrorOf(fold, provider, Granted(fold, provider, requested, Folded(fold, Words(text)))) == None
            <==> Lists(fold, text, ReadScope(fold, provider))
  {
    SelectionIsReadOnlyIff(fold, provider, requested, Folded(fold, Words(text)));
    ListsIff(fold, text, ReadScope(fold, provider));
    BlankListsNothing(fold, text, ReadScope(fold, provider));
  }

  /** The refresh token the code ends up with is that one, with the empty text for none. */
  lemma RefreshIs(reply: TokenReply, existing: Option<string>)
    ensures var refresh :=
              if Truthy(reply.refreshToken) then (if reply.refreshToken.Text? then Some(reply.refreshToken.text) else None) else existing;
            refresh == RefreshOf(reply, existing)
  {
  }

  /** One to 32768 characters, none of them a control character or a blank. */
  predicate IsToken(value: string) {
    1 <= |value| <= 32_768 && forall c | c in value :: !IsControl(c) && c != ' '
  }

  lemma TokenIff(value: string)
    ensures BoundedToken(value) <==> IsToken(value)
  {
  }

  /** The answer is acceptable but for its scope line: tokens and lifetime within bounds, a bearer token, some refresh token. */
  predicate TokensPass(fold: string -> string, reply: TokenReply, existing: Option<string>) {
    && reply.accessToken.Text? && IsToken(reply.accessToken.text)
    && reply.tokenType.Text? && fold(reply.tokenType.text) == "bearer"
    && reply.expiresIn.Number? && 60.0 <= reply.expiresIn.number < 86_401.0
    && RefreshOf(reply, existing).Some? && IsToken(RefreshOf(reply, existing).value)
  }

  lemma TokensMustPass(fold: string -> string, provider: Provider, reply: TokenReply, requested: seq<string>, existing: Option<string>)
    ensures ValidateTokenResponse(fold, provider, reply, requested, existing).Ok? ==> TokensPass(fold, reply, existing)
  {
    RefreshIs(reply, existing);
    if reply.accessToken.Text? {
      TokenIff(reply.accessToken.text);
    }
    if RefreshOf(reply, existing).Some? {
      TokenIff(RefreshOf(reply, existing).value);
    }
    if reply.expiresIn.Number? {
      TruncatedRange(reply.expiresIn.number);
    }
  }

  lemma ThenScopesDecide(fold: string -> string, provider: Provider, reply: TokenReply, requested: seq<string>, existing: Option<string>)
    requires TokensPass(fold, reply, existing)
    ensures var result := ValidateTokenResponse(fold, provider, reply, requested, existing);
            && (result.Ok? <==>
                  && reply.scope.Text? && Strip(reply.scope.text) != ""
                  && ScopeErrorOf(fold, provider, Granted(fold, provider, requested, Folded(fold, Words(reply.scope.text)))) == None)
            && (result.Ok? ==>
                  result.value
                  == TokenGrant(reply.accessToken.text, RefreshOf(reply, existing).value, Truncated(reply.expiresIn.number),
                                 Distinct(Granted(fold, provider, requested, Folded(fold, Words(reply.scope.text))))))
  {
    TokenIff(reply.accessToken.text);
    TokenIff(RefreshOf(reply, existing).value);
    RefreshIs(reply, existing);
    TruncatedRange(reply.expiresIn.number);
  }

  /**
    Exactly which answers to a read-only request are accepted, and as what: the tokens pass and the read scope is listed.
    The offline scope need not be listed on Graph.
   */
  lemma ReplyAcceptedIff(fold: string -> string, provider: Provider, reply: TokenReply, requested: seq<string>, existing: Option<string>)
    requires ReadOnly(fold, provider, requested)
    ensures var result := ValidateTokenResponse(fold, provider, reply, requested, existing);
            && (result.Ok? <==>
                  TokensPass(fold, reply, existing) && reply.scope.Text? && Lists(fold, reply.scope.text, ReadScope(fold, provider)))
            && (result.Ok? ==>
                  && result.value.access == reply.accessToken.text && Some(result.value.refresh) == RefreshOf(reply, existing)
                  && result.value.seconds as real <= reply.expiresIn.number < result.value.seconds as real + 1.0
                  && forall v :: v in Folded(fold, result.value.scopes)
                       <==> v in Folded(fold, requested) && (Lists(fold, reply.scope.text, v) || (provider == MicrosoftGraph && v == OFFLINE)))
  {
    TokensMustPass(fold, provider, reply, requested, existing);
    if TokensPass(fold, reply, existing) {
      ThenScopesDecide(fold, provider, reply, requested, existing);
      if reply.scope.Text? {
        ScopeLineIff(fold, provider, requested, reply.scope.text);
        GrantValues(fold, provider, requested, reply.scope.text);
      }
    }
  }
}
