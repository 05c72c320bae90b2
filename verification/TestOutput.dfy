/** The test-output file of a provider activation run: its printer and the validator that parses it back. */
module TestOutput {
  import opened Sets
  import opened Text
  import opened Wrappers

  datatype Key =
    | SchemaVersion | Provider | Environment | RunId | NetworkAccess | Status | CredentialsObserved | ExitCode | ErrorCode

  function KeyText(k: Key): string {
    match k
    case SchemaVersion => "schema_version"
    case Provider => "provider"
    case Environment => "environment"
    case RunId => "run_id"
    case NetworkAccess => "network_access"
    case Status => "status"
    case CredentialsObserved => "credentials_observed"
    case ExitCode => "exit_code"
    case ErrorCode => "error_code"
  }

  function KeyOf(s: string): Option<Key> {
    if s == "schema_version" then Some(SchemaVersion)
    else if s == "provider" then Some(Provider)
    else if s == "environment" then Some(Environment)
    else if s == "run_id" then Some(RunId)
    else if s == "network_access" then Some(NetworkAccess)
    else if s == "status" then Some(Status)
    else if s == "credentials_observed" then Some(CredentialsObserved)
    else if s == "exit_code" then Some(ExitCode)
    else if s == "error_code" then Some(ErrorCode)
    else None
  }

  const SCHEMA := "mailhub.provider_activation_test_output.v1"

  /** The `_text` check of both scripts: the stripped value of a bounded text without control characters. */
  function Bounded(value: string, maximum: nat): Option<string> {
    if Strip(value) == "" || |value| > maximum || HasControl(value) then None else Some(Strip(value))
  }

  // ---- the printer ----

  /** The outcome of a run; only these two are ever written. */
  datatype Outcome = Succeeded | Failed

  datatype Report = Report(provider: string, environment: string, runId: string, outcome: Outcome, network: bool, error: Option<string>)

  function OutcomeText(o: Outcome): string {
    if o == Succeeded then "succeeded" else "failed"
  }

  function ExitText(o: Outcome): string {
    if o == Succeeded then "0" else "2"
  }

  function BoolText(b: bool): string {
    if b then "true" else "false"
  }

  type Field = (Key, string)

  function FieldLine(f: Field): string {
    KeyText(f.0) + "=" + f.1
  }

  /** The nine texts of a file. */
  datatype Texts = Texts(schema: string, provider: string, environment: string, runId: string, network: string, status: string,
                         credentials: string, exit: string, error: Option<string>)

  /** The fields in the order they are written. */
  function Listed(t: Texts): seq<Field> {
    [(SchemaVersion, t.schema), (Provider, t.provider), (Environment, t.environment), (RunId, t.runId), (NetworkAccess, t.network),
     (Status, t.status), (CredentialsObserved, t.credentials), (ExitCode, t.exit)]
    + if t.error.Some? then [(ErrorCode, t.error.value)] else []
  }

  /** What is written for a report. */
  function TextsOf(r: Report): Texts {
    Texts(SCHEMA, Strip(r.provider), Strip(r.environment), Strip(r.runId), BoolText(r.network), OutcomeText(r.outcome), "false",
          ExitText(r.outcome), if r.error.Some? then Some(Strip(r.error.value)) else None)
  }

  function FieldsOf(r: Report): seq<Field> {
    Listed(TextsOf(r))
  }

  function Lines(fields: seq<Field>): seq<string> {
    seq(|fields|, i requires 0 <= i < |fields| => FieldLine(fields[i]))
  }

  /** `"\n".join(lines) + "\n"`, for at least one line. */
  function Unlines(lines: seq<string>): string {
    if lines == [] then "" else lines[0] + "\n" + Unlines(lines[1..])
  }

  /** The first field the printer refuses. */
  function RefusedField(r: Report): Option<Key> {
    if Bounded(r.provider, 40).None? then Some(Provider)
    else if Bounded(r.environment, 100).None? then Some(Environment)
    else if Bounded(r.runId, 100).None? then Some(RunId)
    else if r.error.Some? && Bounded(r.error.value, 200).None? then Some(ErrorCode)
    else None
  }

  method WriteTestOutput(r: Report) returns (text: Result<string, Key>)
    ensures text == if RefusedField(r).Some? then Err(RefusedField(r).value) else Ok(Unlines(Lines(FieldsOf(r))))
  {
    var provider, environment, runId := Bounded(r.provider, 40), Bounded(r.environment, 100), Bounded(r.runId, 100);
    if provider.None? {
      return Err(Provider);
    }
    if environment.None? {
      return Err(Environment);
    }
    if runId.None? {
      return Err(RunId);
    }
    ghost var fields := FieldsOf(r)[..8];
    var lines := [
      FieldLine((SchemaVersion, SCHEMA)), FieldLine((Provider, provider.value)), FieldLine((Environment, environment.value)),
      FieldLine((RunId, runId.value)), FieldLine((NetworkAccess, BoolText(r.network))),
      FieldLine((Status, OutcomeText(r.outcome))), FieldLine((CredentialsObserved, "false")),
      FieldLine((ExitCode, ExitText(r.outcome)))];
    assert lines == Lines(fields);
    if r.error.Some? {
      var error := Bounded(r.error.value, 200);
      if error.None? {
        return Err(ErrorCode);
      }
      lines := lines + [FieldLine((ErrorCode, error.value))];
      assert FieldsOf(r)[..8] == fields && FieldsOf(r) == fields + [(ErrorCode, error.value)];
    } else {
      assert FieldsOf(r) == fields;
    }
    assert lines == Lines(FieldsOf(r));
    text := Ok(Unlines(lines));
  }

  lemma LinesOfSnoc(fields: seq<Field>)
    requires fields != []
    ensures Lines(fields) == Lines(fields[..|fields| - 1]) + [FieldLine(fields[|fields| - 1])]
  {
  }

  // ---- the validator ----

  /** Where `str.splitlines` breaks; a carriage return takes a following line feed with it. */
  predicate IsBreak(c: char) {
    || '\U{000A}' <= c <= '\U{000D}' || '\U{001C}' <= c <= '\U{001E}'
    || c == '\U{0085}' || c == '\U{2028}' || c == '\U{2029}'
  }

  function LinesFrom(line: string, s: string): seq<string>
    decreases |s|
  {
    if s == "" then (if line == "" then [] else [line])
    else if s[0] == '\r' && |s| > 1 && s[1] == '\n' then [line] + LinesFrom("", s[2..])
    else if IsBreak(s[0]) then [line] + LinesFrom("", s[1..])
    else LinesFrom(line + [s[0]], s[1..])
  }

  function SplitLines(s: string): seq<string> {
    LinesFrom("", s)
  }

  datatype Error =
    | LineInvalid | UnknownOrDuplicate | ValueInvalid(key: Key) | RequiredMissing | SchemaInvalid | ProviderMismatch
    | EnvironmentMismatch | RunIdMismatch | CredentialsWereObserved | NetworkInvalid | StatusInvalid | ExitCodeInvalid
    | SuccessExitInvalid | FailureExitInvalid | ErrorOnSuccess | RealRunRequired

  type Values = map<Key, string>

  /** One line's field, added to those before it. */
  function AddLine(values: Values, line: string): Result<Values, Error> {
    var i := IndexOf(line, '=');
    if Strip(line) == "" || i == |line| then Err(LineInvalid)
    else
      var key := KeyOf(line[..i]);
      if key.None? || key.value in values then Err(UnknownOrDuplicate)
      else
        var value := Bounded(line[i + 1..], 1000);
        if value.None? then Err(ValueInvalid(key.value)) else Ok(values[key.value := value.value])
  }

  function Parse(lines: seq<string>): Result<Values, Error> {
    if lines == [] then Ok(map[])
    else
      var before := Parse(lines[..|lines| - 1]);
      if before.Err? then before else AddLine(before.value, lines[|lines| - 1])
  }

  function RequiredKeys(): set<Key> {
    {SchemaVersion, Provider, Environment, RunId, NetworkAccess, Status, CredentialsObserved, ExitCode}
  }

  function CheckValues(values: Values, provider: string, environment: string, runId: string, requireReal: bool): Option<Error> {
    if values.Keys - {ErrorCode} != RequiredKeys() then Some(RequiredMissing)
    else
      assert forall k | k in RequiredKeys() :: k in values;
      if values[SchemaVersion] != SCHEMA then Some(SchemaInvalid)
      else if values[Provider] != provider then Some(ProviderMismatch)
      else if values[Environment] != environment then Some(EnvironmentMismatch)
      else if values[RunId] != runId then Some(RunIdMismatch)
      else if values[CredentialsObserved] != "false" then Some(CredentialsWereObserved)
      else if values[NetworkAccess] != "true" && values[NetworkAccess] != "false" then Some(NetworkInvalid)
      else if values[Status] != "succeeded" && values[Status] != "failed" then Some(StatusInvalid)
      else if values[ExitCode] != "0" && values[ExitCode] != "2" then Some(ExitCodeInvalid)
      else if values[Status] == "succeeded" && values[ExitCode] != "0" then Some(SuccessExitInvalid)
      else if values[Status] == "failed" && values[ExitCode] != "2" then Some(FailureExitInvalid)
      else if ErrorCode in values && values[Status] != "failed" then Some(ErrorOnSuccess)
      else if requireReal && (values[NetworkAccess] != "true" || values[Status] != "succeeded" || values[ExitCode] != "0") then
        Some(RealRunRequired)
      else None
  }

  function Validate(text: string, provider: string, environment: string, runId: string, requireReal: bool): Option<Error> {
    var values := Parse(SplitLines(text));
    if values.Err? then Some(values.error) else CheckValues(values.value, provider, environment, runId, requireReal)
  }

  lemma ParsePrefix(lines: seq<string>, i: nat)
    requires i < |lines| && Parse(lines[..i]).Ok?
    ensures Parse(lines[..i + 1]) == AddLine(Parse(lines[..i]).value, lines[i])
  {
    assert lines[..i + 1][..i] == lines[..i];
  }

  /** Parsing stops at the first line it refuses. */
  lemma {:induction false} ErrorSticks(lines: seq<string>, i: nat)
    requires i <= |lines| && Parse(lines[..i]).Err?
    ensures Parse(lines) == Parse(lines[..i])
  {
    if i == |lines| {
      assert lines[..i] == lines;
    } else {
      assert lines[..|lines| - 1][..i] == lines[..i];
      ErrorSticks(lines[..|lines| - 1], i);
    }
  }

  method ValidateTestOutput(text: string, provider: string, environment: string, runId: string, requireReal: bool)
    returns (error: Option<Error>)
    ensures error == Validate(text, provider, environment, runId, requireReal)
  {
    var values: Values := map[];
    var lines := SplitLines(text);
    for i := 0 to |lines|
      invariant Parse(lines[..i]) == Ok(values)
    {
      var line := lines[i];
      ParsePrefix(lines, i);
      var split := IndexOf(line, '=');
      if Strip(line) == "" || split == |line| {
        ErrorSticks(lines, i + 1);
        return Some(LineInvalid);
      }
      var key := KeyOf(line[..split]);
      if key.None? || key.value in values {
        ErrorSticks(lines, i + 1);
        return Some(UnknownOrDuplicate);
      }
      var value := Bounded(line[split + 1..], 1000);
      if value.None? {
        ErrorSticks(lines, i + 1);
        return Some(ValueInvalid(key.value));
      }
      values := values[key.value := value.value];
    }
    assert lines[..|lines|] == lines;
    error := CheckValues(values, provider, environment, runId, requireReal);
  }

  // ---- printing, then parsing ----

  predicate HasBreak(s: string) {
    exists c | c in s :: IsBreak(c)
  }

  lemma KeyOfText(k: Key)
    ensures KeyOf(KeyText(k)) == Some(k)
  {
    assert "schema_version"[0] == 's' && "network_access"[0] == 'n' && "run_id"[0] == 'r' && "status"[0] == 's';
  }

  lemma KeyHasNoSeparator(k: Key)
    ensures '=' !in KeyText(k)
  {
  }

  lemma KeyHasNoBreak(k: Key)
    ensures !HasBreak(KeyText(k))
  {
  }

  /** A field that the reader takes as it is. */
  predicate ReadsBack(value: string) {
    Bounded(value, 1000) == Some(value)
  }

  lemma FieldReadsBack(values: Values, f: Field)
    requires ReadsBack(f.1) && f.0 !in values
    ensures AddLine(values, FieldLine(f)) == Ok(values[f.0 := f.1])
  {
    var line := FieldLine(f);
    KeyOfText(f.0);
    KeyHasNoSeparator(f.0);
    SplitAtFirst(KeyText(f.0), '=', f.1);
    assert line == KeyText(f.0) + ['='] + f.1;
    assert line[|KeyText(f.0)|] == '=';
    StripKeeps(line, '=');
  }

  function MapOf(fields: seq<Field>): Values {
    if fields == [] then map[] else MapOf(fields[..|fields| - 1])[fields[|fields| - 1].0 := fields[|fields| - 1].1]
  }

  predicate DistinctKeys(fields: seq<Field>) {
    forall i, j | 0 <= i < j < |fields| :: fields[i].0 != fields[j].0
  }

  lemma {:induction false} MapOfMeaning(fields: seq<Field>)
    requires DistinctKeys(fields)
    ensures forall k :: k in MapOf(fields) <==> exists i :: 0 <= i < |fields| && fields[i].0 == k
    ensures forall i | 0 <= i < |fields| :: MapOf(fields)[fields[i].0] == fields[i].1
  {
    if fields == [] {
    } else {
      MapOfMeaning(fields[..|fields| - 1]);
    }
  }

  lemma ParseOfSnoc(lines: seq<string>, line: string)
    requires Parse(lines).Ok?
    ensures Parse(lines + [line]) == AddLine(Parse(lines).value, line)
  {
    assert (lines + [line])[..|lines|] == lines;
  }

  /** Any list of fields under distinct keys is parsed back to exactly those fields. */
  lemma {:induction false} FieldsParseBack(fields: seq<Field>)
    requires DistinctKeys(fields) && forall f | f in fields :: ReadsBack(f.1)
    ensures Parse(Lines(fields)) == Ok(MapOf(fields))
  {
    if fields == [] {
    } else {
      var n := |fields| - 1;
      FieldsParseBack(fields[..n]);
      MapOfMeaning(fields[..n]);
      FieldReadsBack(MapOf(fields[..n]), fields[n]);
      LinesOfSnoc(fields);
      ParseOfSnoc(Lines(fields[..n]), FieldLine(fields[n]));
    }
  }

  lemma {:induction false} LineEnds(line: string, rest: string, s: string)
    requires !HasBreak(rest)
    ensures LinesFrom(line, rest + "\n" + s) == [line + rest] + SplitLines(s)
    decreases |rest|
  {
    var t := rest + "\n" + s;
    if rest == "" {
      assert t[0] == '\n' && t[1..] == s && line + rest == line;
    } else {
      assert t[0] == rest[0] && t[1..] == rest[1..] + "\n" + s && rest[0] in rest;
      assert IsBreak('\r');
      LineEnds(line + [rest[0]], rest[1..], s);
      assert line + [rest[0]] + rest[1..] == line + rest;
    }
  }

  /** Lines without breaks come back from the text they were joined to. */
  lemma {:induction false} UnlinesSplits(lines: seq<string>)
    requires forall line | line in lines :: !HasBreak(line)
    ensures SplitLines(Unlines(lines)) == lines
  {
    if lines == [] {
    } else {
      LineEnds("", lines[0], Unlines(lines[1..]));
      UnlinesSplits(lines[1..]);
      assert "" + lines[0] == lines[0];
    }
  }

  // ---- what is printed, read and accepted, exactly ----

  /** Some visible character, no control character, and at most so many characters with the white space around it. */
  predicate Usable(value: string, maximum: nat) {
    !AllSpace(value) && |value| <= maximum && forall c | c in value :: '\U{0020}' <= c && c != '\U{007F}'
  }

  lemma BoundedIff(value: string, maximum: nat)
    ensures Bounded(value, maximum) == if Usable(value, maximum) then Some(Strip(value)) else None
  {
    BlankIff(value);
  }

  /** The printer looks at the texts in order, each with its own limit. */
  lemma RefusedIff(r: Report)
    ensures var p, e, i := Usable(r.provider, 40), Usable(r.environment, 100), Usable(r.runId, 100);
            var error := r.error.Some? ==> Usable(r.error.value, 200);
            && (RefusedField(r) == None <==> p && e && i && error)
            && (RefusedField(r) == Some(Provider) <==> !p)
            && (RefusedField(r) == Some(Environment) <==> p && !e)
            && (RefusedField(r) == Some(RunId) <==> p && e && !i)
            && (RefusedField(r) == Some(ErrorCode) <==> p && e && i && !error)
  {
    BoundedIff(r.provider, 40);
    BoundedIff(r.environment, 100);
    BoundedIff(r.runId, 100);
    if r.error.Some? {
      BoundedIff(r.error.value, 200);
    }
  }

  lemma KeyOfIff(s: string, k: Key)
    ensures KeyOf(s) == Some(k) <==> s == KeyText(k)
  {
    KeyOfText(k);
  }

  /** The line begins with the key's name and an equals sign. */
  predicate Names(line: string, k: Key) {
    StartsWith(line, KeyText(k) + "=")
  }

  /** What stands behind the first equals sign. */
  function Behind(line: string): string {
    var i := IndexOf(line, '=');
    if i == |line| then "" else line[i + 1..]
  }

  lemma NamedLine(text: string, rest: string)
    requires '=' !in text
    ensures var line := text + "=" + rest; IndexOf(line, '=') == |text| < |line| && line[..|text|] == text && Behind(line) == rest
  {
    assert text + "=" + rest == text + ['='] + rest;
    SplitAtFirst(text, '=', rest);
  }

  lemma LineBegins(text: string, line: string)
    requires '=' !in text && StartsWith(line, text + "=")
    ensures var i := IndexOf(line, '='); i < |line| && line[..i] == text && line == text + "=" + Behind(line)
  {
    var rest := line[|text| + 1..];
    assert line == text + "=" + rest;
    NamedLine(text, rest);
  }

  lemma NamesGives(line: string, k: Key)
    requires Names(line, k)
    ensures var i := IndexOf(line, '='); i < |line| && line[..i] == KeyText(k)
    ensures line == KeyText(k) + "=" + Behind(line)
  {
    KeyHasNoSeparator(k);
    LineBegins(KeyText(k), line);
  }

  lemma NamesIff(line: string, k: Key)
    ensures var i := IndexOf(line, '='); Names(line, k) <==> i < |line| && KeyOf(line[..i]) == Some(k)
  {
    var i := IndexOf(line, '=');
    if Names(line, k) {
      NamesGives(line, k);
      KeyOfText(k);
    }
    if i < |line| {
      KeyOfIff(line[..i], k);
      CutAt(line, i);
    }
  }

  lemma OneName(line: string, k: Key, j: Key)
    requires Names(line, k) && Names(line, j)
    ensures k == j
  {
    NamesIff(line, k);
    NamesIff(line, j);
  }

  /** The line carries the field: the key's name, an equals sign, and a usable text around the value. */
  predicate LineIs(line: string, f: Field) {
    Names(line, f.0) && Usable(Behind(line), 1000) && f.1 == Strip(Behind(line))
  }

  lemma NoSeparator(line: string)
    ensures Strip(line) == "" ==> IndexOf(line, '=') == |line|
  {
    IndexOfFound(line, '=');
    if '=' in line {
      StripKeeps(line, '=');
    }
  }

  lemma AddLineIs(values: Values, line: string, k: Key)
    ensures Names(line, k) ==>
              AddLine(values, line) ==
                if k in values then Err(UnknownOrDuplicate)
                else if Usable(Behind(line), 1000) then Ok(values[k := Strip(Behind(line))])
                else Err(ValueInvalid(k))
  {
    NamesIff(line, k);
    NoSeparator(line);
    BoundedIff(Behind(line), 1000);
  }

  lemma AddLineUnnamed(values: Values, line: string)
    requires forall k :: !Names(line, k)
    ensures AddLine(values, line) == Err(if '=' in line then UnknownOrDuplicate else LineInvalid)
  {
    NoSeparator(line);
    IndexOfFound(line, '=');
    var i := IndexOf(line, '=');
    if i < |line| && KeyOf(line[..i]).Some? {
      NamesIff(line, KeyOf(line[..i]).value);
    }
  }

  /** What a line adds: its field exactly when its key is new and its text usable, and otherwise the error for that. */
  lemma AddLineIff(values: Values, line: string, k: Key)
    ensures forall v :: AddLine(values, line) == Ok(v) ==> exists f: Field :: LineIs(line, f) && f.0 !in values && v == values[f.0 := f.1]
    ensures forall f: Field | LineIs(line, f) && f.0 !in values :: AddLine(values, line) == Ok(values[f.0 := f.1])
    ensures AddLine(values, line) == Err(LineInvalid) <==> '=' !in line
    ensures AddLine(values, line) == Err(ValueInvalid(k)) <==> Names(line, k) && k !in values && !Usable(Behind(line), 1000)
  {
    forall key
      ensures Names(line, key) ==>
                AddLine(values, line) ==
                  if key in values then Err(UnknownOrDuplicate)
                  else if Usable(Behind(line), 1000) then Ok(values[key := Strip(Behind(line))])
                  else Err(ValueInvalid(key))
    {
      AddLineIs(values, line, key);
    }
    if key :| Names(line, key) {
      assert AddLine(values, line).Ok? ==> LineIs(line, (key, Strip(Behind(line))));
      NamesIff(line, key);
      IndexOfFound(line, '=');
      if Names(line, k) {
        OneName(line, key, k);
      }
    } else {
      AddLineUnnamed(values, line);
    }
  }

  predicate Paired<A, B>(p: (A, B) -> bool, xs: seq<A>, ys: seq<B>) {
    |xs| == |ys| && forall i | 0 <= i < |xs| :: p(xs[i], ys[i])
  }

  lemma PairedSnoc<A, B>(p: (A, B) -> bool, xs: seq<A>, ys: seq<B>, x: A, y: B)
    requires Paired(p, xs, ys) && p(x, y)
    ensures Paired(p, xs + [x], ys + [y])
  {
  }

  /** The lines carry these fields, one each. */
  predicate LinesAre(lines: seq<string>, fields: seq<Field>) {
    Paired(LineIs, lines, fields)
  }

  lemma {:induction false} ParsedFields(lines: seq<string>, fields: seq<Field>)
    requires DistinctKeys(fields) && LinesAre(lines, fields)
    ensures Parse(lines) == Ok(MapOf(fields))
  {
    if lines == [] {
    } else {
      var n := |lines| - 1;
      ParsedFields(lines[..n], fields[..n]);
      MapOfMeaning(fields[..n]);
      AddLineIff(MapOf(fields[..n]), lines[n], fields[n].0);
    }
  }

  lemma MapOfSnoc(init: seq<Field>, f: Field)
    requires DistinctKeys(init) && f.0 !in MapOf(init)
    ensures DistinctKeys(init + [f]) && MapOf(init + [f]) == MapOf(init)[f.0 := f.1]
  {
    MapOfMeaning(init);
    assert (init + [f])[..|init|] == init;
  }

  lemma NextField(values: Values, line: string) returns (f: Field)
    requires AddLine(values, line).Ok?
    ensures LineIs(line, f) && f.0 !in values && AddLine(values, line) == Ok(values[f.0 := f.1])
  {
    AddLineIff(values, line, ErrorCode);
    f :| LineIs(line, f) && f.0 !in values && AddLine(values, line).value == values[f.0 := f.1];
  }

  lemma ParsedOneMore(lines: seq<string>, line: string, fields: seq<Field>) returns (more: seq<Field>)
    requires DistinctKeys(fields) && LinesAre(lines, fields) && AddLine(MapOf(fields), line).Ok?
    ensures DistinctKeys(more) && LinesAre(lines + [line], more) && AddLine(MapOf(fields), line) == Ok(MapOf(more))
  {
    var f := NextField(MapOf(fields), line);
    PairedSnoc(LineIs, lines, fields, line, f);
    MapOfSnoc(fields, f);
    more := fields + [f];
  }

  lemma ParsedBefore(lines: seq<string>)
    requires lines != [] && Parse(lines).Ok?
    ensures var n := |lines| - 1; Parse(lines[..n]).Ok? && Parse(lines) == AddLine(Parse(lines[..n]).value, lines[n])
  {
  }

  lemma {:induction false} FieldsOfParsed(lines: seq<string>) returns (fields: seq<Field>)
    requires Parse(lines).Ok?
    ensures DistinctKeys(fields) && LinesAre(lines, fields) && Parse(lines) == Ok(MapOf(fields))
  {
    if lines == [] {
      fields := [];
    } else {
      var init, last := lines[..|lines| - 1], lines[|lines| - 1];
      ParsedBefore(lines);
      var before := FieldsOfParsed(init);
      fields := ParsedOneMore(init, last, before);
      assert init + [last] == lines;
    }
  }

  /** A file is read exactly when its lines carry fields under distinct keys, and what is read are those fields. */
  lemma ParseIff(lines: seq<string>, values: Values)
    ensures Parse(lines) == Ok(values)
       <==> exists fields :: DistinctKeys(fields) && LinesAre(lines, fields) && values == MapOf(fields)
  {
    if Parse(lines).Ok? {
      var fields := FieldsOfParsed(lines);
    }
    forall fields | DistinctKeys(fields) && LinesAre(lines, fields)
      ensures Parse(lines) == Ok(MapOf(fields))
    {
      ParsedFields(lines, fields);
    }
  }

  predicate Has(values: Values, k: Key, text: string) {
    k in values && values[k] == text
  }

  /** What is read must say: the schema, the caller's identifiers, and a status with its own exit code. */
  predicate SaysSo(values: Values, provider: string, environment: string, runId: string) {
    && Has(values, SchemaVersion, "mailhub.provider_activation_test_output.v1")
    && Has(values, Provider, provider) && Has(values, Environment, environment) && Has(values, RunId, runId)
    && Has(values, CredentialsObserved, "false")
    && (Has(values, NetworkAccess, "true") || Has(values, NetworkAccess, "false"))
    && (|| (Has(values, Status, "succeeded") && Has(values, ExitCode, "0") && ErrorCode !in values)
        || (Has(values, Status, "failed") && Has(values, ExitCode, "2")))
  }

  lemma RequiredIff(k: Key)
    ensures k in RequiredKeys() <==> k != ErrorCode
  {
  }

  lemma RequiredIn(values: Values)
    ensures values.Keys - {ErrorCode} == RequiredKeys() <==> forall k | k != ErrorCode :: k in values
  {
    forall k: Key
      ensures k in RequiredKeys() <==> k != ErrorCode
    {
      RequiredIff(k);
    }
  }

  lemma TextsDiffer()
    ensures "succeeded" != "failed" && "0" != "2"
  {
    assert "succeeded"[0] == 's' && "failed"[0] == 'f' && "0"[0] == '0' && "2"[0] == '2';
  }

  lemma CheckedIff(values: Values, provider: string, environment: string, runId: string, requireReal: bool)
    ensures CheckValues(values, provider, environment, runId, requireReal) == None
       <==> && SaysSo(values, provider, environment, runId)
            && (requireReal ==> Has(values, NetworkAccess, "true") && Has(values, Status, "succeeded"))
  {
    RequiredIn(values);
    TextsDiffer();
  }

  /** Exactly which files are accepted. */
  lemma AcceptedIff(text: string, provider: string, environment: string, runId: string, requireReal: bool)
    ensures Validate(text, provider, environment, runId, requireReal) == None
       <==> exists fields :: && DistinctKeys(fields) && LinesAre(SplitLines(text), fields)
                             && SaysSo(MapOf(fields), provider, environment, runId)
                             && (requireReal ==>
                                   Has(MapOf(fields), NetworkAccess, "true") && Has(MapOf(fields), Status, "succeeded"))
  {
    var lines := SplitLines(text);
    if Parse(lines).Ok? {
      var fields := FieldsOfParsed(lines);
      CheckedIff(MapOf(fields), provider, environment, runId, requireReal);
    }
    forall fields | DistinctKeys(fields) && LinesAre(lines, fields)
      ensures Parse(lines) == Ok(MapOf(fields))
    {
      ParsedFields(lines, fields);
      CheckedIff(MapOf(fields), provider, environment, runId, requireReal);
    }
  }

  /** A line break; "\r\n" is one, so a carriage return alone is one only without a line feed behind it. */
  predicate IsSeparator(sep: string, rest: string) {
    sep == "\r\n" || (|sep| == 1 && IsBreak(sep[0]) && !(sep[0] == '\r' && StartsWith(rest, "\n")))
  }

  lemma {:induction false} FirstLineFrom(start: string, line: string, sep: string, rest: string)
    requires !HasBreak(line) && IsSeparator(sep, rest)
    ensures LinesFrom(start, line + sep + rest) == [start + line] + SplitLines(rest)
    decreases |line|
  {
    var t := line + sep + rest;
    if line == "" {
      assert t[0] == sep[0] && t[|sep|..] == rest && start + line == start;
      assert t[1..] == sep[1..] + rest;
      assert |t| > 1 && |sep| == 1 ==> t[1] == rest[0];
    } else {
      assert t[0] == line[0] && t[1..] == line[1..] + sep + rest && line[0] in line;
      assert IsBreak('\r');
      FirstLineFrom(start + [line[0]], line[1..], sep, rest);
      assert start + [line[0]] + line[1..] == start + line;
    }
  }

  lemma {:induction false} LastLineFrom(start: string, line: string)
    requires !HasBreak(line)
    ensures LinesFrom(start, line) == if start + line == "" then [] else [start + line]
    decreases |line|
  {
    if line == "" {
      assert start + line == start;
    } else {
      assert line[0] in line && IsBreak('\r');
      LastLineFrom(start + [line[0]], line[1..]);
      assert start + [line[0]] + line[1..] == start + line;
    }
  }

  /** `str.splitlines`: the text before the first break is a line, and what follows the last break is one unless it is empty. */
  lemma SplitLinesIs(line: string, sep: string, rest: string)
    requires !HasBreak(line)
    ensures IsSeparator(sep, rest) ==> SplitLines(line + sep + rest) == [line] + SplitLines(rest)
    ensures SplitLines(line) == if line == "" then [] else [line]
  {
    assert "" + line == line;
    if IsSeparator(sep, rest) {
      FirstLineFrom("", line, sep, rest);
    }
    LastLineFrom("", line);
  }

  // ---- what any accepted text looks like ----

  lemma {:induction false} SplitHasNoBreak(line: string, s: string)
    requires !HasBreak(line)
    ensures forall l | l in LinesFrom(line, s) :: !HasBreak(l)
    decreases |s|
  {
    if s == "" {
    } else {
      if s[0] == '\r' && |s| > 1 && s[1] == '\n' {
        SplitHasNoBreak("", s[2..]);
      } else if IsBreak(s[0]) {
        SplitHasNoBreak("", s[1..]);
      } else {
        SplitHasNoBreak(line + [s[0]], s[1..]);
      }
    }
  }

  lemma AddedValueHasNoBreak(values: Values, line: string)
    requires AddLine(values, line).Ok? && !HasBreak(line) && forall k | k in values :: !HasBreak(values[k])
    ensures var after := AddLine(values, line).value;
            (forall k | k in after :: !HasBreak(after[k])) && |after| == |values| + 1
  {
    StripMeaning(line[IndexOf(line, '=') + 1..]);
  }

  lemma NineKeys(keys: set<Key>)
    ensures |keys| <= 9
  {
    var all := RequiredKeys() + {ErrorCode};
    assert |all| == 9;
    forall k | k in keys
      ensures k in all
    {
      match k
      case ErrorCode =>
      case _ => assert k in RequiredKeys();
    }
    SubsetSize(keys, all);
  }

  /** Parsed values have no line break in them, and there are as many as lines. */
  lemma {:induction false} ParsedValues(lines: seq<string>)
    requires Parse(lines).Ok? && forall l | l in lines :: !HasBreak(l)
    ensures forall k | k in Parse(lines).value :: !HasBreak(Parse(lines).value[k])
    ensures |Parse(lines).value| == |lines| <= 9
  {
    if lines == [] {
    } else {
      var n := |lines| - 1;
      ParsedValues(lines[..n]);
      AddedValueHasNoBreak(Parse(lines[..n]).value, lines[n]);
    }
    NineKeys(Parse(lines).value.Keys);
    assert |Parse(lines).value| == |Parse(lines).value.Keys|;
  }

  function Breaks(s: string): nat {
    if s == "" then 0 else (if IsBreak(s[0]) then 1 else 0) + Breaks(s[1..])
  }

  lemma {:induction false} BreaksOfConcat(a: string, b: string)
    ensures Breaks(a + b) == Breaks(a) + Breaks(b)
  {
    if a == "" {
      assert a + b == b;
    } else {
      assert (a + b)[1..] == a[1..] + b;
      BreaksOfConcat(a[1..], b);
    }
  }

  lemma {:induction false} BreaksCount(s: string)
    requires HasBreak(s)
    ensures Breaks(s) >= 1
  {
    if IsBreak(s[0]) {
    } else {
      assert s == [s[0]] + s[1..];
      BreaksCount(s[1..]);
    }
  }

  lemma {:induction false} LinesCountBreaks(line: string, s: string)
    requires '\r' !in s
    ensures |LinesFrom(line, s)| >= Breaks(s)
    decreases |s|
  {
    if s == "" {
    } else {
      assert s == [s[0]] + s[1..];
      LinesCountBreaks(if IsBreak(s[0]) then "" else line + [s[0]], s[1..]);
    }
  }

  // ---- agreement ----

  /** No value of the report has a line break in it. */
  predicate NoBreaks(r: Report) {
    && !HasBreak(Strip(r.provider)) && !HasBreak(Strip(r.environment)) && !HasBreak(Strip(r.runId))
    && (r.error.Some? ==> !HasBreak(Strip(r.error.value)))
  }

  lemma BoundedReadsBack(value: string, maximum: nat)
    requires Bounded(value, maximum).Some? && maximum <= 1000
    ensures ReadsBack(Strip(value)) && '\r' !in Strip(value)
  {
    StripMeaning(value);
    StripMeaning(Strip(value));
    assert IsControl('\r');
  }

  lemma PrintableReadsBack(value: string)
    requires value != "" && |value| <= 1000 && forall i | 0 <= i < |value| :: '\U{0021}' <= value[i] <= '\U{007E}'
    ensures ReadsBack(value) && !HasBreak(value) && '\r' !in value
  {
    StripMeaning(value);
  }

  lemma FixedValuesReadBack(r: Report)
    ensures ReadsBack(BoolText(r.network)) && ReadsBack(OutcomeText(r.outcome)) && ReadsBack("false") && ReadsBack(ExitText(r.outcome))
    ensures !HasBreak(BoolText(r.network)) && !HasBreak(OutcomeText(r.outcome)) && !HasBreak("false") && !HasBreak(ExitText(r.outcome))
  {
    PrintableReadsBack(BoolText(r.network));
    PrintableReadsBack(OutcomeText(r.outcome));
    PrintableReadsBack("false");
    PrintableReadsBack(ExitText(r.outcome));
  }

  lemma SchemaReadsBack()
    ensures ReadsBack(SCHEMA) && !HasBreak(SCHEMA)
  {
    PrintableReadsBack(SCHEMA);
  }

  predicate AllReadBack(t: Texts) {
    && ReadsBack(t.schema) && ReadsBack(t.provider) && ReadsBack(t.environment) && ReadsBack(t.runId) && ReadsBack(t.network)
    && ReadsBack(t.status) && ReadsBack(t.credentials) && ReadsBack(t.exit) && (t.error.Some? ==> ReadsBack(t.error.value))
  }

  predicate NoneBreaks(t: Texts) {
    && !HasBreak(t.schema) && !HasBreak(t.provider) && !HasBreak(t.environment) && !HasBreak(t.runId) && !HasBreak(t.network)
    && !HasBreak(t.status) && !HasBreak(t.credentials) && !HasBreak(t.exit) && (t.error.Some? ==> !HasBreak(t.error.value))
  }

  /** The parsed values are the texts. */
  predicate Holds(values: Values, t: Texts) {
    && values.Keys == RequiredKeys() + (if t.error.Some? then {ErrorCode} else {})
    && Has(values, SchemaVersion, t.schema) && Has(values, Provider, t.provider) && Has(values, Environment, t.environment)
    && Has(values, RunId, t.runId) && Has(values, NetworkAccess, t.network) && Has(values, Status, t.status)
    && Has(values, CredentialsObserved, t.credentials) && Has(values, ExitCode, t.exit)
    && (t.error.Some? ==> Has(values, ErrorCode, t.error.value))
  }

  /** The place of a key in the file. */
  function Place(k: Key): nat {
    match k
    case SchemaVersion => 0
    case Provider => 1
    case Environment => 2
    case RunId => 3
    case NetworkAccess => 4
    case Status => 5
    case CredentialsObserved => 6
    case ExitCode => 7
    case ErrorCode => 8
  }

  lemma ListedPlaces(t: Texts)
    ensures |Listed(t)| == if t.error.Some? then 9 else 8
    ensures forall i | 0 <= i < |Listed(t)| :: Place(Listed(t)[i].0) == i
  {
  }

  lemma ListedKeys(t: Texts, values: Values)
    requires forall k :: k in values <==> exists i :: 0 <= i < |Listed(t)| && Listed(t)[i].0 == k
    ensures values.Keys == RequiredKeys() + (if t.error.Some? then {ErrorCode} else {})
  {
    ListedPlaces(t);
    forall k: Key
      ensures k in values <==> k != ErrorCode || t.error.Some?
    {
      if k != ErrorCode || t.error.Some? {
        assert Listed(t)[Place(k)].0 == k;
      }
    }
    forall k: Key
      ensures k in RequiredKeys() <==> k != ErrorCode
    {
      RequiredIff(k);
    }
  }

  lemma ListedHolds(t: Texts)
    ensures DistinctKeys(Listed(t)) && Holds(MapOf(Listed(t)), t)
  {
    var fields := Listed(t);
    ListedPlaces(t);
    MapOfMeaning(fields);
    var values := MapOf(fields);
    assert fields[0] == (SchemaVersion, t.schema) && fields[1] == (Provider, t.provider) && fields[2] == (Environment, t.environment);
    assert fields[3] == (RunId, t.runId) && fields[4] == (NetworkAccess, t.network) && fields[5] == (Status, t.status);
    assert fields[6] == (CredentialsObserved, t.credentials) && fields[7] == (ExitCode, t.exit);
    assert t.error.Some? ==> fields[8] == (ErrorCode, t.error.value);
    ListedKeys(t, values);
  }

  lemma FieldLineBreaks(f: Field)
    ensures HasBreak(FieldLine(f)) <==> HasBreak(f.1)
  {
    KeyHasNoBreak(f.0);
    assert forall c :: c in FieldLine(f) <==> c in KeyText(f.0) || c == '=' || c in f.1;
  }

  /** Fields that read back and have no line break are parsed back from the file they were printed to. */
  lemma PrintedParsesBack(fields: seq<Field>)
    requires DistinctKeys(fields) && forall f | f in fields :: ReadsBack(f.1) && !HasBreak(f.1)
    ensures Parse(SplitLines(Unlines(Lines(fields)))) == Ok(MapOf(fields))
  {
    forall line | line in Lines(fields)
      ensures !HasBreak(line)
    {
      var i :| 0 <= i < |fields| && line == FieldLine(fields[i]);
      FieldLineBreaks(fields[i]);
    }
    UnlinesSplits(Lines(fields));
    FieldsParseBack(fields);
  }

  lemma ListedReadBack(t: Texts)
    requires AllReadBack(t)
    ensures forall i | 0 <= i < |Listed(t)| :: ReadsBack(Listed(t)[i].1)
  {
  }

  lemma ListedHasNoBreak(t: Texts)
    requires NoneBreaks(t)
    ensures forall i | 0 <= i < |Listed(t)| :: !HasBreak(Listed(t)[i].1)
  {
  }

  lemma NoReturn(value: string)
    requires ReadsBack(value)
    ensures '\r' !in value
  {
    assert IsControl('\r');
  }

  lemma ReportReadsBack(r: Report)
    requires RefusedField(r).None?
    ensures AllReadBack(TextsOf(r)) && (NoneBreaks(TextsOf(r)) <==> NoBreaks(r))
  {
    SchemaReadsBack();
    FixedValuesReadBack(r);
    BoundedReadsBack(r.provider, 40);
    BoundedReadsBack(r.environment, 100);
    BoundedReadsBack(r.runId, 100);
    if r.error.Some? {
      BoundedReadsBack(r.error.value, 200);
    }
  }

  /** Whether the outcome itself is acceptable: an error only on failure and, if required, a real success. */
  predicate OutcomeFits(r: Report, requireReal: bool) {
    (r.error.Some? ==> r.outcome == Failed) && (requireReal ==> r.outcome == Succeeded && r.network)
  }

  lemma FixedTextsDiffer(r: Report)
    ensures OutcomeText(r.outcome) == "succeeded" <==> r.outcome == Succeeded
    ensures OutcomeText(r.outcome) == "failed" <==> r.outcome == Failed
    ensures ExitText(r.outcome) == "0" <==> r.outcome == Succeeded
    ensures ExitText(r.outcome) == "2" <==> r.outcome == Failed
    ensures BoolText(r.network) == "true" <==> r.network
    ensures BoolText(r.network) == "false" <==> !r.network
  {
    assert "true"[0] == 't' && "false"[0] == 'f' && "0"[0] == '0' && "2"[0] == '2' && "succeeded"[0] == 's' && "failed"[0] == 'f';
  }

  lemma ValuesFit(r: Report, values: Values, requireReal: bool)
    requires Holds(values, TextsOf(r))
    ensures CheckValues(values, Strip(r.provider), Strip(r.environment), Strip(r.runId), requireReal).None? <==> OutcomeFits(r, requireReal)
  {
    assert values.Keys - {ErrorCode} == RequiredKeys();
    FixedTextsDiffer(r);
  }

  /** An accepted file shows the identifiers it was checked for, so none of them has a line break. */
  lemma AcceptedHasNoBreak(text: string, provider: string, environment: string, runId: string, requireReal: bool)
    ensures Validate(text, provider, environment, runId, requireReal).None? ==>
              !HasBreak(provider) && !HasBreak(environment) && !HasBreak(runId) && |SplitLines(text)| <= 9
  {
    if Validate(text, provider, environment, runId, requireReal).None? {
      var lines := SplitLines(text);
      SplitHasNoBreak("", text);
      ParsedValues(lines);
      var values := Parse(lines).value;
      assert Provider in RequiredKeys() && Environment in RequiredKeys() && RunId in RequiredKeys();
    }
  }

  lemma {:induction false} UnlinesBreaks(lines: seq<string>)
    requires forall line | line in lines :: '\r' !in line
    ensures '\r' !in Unlines(lines) && Breaks(Unlines(lines)) >= |lines|
    ensures (exists line | line in lines :: HasBreak(line)) ==> Breaks(Unlines(lines)) > |lines|
  {
    if lines == [] {
    } else {
      var rest := Unlines(lines[1..]);
      UnlinesBreaks(lines[1..]);
      BreaksOfConcat(lines[0] + "\n", rest);
      BreaksOfConcat(lines[0], "\n");
      assert Breaks("\n") == 1;
      if HasBreak(lines[0]) {
        BreaksCount(lines[0]);
      }
      assert lines == [lines[0]] + lines[1..];
    }
  }

  /** A line break inside the error code makes ten lines, and there are only nine keys. */
  lemma BrokenErrorIsRefused(t: Texts, provider: string, environment: string, runId: string, requireReal: bool)
    requires t.error.Some? && HasBreak(t.error.value)
    requires AllReadBack(t)
    ensures Validate(Unlines(Lines(Listed(t))), provider, environment, runId, requireReal).Some?
  {
    var fields := Listed(t);
    var lines := Lines(fields);
    var text := Unlines(lines);
    ListedReadBack(t);
    forall line | line in lines
      ensures '\r' !in line
    {
      var i :| 0 <= i < |fields| && line == FieldLine(fields[i]);
      KeyHasNoBreak(fields[i].0);
      assert IsBreak('\r');
      NoReturn(fields[i].1);
    }
    FieldLineBreaks(fields[8]);
    assert lines[8] in lines;
    UnlinesBreaks(lines);
    LinesCountBreaks("", text);
    AcceptedHasNoBreak(text, provider, environment, runId, requireReal);
  }

  function FileOf(r: Report): string {
    Unlines(Lines(FieldsOf(r)))
  }

  function ValidateOwn(r: Report, requireReal: bool): Option<Error> {
    Validate(FileOf(r), Strip(r.provider), Strip(r.environment), Strip(r.runId), requireReal)
  }

  lemma ReportIsRead(r: Report, requireReal: bool)
    requires RefusedField(r).None? && NoBreaks(r)
    ensures ValidateOwn(r, requireReal).None? <==> OutcomeFits(r, requireReal)
    ensures Parse(SplitLines(FileOf(r))).Ok? && Holds(Parse(SplitLines(FileOf(r))).value, TextsOf(r))
  {
    var t := TextsOf(r);
    ReportReadsBack(r);
    ListedReadBack(t);
    ListedHasNoBreak(t);
    ListedHolds(t);
    PrintedParsesBack(Listed(t));
    ValuesFit(r, MapOf(Listed(t)), requireReal);
  }

  lemma BrokenReportIsRefused(r: Report, requireReal: bool)
    requires RefusedField(r).None? && !NoBreaks(r)
    ensures ValidateOwn(r, requireReal).Some?
  {
    var t := TextsOf(r);
    if r.error.Some? && HasBreak(Strip(r.error.value)) {
      ReportReadsBack(r);
      BrokenErrorIsRefused(t, t.provider, t.environment, t.runId, requireReal);
    } else {
      AcceptedHasNoBreak(FileOf(r), t.provider, t.environment, t.runId, requireReal);
    }
  }

  /**
    The file of a printed report is accepted for its own identifiers exactly when an error comes only with
    failure, no value has a Unicode line break, and, if a real run is required, it succeeded over the network.
    Without line breaks it always parses back to the texts written.
   */
  lemma PrinterAndParserAgree(r: Report, requireReal: bool)
    requires RefusedField(r).None?
    ensures ValidateOwn(r, requireReal).None? <==> NoBreaks(r) && OutcomeFits(r, requireReal)
    ensures NoBreaks(r) ==> Parse(SplitLines(FileOf(r))).Ok? && Holds(Parse(SplitLines(FileOf(r))).value, TextsOf(r))
  {
    if NoBreaks(r) {
      ReportIsRead(r, requireReal);
    } else {
      BrokenReportIsRefused(r, requireReal);
    }
  }

  // ---- the breaks that pass the printer ----

  /** The line breaks that are not control characters to the printer. */
  predicate IsUnicodeBreak(c: char) {
    c == '\U{0085}' || c == '\U{2028}' || c == '\U{2029}'
  }

  /** In a value that the printer accepts, these three are the only line breaks there can be. */
  lemma BoundedBreaksAreUnicode(value: string, maximum: nat)
    requires Bounded(value, maximum).Some?
    ensures HasBreak(Strip(value)) <==> exists c | c in Strip(value) :: IsUnicodeBreak(c)
  {
    StripMeaning(value);
    forall c | c in Strip(value)
      ensures IsBreak(c) <==> IsUnicodeBreak(c)
    {
      assert c in value && !IsControl(c);
    }
  }

  /** Where a report carries a text. */
  datatype Slot = InProvider | InEnvironment | InRunId | InError

  function FailedReport(slot: Slot, text: string): Report {
    Report(if slot == InProvider then text else "p", if slot == InEnvironment then text else "e",
           if slot == InRunId then text else "r", Failed, true, Some(if slot == InError then text else "x"))
  }

  lemma ShortTextIsBounded(text: string, maximum: nat)
    requires 1 <= |text| <= 3 <= maximum && IsStripped(text) && !HasControl(text)
    ensures Bounded(text, maximum) == Some(text)
  {
    StripMeaning(text);
  }

  /** Each of the three does pass the printer, in every field that takes a text, and the validator refuses the file. */
  lemma UnicodeBreaksPassThePrinter(c: char, slot: Slot, requireReal: bool)
    requires IsUnicodeBreak(c)
    ensures var r := FailedReport(slot, ['a', c, 'b']); RefusedField(r).None? && ValidateOwn(r, requireReal).Some?
  {
    var text := ['a', c, 'b'];
    var r := FailedReport(slot, text);
    assert !HasControl(text);
    ShortTextIsBounded(r.provider, 40);
    ShortTextIsBounded(r.environment, 100);
    ShortTextIsBounded(r.runId, 100);
    ShortTextIsBounded(r.error.value, 200);
    assert HasBreak(text) by {
      assert text[1] == c && c in text && IsBreak(c);
    }
    PrinterAndParserAgree(r, requireReal);
  }
}
