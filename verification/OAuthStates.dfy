/**
  The one-time OAuth states of the credential broker.  Rows are keyed by the digest of the state id; `sha`
  is the digest of a record's canonical JSON.  The stored ciphertext decrypts to the record, so the
  model keeps the record itself.  Instants are microseconds.
 */
module OAuthStates {
  import opened Wrappers

  const MAX_LIFETIME: int := 15 * 60 * 1_000_000

  datatype Row = Row(sha: string, record: string, expiresAt: int, consumedAt: Option<int>, createdAt: int)

  datatype SaveOutcome = Saved | AlreadySaved | Collision | ExpiryInvalid

  function SaveStep(rows: map<string, Row>, id: string, record: string, sha: string -> string, expiresAt: int, now: int)
    : (map<string, Row>, SaveOutcome)
  {
    if expiresAt <= now || expiresAt > now + MAX_LIFETIME then (rows, ExpiryInvalid)
    else if id in rows then (rows, if rows[id].sha == sha(record) then AlreadySaved else Collision)
    else (rows[id := Row(sha(record), record, expiresAt, None, now)], Saved)
  }

  /** An expired state is marked consumed as well, but yields nothing. */
  function ConsumeStep(rows: map<string, Row>, id: string, now: int): (map<string, Row>, Option<string>) {
    if id !in rows || rows[id].consumedAt.Some? then (rows, None)
    else (rows[id := rows[id].(consumedAt := Some(now))], if rows[id].expiresAt <= now then None else Some(rows[id].record))
  }

  class StateTable {
    var rows: map<string, Row>
    const sha: string -> string

    constructor (sha: string -> string)
      ensures rows == map[] && this.sha == sha
    {
      rows, this.sha := map[], sha;
    }

    method SaveState(id: string, record: string, expiresAt: int, now: int) returns (outcome: SaveOutcome)
      modifies this
      ensures (rows, outcome) == SaveStep(old(rows), id, record, sha, expiresAt, now)
    {
      if expiresAt <= now || expiresAt > now + MAX_LIFETIME {
        return ExpiryInvalid;
      }
      if id in rows {
        return if rows[id].sha == sha(record) then AlreadySaved else Collision;
      }
      rows := rows[id := Row(sha(record), record, expiresAt, None, now)];
      outcome := Saved;
    }

    method ConsumeState(id: string, now: int) returns (record: Option<string>)
      modifies this
      ensures (rows, record) == ConsumeStep(old(rows), id, now)
    {
      if id !in rows || rows[id].consumedAt.Some? {
        return None;
      }
      var row := rows[id];
      rows := rows[id := row.(consumedAt := Some(now))];
      if row.expiresAt <= now {
        return None;
      }
      record := Some(row.record);
    }
  }

  // ---- runs ----

  datatype Event =
    | Save(id: string, record: string, expiresAt: int, now: int)
    | Consume(id: string, now: int)

  function Step(sha: string -> string, rows: map<string, Row>, e: Event): map<string, Row> {
    match e
    case Save(id, record, expiresAt, now) => SaveStep(rows, id, record, sha, expiresAt, now).0
    case Consume(id, now) => ConsumeStep(rows, id, now).0
  }

  function Run(sha: string -> string, es: seq<Event>): map<string, Row> {
    if es == [] then map[] else Step(sha, Run(sha, es[..|es| - 1]), es[|es| - 1])
  }

  /** Event `i` stores the first row of `id`. */
  ghost predicate SavedAt(sha: string -> string, es: seq<Event>, i: nat, id: string) {
    i < |es| && es[i].Save? && es[i].id == id
    && SaveStep(Run(sha, es[..i]), id, es[i].record, sha, es[i].expiresAt, es[i].now).1 == Saved
  }

  /** Event `i` consumes `id` and yields `record`. */
  ghost predicate YieldsAt(sha: string -> string, es: seq<Event>, i: nat, id: string, record: string) {
    i < |es| && es[i].Consume? && es[i].id == id && ConsumeStep(Run(sha, es[..i]), id, es[i].now).1 == Some(record)
  }

  /** How often `id` yielded a record. */
  function Yields(sha: string -> string, es: seq<Event>, id: string): nat {
    if es == [] then 0 else
      var n := |es| - 1;
      Yields(sha, es[..n], id)
      + if es[n].Consume? && es[n].id == id && ConsumeStep(Run(sha, es[..n]), id, es[n].now).1.Some? then 1 else 0
  }

  /** A stored row keeps the content of the save that created it. */
  lemma {:induction false} RowIsFirstSave(sha: string -> string, es: seq<Event>, id: string)
    requires id in Run(sha, es)
    ensures exists i: nat :: SavedAt(sha, es, i, id) && Run(sha, es)[id].record == es[i].record
                             && Run(sha, es)[id].expiresAt == es[i].expiresAt && Run(sha, es)[id].sha == sha(es[i].record)
  {
    var n := |es| - 1;
    var init := es[..n];
    if id in Run(sha, init) {
      RowIsFirstSave(sha, init, id);
      var i: nat :| SavedAt(sha, init, i, id) && Run(sha, init)[id].record == init[i].record
                    && Run(sha, init)[id].expiresAt == init[i].expiresAt && Run(sha, init)[id].sha == sha(init[i].record);
      assert init[..i] == es[..i];
      assert SavedAt(sha, es, i, id);
    } else {
      assert SavedAt(sha, es, n, id);
    }
  }

  /** Single use: over every run a state id yields at most once, and not while its row is unconsumed. */
  lemma {:induction false} SingleUse(sha: string -> string, es: seq<Event>, id: string)
    ensures Yields(sha, es, id) <= 1
    ensures Yields(sha, es, id) == 1 ==> id in Run(sha, es) && Run(sha, es)[id].consumedAt.Some?
  {
    if es == [] {
    } else {
      SingleUse(sha, es[..|es| - 1], id);
    }
  }

  /** What is yielded was saved first under that id, and is yielded strictly before its expiry. */
  lemma YieldsFirstSaveInTime(sha: string -> string, es: seq<Event>, k: nat, id: string, record: string)
    requires YieldsAt(sha, es, k, id, record)
    ensures exists i: nat :: i < k && SavedAt(sha, es, i, id) && es[i].record == record && es[k].now < es[i].expiresAt
  {
    var before := es[..k];
    RowIsFirstSave(sha, before, id);
    var i: nat :| SavedAt(sha, before, i, id) && Run(sha, before)[id].record == before[i].record
                  && Run(sha, before)[id].expiresAt == before[i].expiresAt;
    assert before[..i] == es[..i];
    assert SavedAt(sha, es, i, id);
  }

  /**
    A second save never changes a stored row, so it cannot revive a consumed state; it is answered
    quietly exactly when its digest is the stored one, and a different digest is refused.
   */
  lemma ResaveChangesNothing(sha: string -> string, es: seq<Event>, id: string, record: string, expiresAt: int, now: int)
    requires id in Run(sha, es) && now < expiresAt <= now + MAX_LIFETIME
    ensures var (rows, outcome) := SaveStep(Run(sha, es), id, record, sha, expiresAt, now);
            && rows == Run(sha, es)
            && exists i: nat :: SavedAt(sha, es, i, id) && outcome == if sha(es[i].record) == sha(record) then AlreadySaved else Collision
  {
    RowIsFirstSave(sha, es, id);
  }

  predicate Plausible(e: Event)
    requires e.Save?
  {
    e.now < e.expiresAt <= e.now + MAX_LIFETIME
  }

  /** No consumption of `id` comes after a save of it. */
  ghost predicate Untouched(es: seq<Event>, id: string) {
    forall i, j | 0 <= i < j < |es| && es[j] == Consume(id, es[j].now) :: !(es[i].Save? && es[i].id == id && Plausible(es[i]))
  }

  lemma {:induction false} SavedStays(sha: string -> string, es: seq<Event>, i: nat, id: string)
    requires SavedAt(sha, es, i, id)
    ensures id in Run(sha, es) && Run(sha, es)[id].expiresAt == es[i].expiresAt
  {
    var n := |es| - 1;
    if i == n {
    } else {
      assert es[..n][..i] == es[..i];
      SavedStays(sha, es[..n], i, id);
    }
  }

  lemma {:induction false} ConsumedIffTouched(sha: string -> string, es: seq<Event>, id: string)
    ensures id in Run(sha, es) <==> exists i :: 0 <= i < |es| && es[i].Save? && es[i].id == id && Plausible(es[i])
    ensures id in Run(sha, es) ==> (Run(sha, es)[id].consumedAt.None? <==> Untouched(es, id))
  {
    if es == [] {
    } else {
      var n := |es| - 1;
      ConsumedIffTouched(sha, es[..n], id);
      var init := es[..n];
      assert forall i | 0 <= i < n :: init[i] == es[i];
    }
  }

  /** Exactly when a consumption succeeds. */
  lemma ConsumeIff(sha: string -> string, es: seq<Event>, id: string, now: int)
    ensures ConsumeStep(Run(sha, es), id, now).1.Some?
            <==> exists i: nat :: SavedAt(sha, es, i, id) && now < es[i].expiresAt && Untouched(es, id)
  {
    ConsumedIffTouched(sha, es, id);
    if id in Run(sha, es) {
      RowIsFirstSave(sha, es, id);
    }
    forall i: nat | SavedAt(sha, es, i, id)
      ensures id in Run(sha, es) && Run(sha, es)[id].expiresAt == es[i].expiresAt
    {
      SavedStays(sha, es, i, id);
    }
  }

  /** What a save answers: refused outside the fifteen minutes, stored as given exactly when no earlier save of that id was inside them. */
  lemma SaveIff(sha: string -> string, es: seq<Event>, id: string, record: string, expiresAt: int, now: int)
    ensures var (rows, outcome), timely := SaveStep(Run(sha, es), id, record, sha, expiresAt, now), now < expiresAt <= now + 900_000_000;
            && (outcome == ExpiryInvalid <==> !timely)
            && (outcome == Saved <==>
                  timely && forall i | 0 <= i < |es| && es[i].Save? && es[i].id == id ::
                    !(es[i].now < es[i].expiresAt <= es[i].now + 900_000_000))
            && rows == if outcome == Saved then Run(sha, es)[id := Row(sha(record), record, expiresAt, None, now)] else Run(sha, es)
  {
    ConsumedIffTouched(sha, es, id);
  }

  /** A row is consumed only by a consumption of its id, and shows its instant. */
  lemma ConsumedAtOf(sha: string -> string, rows: map<string, Row>, e: Event, id: string)
    requires id in Step(sha, rows, e) && (id in rows ==> rows[id].consumedAt != Step(sha, rows, e)[id].consumedAt)
    ensures Step(sha, rows, e)[id].consumedAt.Some? ==> e == Consume(id, Step(sha, rows, e)[id].consumedAt.value)
  {
  }

  /** A consumed row carries the instant of a consumption of its id, whether or not that yielded anything. */
  lemma {:induction false} ConsumedByAnEvent(sha: string -> string, es: seq<Event>, id: string)
    requires id in Run(sha, es) && Run(sha, es)[id].consumedAt.Some?
    ensures Consume(id, Run(sha, es)[id].consumedAt.value) in es
  {
    var n := |es| - 1;
    var rows := Run(sha, es[..n]);
    if id in rows && rows[id].consumedAt == Run(sha, es)[id].consumedAt {
      ConsumedByAnEvent(sha, es[..n], id);
    } else {
      ConsumedAtOf(sha, rows, es[n], id);
    }
  }
}
