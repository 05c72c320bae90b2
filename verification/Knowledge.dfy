/**
  The knowledge-candidate table of the BFF.  A row's primary key is `mailknowledge_` followed by the
  candidate id, so the table is a map by candidate id; one submission is one transaction.
 */
module Knowledge {
  type Uuid = nat

  datatype Row = Row(tenant: string, subject: string, contentSha: string, payloadSha: string, payload: string, createdAt: int)

  /** `KeyTaken` is the integrity error of an insertion whose primary key belongs to another owner. */
  datatype Outcome = Created | Replayed | Conflict | KeyTaken

  datatype Submission = Submission(candidate: Uuid, row: Row)

  function SubmitStep(rows: map<Uuid, Row>, s: Submission): (map<Uuid, Row>, Outcome) {
    if s.candidate !in rows then (rows[s.candidate := s.row], Created)
    else
      var existing := rows[s.candidate];
      if (existing.tenant, existing.subject) != (s.row.tenant, s.row.subject) then (rows, KeyTaken)
      else if (existing.contentSha, existing.payloadSha) != (s.row.contentSha, s.row.payloadSha) then (rows, Conflict)
      else (rows, Replayed)
  }

  class KnowledgeTable {
    var rows: map<Uuid, Row>

    constructor ()
      ensures rows == map[]
    {
      rows := map[];
    }

    method Submit(s: Submission) returns (outcome: Outcome)
      modifies this
      ensures (rows, outcome) == SubmitStep(old(rows), s)
    {
      // the lookup is by tenant, subject and candidate, so another owner's row is not seen by it
      if s.candidate in rows && rows[s.candidate].tenant == s.row.tenant && rows[s.candidate].subject == s.row.subject {
        var existing := rows[s.candidate];
        if existing.contentSha != s.row.contentSha || existing.payloadSha != s.row.payloadSha {
          return Conflict;
        }
        return Replayed;
      }
      if s.candidate in rows {
        return KeyTaken;
      }
      rows := rows[s.candidate := s.row];
      outcome := Created;
    }
  }

  function Run(ss: seq<Submission>): map<Uuid, Row> {
    if ss == [] then map[] else SubmitStep(Run(ss[..|ss| - 1]), ss[|ss| - 1]).0
  }

  /** The position of the first submission that names candidate `c`. */
  ghost predicate FirstFor(ss: seq<Submission>, i: nat, c: Uuid) {
    i < |ss| && ss[i].candidate == c && forall j | 0 <= j < i :: ss[j].candidate != c
  }

  lemma {:induction false} NoFirstMeansNone(ss: seq<Submission>, c: Uuid)
    ensures (exists i: nat :: FirstFor(ss, i, c)) || forall j | 0 <= j < |ss| :: ss[j].candidate != c
  {
    if ss == [] {
    } else {
      var n := |ss| - 1;
      NoFirstMeansNone(ss[..n], c);
      if i: nat :| FirstFor(ss[..n], i, c) {
        assert FirstFor(ss, i, c);
      } else if ss[n].candidate == c {
        assert FirstFor(ss, n, c);
      }
    }
  }

  /** The first submission for a candidate fixes its row for every run; nothing is stored without one. */
  lemma {:induction false} FirstSubmissionStays(ss: seq<Submission>, c: Uuid)
    ensures c in Run(ss) <==> exists i: nat :: FirstFor(ss, i, c)
    ensures forall i: nat | FirstFor(ss, i, c) :: c in Run(ss) && Run(ss)[c] == ss[i].row
  {
    if ss == [] {
    } else {
      var n := |ss| - 1;
      var init := ss[..n];
      FirstSubmissionStays(init, c);
      assert forall i: nat | FirstFor(init, i, c) :: FirstFor(ss, i, c);
      assert forall i: nat | i < n && FirstFor(ss, i, c) :: FirstFor(init, i, c);
      if c !in Run(init) && ss[n].candidate == c {
        NoFirstMeansNone(init, c);
        assert FirstFor(ss, n, c);
      }
    }
  }

  /** After the first submission, the answer to any later one depends on the first alone. */
  lemma LaterSubmissionsFollowTheFirst(ss: seq<Submission>, i: nat, s: Submission)
    requires FirstFor(ss, i, s.candidate)
    ensures var first, outcome := ss[i].row, SubmitStep(Run(ss), s).1;
            && SubmitStep(Run(ss), s).0 == Run(ss)
            && (outcome == KeyTaken <==> (first.tenant, first.subject) != (s.row.tenant, s.row.subject))
            && (outcome == Replayed <==> (first.tenant, first.subject, first.contentSha, first.payloadSha)
                                         == (s.row.tenant, s.row.subject, s.row.contentSha, s.row.payloadSha))
            && outcome != Created
  {
    FirstSubmissionStays(ss, s.candidate);
  }

  /** A submission for a candidate that none before it named is stored as it is; no other candidate's row is touched by any. */
  lemma CreatedIff(ss: seq<Submission>, s: Submission)
    ensures var (rows, outcome) := SubmitStep(Run(ss), s);
            && (outcome == Created <==> forall i | 0 <= i < |ss| :: ss[i].candidate != s.candidate)
            && (outcome == Created ==> rows == Run(ss)[s.candidate := s.row])
            && (outcome != Created ==> rows == Run(ss))
  {
    FirstSubmissionStays(ss, s.candidate);
    NoFirstMeansNone(ss, s.candidate);
  }
}
