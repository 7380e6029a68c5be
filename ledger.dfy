/** The attempt ledger: lookups in quiz_attempts, the shape of a completed row,
    the table invariant, and the facts that make start idempotent and
    completion terminal. */
module Ledger {
  import opened QuizTypes

  /** The attempt belongs to this session and client address. */
  predicate OwnedBy(a: Attempt, sessionId: Id, userIp: string) {
    a.sessionId == sessionId && a.userIp == userIp
  }

  /** The lookup by (session, address): the first matching row, if any. */
  function FindAttempt(attempts: seq<Attempt>, sessionId: Id, userIp: string): (r: Option<nat>)
    ensures r.Some? ==> r.value < |attempts| && OwnedBy(attempts[r.value], sessionId, userIp)
    ensures r.Some? ==> forall j :: 0 <= j < r.value ==> !OwnedBy(attempts[j], sessionId, userIp)
    ensures r.None? <==> forall j :: 0 <= j < |attempts| ==> !OwnedBy(attempts[j], sessionId, userIp)
  {
    if attempts == [] then None
    else if OwnedBy(attempts[0], sessionId, userIp) then Some(0)
    else match FindAttempt(attempts[1..], sessionId, userIp)
      case None => None
      case Some(k) => Some(k + 1)
  }

  /** The row submit may complete: this id, this session and address, still open. */
  predicate Submittable(a: Attempt, attemptId: Id, sessionId: Id, userIp: string) {
    a.id == attemptId && OwnedBy(a, sessionId, userIp) && !a.isCompleted
  }

  /** The lookup of submit: the first submittable row, if any. */
  function FindOpenAttempt(attempts: seq<Attempt>, attemptId: Id, sessionId: Id, userIp: string): (r: Option<nat>)
    ensures r.Some? ==> r.value < |attempts| && Submittable(attempts[r.value], attemptId, sessionId, userIp)
    ensures r.None? <==> forall j :: 0 <= j < |attempts| ==> !Submittable(attempts[j], attemptId, sessionId, userIp)
  {
    if attempts == [] then None
    else if Submittable(attempts[0], attemptId, sessionId, userIp) then Some(0)
    else match FindOpenAttempt(attempts[1..], attemptId, sessionId, userIp)
      case None => None
      case Some(k) => Some(k + 1)
  }

  /** Some row already carries the id `id` (the primary key would refuse it). */
  predicate IdInUse(attempts: seq<Attempt>, id: Id) {
    exists j :: 0 <= j < |attempts| && attempts[j].id == id
  }

  /** The row start inserts: open, started now, nothing recorded yet. */
  function NewAttempt(id: Id, sessionId: Id, userIp: string, now: int): (a: Attempt)
    ensures OwnedBy(a, sessionId, userIp) && !a.isCompleted && Consistent(a)
  {
    Attempt(id, sessionId, userIp, now, None, None, None, false)
  }

  /** The row after submit: completed now with its score and the sheet. */
  function Complete(a: Attempt, score: nat, answers: Answers, now: int): (c: Attempt)
    ensures c.id == a.id && OwnedBy(c, a.sessionId, a.userIp) && c.startedAt == a.startedAt
    ensures c.isCompleted && c.score == Some(score) && Consistent(c)
    ensures c.answers == Some(answers) && c.completedAt == Some(now)
  {
    a.(completedAt := Some(now), score := Some(score), answers := Some(answers), isCompleted := true)
  }

  /** Completion time, score and stored sheet are present exactly on completed rows. */
  predicate Consistent(a: Attempt) {
    && a.completedAt.Some? == a.isCompleted
    && a.score.Some? == a.isCompleted
    && a.answers.Some? == a.isCompleted
  }

  /** No two rows share an id. */
  predicate DistinctIds(attempts: seq<Attempt>) {
    forall i, j :: 0 <= i < j < |attempts| ==> attempts[i].id != attempts[j].id
  }

  /** At most one row per (session, address): the uniqueness that start's
      check-then-insert gives when calls run one after another. */
  predicate OnePerClient(attempts: seq<Attempt>) {
    forall i, j :: 0 <= i < j < |attempts| ==>
      !OwnedBy(attempts[j], attempts[i].sessionId, attempts[i].userIp)
  }

  /** The invariant of the table; every row also refers to an existing session. */
  predicate LedgerOk(attempts: seq<Attempt>, sessions: map<Id, Session>) {
    && DistinctIds(attempts)
    && OnePerClient(attempts)
    && (forall i :: 0 <= i < |attempts| ==> Consistent(attempts[i]))
    && (forall i :: 0 <= i < |attempts| ==> attempts[i].sessionId in sessions)
  }

  /** Completed rows are kept as they are: `after` extends `before` and agrees
      with it on every row `before` had completed. */
  predicate CompletedKept(before: seq<Attempt>, after: seq<Attempt>) {
    |before| <= |after|
    && forall i :: 0 <= i < |before| && before[i].isCompleted ==> after[i] == before[i]
  }

  /** When the lookup finds nothing, an appended row of that client is what it finds next. */
  lemma {:induction false} FindAfterAppend(attempts: seq<Attempt>, a: Attempt)
    requires FindAttempt(attempts, a.sessionId, a.userIp).None?
    ensures FindAttempt(attempts + [a], a.sessionId, a.userIp) == Some(|attempts|)
    decreases |attempts|
  {
    if attempts == [] {
      assert attempts + [a] == [a];
    } else {
      assert (attempts + [a])[1..] == attempts[1..] + [a];
      assert FindAttempt(attempts[1..], a.sessionId, a.userIp).None?;
      FindAfterAppend(attempts[1..], a);
    }
  }

  /** Inserting when the lookup found nothing keeps the invariant, and the new
      row is from then on what the lookup finds. */
  lemma InsertKeepsLedger(attempts: seq<Attempt>, sessions: map<Id, Session>, a: Attempt)
    requires LedgerOk(attempts, sessions)
    requires Consistent(a) && a.sessionId in sessions
    requires FindAttempt(attempts, a.sessionId, a.userIp).None?
    requires !IdInUse(attempts, a.id)
    ensures LedgerOk(attempts + [a], sessions)
    ensures FindAttempt(attempts + [a], a.sessionId, a.userIp) == Some(|attempts|)
    ensures CompletedKept(attempts, attempts + [a])
  {
    FindAfterAppend(attempts, a);
    var s := attempts + [a];
    forall i, j | 0 <= i < j < |s| ensures s[i].id != s[j].id && !OwnedBy(s[j], s[i].sessionId, s[i].userIp) {
      if j == |attempts| {
        assert s[i] == attempts[i];
      } else {
        assert s[i] == attempts[i] && s[j] == attempts[j];
      }
    }
  }

  /** With one row per client, the lookup finds that client's row, wherever it is. */
  lemma {:induction false} FindIsTheOnlyOne(attempts: seq<Attempt>, sessionId: Id, userIp: string, i: nat)
    requires OnePerClient(attempts)
    requires i < |attempts| && OwnedBy(attempts[i], sessionId, userIp)
    ensures FindAttempt(attempts, sessionId, userIp) == Some(i)
  {
  }

  /** Completing the submittable row keeps the invariant and the completed rows,
      and the ledger then has no submittable row for the same request. */
  lemma CompleteKeepsLedger(attempts: seq<Attempt>, sessions: map<Id, Session>,
                            attemptId: Id, sessionId: Id, userIp: string,
                            score: nat, answers: Answers, now: int)
    requires LedgerOk(attempts, sessions)
    requires FindOpenAttempt(attempts, attemptId, sessionId, userIp).Some?
    ensures var i := FindOpenAttempt(attempts, attemptId, sessionId, userIp).value;
            var after := attempts[i := Complete(attempts[i], score, answers, now)];
            LedgerOk(after, sessions)
            && CompletedKept(attempts, after)
            && FindOpenAttempt(after, attemptId, sessionId, userIp).None?
  {
  }

  /** Keeping completed rows composes over a run of calls. */
  lemma {:induction false} CompletedKeptTransitive(s0: seq<Attempt>, s1: seq<Attempt>, s2: seq<Attempt>)
    requires CompletedKept(s0, s1) && CompletedKept(s1, s2)
    ensures CompletedKept(s0, s2)
  {
  }

  /** The rows of the admin results: the completed attempts of the session,
      each as often as the table holds it, in table order. */
  function CompletedFor(attempts: seq<Attempt>, sessionId: Id): (r: seq<Attempt>)
    ensures |r| <= |attempts|
    ensures forall a :: a in r <==> a in attempts && a.sessionId == sessionId && a.isCompleted
    ensures forall a :: multiset(r)[a] ==
              if a.sessionId == sessionId && a.isCompleted then multiset(attempts)[a] else 0
  {
    if attempts == [] then []
    else
      assert attempts == [attempts[0]] + attempts[1..];
      (if attempts[0].sessionId == sessionId && attempts[0].isCompleted then [attempts[0]] else [])
      + CompletedFor(attempts[1..], sessionId)
  }

  /** The results keep table order: the rows from an earlier stretch of the
      table all come before those from a later one. */
  lemma {:induction false} CompletedForAppend(xs: seq<Attempt>, ys: seq<Attempt>, sessionId: Id)
    ensures CompletedFor(xs + ys, sessionId) == CompletedFor(xs, sessionId) + CompletedFor(ys, sessionId)
    decreases |xs|
  {
    if xs == [] {
      assert xs + ys == ys;
    } else {
      assert (xs + ys)[1..] == xs[1..] + ys;
      CompletedForAppend(xs[1..], ys, sessionId);
    }
  }

  /** A single row appears in the results exactly when it is a completed
      attempt of the session; with the lemma above this fixes the results
      as the in-order filter of the table. */
  lemma CompletedForOne(a: Attempt, sessionId: Id)
    ensures CompletedFor([a], sessionId) == if a.sessionId == sessionId && a.isCompleted then [a] else []
  {
  }

  /** A completed row stays in the results of its session after any later
      call, because completed rows are kept. */
  lemma ResultsOnlyGrow(before: seq<Attempt>, after: seq<Attempt>, sessionId: Id)
    requires CompletedKept(before, after)
    ensures forall a :: a in CompletedFor(before, sessionId) ==> a in CompletedFor(after, sessionId)
  {
  }

  /** No session, no results: every row refers to an existing session. */
  lemma NoSessionNoResults(attempts: seq<Attempt>, sessions: map<Id, Session>, sessionId: Id)
    requires LedgerOk(attempts, sessions)
    requires sessionId !in sessions
    ensures CompletedFor(attempts, sessionId) == []
  {
  }
}
