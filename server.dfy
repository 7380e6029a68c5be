/** The quiz server: the three tables as fields of one object and the route
    handlers as methods that read and update them. The clock, fresh uuids and
    the outcome of certificate generation are parameters of the handlers. */
module Server {
  import opened QuizTypes
  import opened Sessions
  import opened Scoring
  import opened QuestionBank
  import opened Ledger

  /** The name of the certificate file written for an attempt. */
  function CertificateFile(attemptId: Id): string {
    "certificate_" + attemptId + ".pdf"
  }

  class QuizServer {
    /** quiz_sessions, keyed by its primary key. */
    var sessions: map<Id, Session>
    /** quiz_attempts, in insertion order. */
    var attempts: seq<Attempt>
    /** quiz_questions, in id order. */
    var questions: seq<Question>
    /** The AUTOINCREMENT counter of quiz_questions: the largest id ever issued. */
    var lastQuestionId: nat
    /** The scheme, host and port that quiz links start with. */
    const origin: string

    ghost predicate Valid()
      reads this
    {
      && (forall id :: id in sessions ==> sessions[id].createdAt < sessions[id].expiresAt)
      && LedgerOk(attempts, sessions)
      && BankOk(questions, lastQuestionId)
    }

    /** Some attempt of this client in this session is completed. */
    ghost predicate HasCompleted(sessionId: Id, userIp: string)
      reads this
    {
      exists i :: 0 <= i < |attempts| && OwnedBy(attempts[i], sessionId, userIp) && attempts[i].isCompleted
    }

    /** A fresh database: the three tables created empty. */
    constructor (origin: string)
      ensures Valid() && this.origin == origin
      ensures sessions == map[] && attempts == [] && questions == [] && lastQuestionId == 0
    {
      this.origin := origin;
      sessions := map[];
      attempts := [];
      questions := [];
      lastQuestionId := 0;
    }

    /** Start-up seeding: an empty question table receives the five sample
        questions; a non-empty one is left alone. Either way the bank then
        holds at least one question. */
    method SeedIfEmpty()
      requires Valid()
      modifies this`questions, this`lastQuestionId
      ensures Valid()
      ensures |questions| >= 1
      ensures old(questions) == [] ==>
                questions == SeedQuestions(old(lastQuestionId)) && lastQuestionId == old(lastQuestionId) + 5
      ensures old(questions) != [] ==> questions == old(questions) && lastQuestionId == old(lastQuestionId)
    {
      if |questions| == 0 {
        questions := SeedQuestions(lastQuestionId);
        lastQuestionId := lastQuestionId + 5;
      }
    }

    /** POST /admin/create-session: inserts an active session expiring 24 hours
        from now under a fresh id; a colliding id makes the insert fail. */
    method CreateSession(adminEmail: string, freshId: Id, now: int) returns (r: Result<NewSession>)
      requires Valid()
      modifies this`sessions
      ensures Valid()
      ensures freshId in old(sessions) ==> r == Err(InsertFailed) && sessions == old(sessions)
      ensures freshId !in old(sessions) ==>
                && r == Ok(NewSession(freshId, origin + "/quiz/" + freshId, now + SessionLifetimeMs))
                && sessions == old(sessions)[freshId := Session(now, ExpiryFor(now), true, adminEmail)]
      ensures r.Ok? ==> CheckForQuiz(sessions, freshId, now).Ok?
    {
      if freshId in sessions {
        return Err(InsertFailed);
      }
      var expiresAt := ExpiryFor(now);
      sessions := sessions[freshId := Session(now, expiresAt, true, adminEmail)];
      r := Ok(NewSession(freshId, origin + "/quiz/" + freshId, expiresAt));
    }

    /** GET /api/quiz/:sessionId for the client at `userIp`: "not found" for a
        missing or inactive session, "expired" for one past its expiry, the
        stored result when this client's attempt is completed, and otherwise
        the question list without correct options and the 10-minute limit. */
    method GetQuiz(sessionId: Id, userIp: string, now: int) returns (r: Result<QuizView>)
      requires Valid()
      ensures r == Err(SessionNotFound) <==> !IsActive(sessions, sessionId)
      ensures r == Err(SessionExpired) <==>
                IsActive(sessions, sessionId) && !IsSessionValid(now, sessions[sessionId].expiresAt)
      ensures r.Ok? <==> CheckForQuiz(sessions, sessionId, now).Ok?
      ensures r.Ok? ==> (r.value.AlreadyCompleted? <==> HasCompleted(sessionId, userIp))
      ensures r.Ok? && r.value.AlreadyCompleted? ==>
                exists i :: 0 <= i < |attempts| && OwnedBy(attempts[i], sessionId, userIp)
                  && attempts[i].isCompleted
                  && r.value == AlreadyCompleted(attempts[i].score.value, attempts[i].id)
      ensures r.Ok? && r.value.QuestionList? ==>
                r.value == QuestionList(sessionId, PublicList(questions), TimeLimitMs)
    {
      var check := CheckForQuiz(sessions, sessionId, now);
      if check.Err? {
        return Err(check.failure);
      }
      var found := FindAttempt(attempts, sessionId, userIp);
      forall i | 0 <= i < |attempts| && OwnedBy(attempts[i], sessionId, userIp)
        ensures found == Some(i)
      {
        FindIsTheOnlyOne(attempts, sessionId, userIp, i);
      }
      if found.Some? && attempts[found.value].isCompleted {
        var a := attempts[found.value];
        return Ok(AlreadyCompleted(a.score.value, a.id));
      }
      r := Ok(QuestionList(sessionId, PublicList(questions), TimeLimitMs));
    }

    /** POST /api/quiz/:sessionId/start for the client at `userIp`: refused for
        a missing, inactive or expired session; otherwise the client's existing
        attempt is returned, or one new open attempt is inserted under
        `freshId`. After a success the lookup by (session, address) finds the
        returned attempt, so a repeated start returns the same id. */
    method Start(sessionId: Id, userIp: string, freshId: Id, now: int) returns (r: Result<Id>)
      requires Valid()
      modifies this`attempts
      ensures Valid()
      ensures CompletedKept(old(attempts), attempts)
      ensures |attempts| <= |old(attempts)| + 1
      ensures CheckForStart(sessions, sessionId, now).Err? ==>
                r == Err(SessionInvalid) && attempts == old(attempts)
      ensures CheckForStart(sessions, sessionId, now).Ok? && FindAttempt(old(attempts), sessionId, userIp).Some? ==>
                && r == Ok(old(attempts)[FindAttempt(old(attempts), sessionId, userIp).value].id)
                && attempts == old(attempts)
      ensures CheckForStart(sessions, sessionId, now).Ok? && FindAttempt(old(attempts), sessionId, userIp).None? ==>
                if IdInUse(old(attempts), freshId) then
                  r == Err(InsertFailed) && attempts == old(attempts)
                else
                  r == Ok(freshId) && attempts == old(attempts) + [NewAttempt(freshId, sessionId, userIp, now)]
      ensures r.Ok? ==>
                FindAttempt(attempts, sessionId, userIp).Some?
                && attempts[FindAttempt(attempts, sessionId, userIp).value].id == r.value
    {
      var check := CheckForStart(sessions, sessionId, now);
      if check.Err? {
        return Err(SessionInvalid);
      }
      var existing := FindAttempt(attempts, sessionId, userIp);
      if existing.Some? {
        return Ok(attempts[existing.value].id);
      }
      if IdInUse(attempts, freshId) {
        return Err(InsertFailed);
      }
      var a := NewAttempt(freshId, sessionId, userIp, now);
      InsertKeepsLedger(attempts, sessions, a);
      attempts := attempts + [a];
      r := Ok(freshId);
    }

    /** POST /api/quiz/:sessionId/submit: only an open attempt with this id,
        session and address is accepted. It is scored against every question,
        marked completed with the score, the sheet and the time, and nothing
        else changes. A failed certificate leaves the submission successful
        with no certificate. Afterwards the same request finds no open attempt. */
    method Submit(sessionId: Id, userIp: string, attemptId: Id, answers: Answers,
                  certificateIssued: bool, now: int) returns (r: Result<Submission>)
      requires Valid()
      modifies this`attempts
      ensures Valid()
      ensures CompletedKept(old(attempts), attempts)
      ensures FindOpenAttempt(old(attempts), attemptId, sessionId, userIp).None? ==>
                r == Err(InvalidAttempt) && attempts == old(attempts)
      ensures FindOpenAttempt(old(attempts), attemptId, sessionId, userIp).Some? ==>
                var i := FindOpenAttempt(old(attempts), attemptId, sessionId, userIp).value;
                var score := Score(questions, answers);
                && attempts == old(attempts)[i := Complete(old(attempts)[i], score, answers, now)]
                && r == Ok(Submission(score, |questions|, attemptId,
                                      if certificateIssued then Some(CertificateFile(attemptId)) else None))
      ensures r.Ok? ==> r.value.score <= r.value.totalQuestions == |questions|
      ensures r.Ok? ==> FindOpenAttempt(attempts, attemptId, sessionId, userIp).None?
      ensures r.Ok? ==> exists i :: 0 <= i < |attempts| && attempts[i].id == attemptId
                          && attempts[i].isCompleted && attempts[i].score == Some(r.value.score)
    {
      var found := FindOpenAttempt(attempts, attemptId, sessionId, userIp);
      if found.None? {
        return Err(InvalidAttempt);
      }
      var i := found.value;
      var score := ComputeScore(questions, answers);
      CompleteKeepsLedger(attempts, sessions, attemptId, sessionId, userIp, score, answers, now);
      attempts := attempts[i := Complete(attempts[i], score, answers, now)];
      assert attempts[i].id == attemptId && attempts[i].score == Some(score);
      var certificate := if certificateIssued then Some(CertificateFile(attemptId)) else None;
      r := Ok(Submission(score, |questions|, attemptId, certificate));
    }

    /** GET /admin/results/:sessionId: the completed attempts of the session,
        in table order, each with the session's admin email. */
    method Results(sessionId: Id) returns (rows: seq<ResultRow>)
      requires Valid()
      ensures |rows| == |CompletedFor(attempts, sessionId)|
      ensures forall k :: 0 <= k < |rows| ==>
                rows[k].attempt == CompletedFor(attempts, sessionId)[k]
                && sessionId in sessions && rows[k].adminEmail == sessions[sessionId].adminEmail
      ensures forall k :: 0 <= k < |rows| ==>
                rows[k].attempt in attempts && rows[k].attempt.sessionId == sessionId && rows[k].attempt.isCompleted
    {
      var done := CompletedFor(attempts, sessionId);
      if sessionId in sessions {
        var email := sessions[sessionId].adminEmail;
        rows := seq(|done|, k requires 0 <= k < |done| => ResultRow(done[k], email));
      } else {
        NoSessionNoResults(attempts, sessions, sessionId);
        rows := [];
      }
      assert forall k :: 0 <= k < |rows| ==> rows[k].attempt in done;
    }

    /** GET /admin/questions: the whole bank in id order. */
    method ListQuestions() returns (qs: seq<Question>)
      requires Valid()
      ensures qs == questions
      ensures forall i, j :: 0 <= i < j < |qs| ==> qs[i].id < qs[j].id
    {
      qs := questions;
    }

    /** POST /admin/questions: validated fields are appended under the next
        AUTOINCREMENT id with the correct option lower-cased; invalid ones
        are refused and nothing changes. */
    method AddQuestion(f: QuestionFields) returns (r: Result<Question>)
      requires Valid()
      modifies this`questions, this`lastQuestionId
      ensures Valid()
      ensures Validate(f).Err? ==>
                r == Err(Validate(f).failure)
                && questions == old(questions) && lastQuestionId == old(lastQuestionId)
      ensures Validate(f).Ok? ==>
                && r == Ok(Question(old(lastQuestionId) + 1, Validate(f).value))
                && questions == old(questions) + [r.value]
                && lastQuestionId == old(lastQuestionId) + 1
      ensures r.Ok? ==> !HasQuestion(old(questions), r.value.id)
    {
      var checked := Validate(f);
      if checked.Err? {
        return Err(checked.failure);
      }
      AppendKeepsBank(questions, lastQuestionId, f);
      var q := Question(lastQuestionId + 1, checked.value);
      questions := questions + [q];
      lastQuestionId := lastQuestionId + 1;
      r := Ok(q);
    }

    /** PUT /admin/questions/:id: validation comes first; then a missing id is
        "not found"; otherwise that row takes the validated fields. */
    method UpdateQuestion(id: QuestionId, f: QuestionFields) returns (r: Result<Question>)
      requires Valid()
      modifies this`questions
      ensures Valid()
      ensures |questions| == |old(questions)|
      ensures Validate(f).Err? ==> r == Err(Validate(f).failure) && questions == old(questions)
      ensures Validate(f).Ok? && !HasQuestion(old(questions), id) ==>
                r == Err(QuestionNotFound) && questions == old(questions)
      ensures Validate(f).Ok? && HasQuestion(old(questions), id) ==>
                r == Ok(Question(id, Validate(f).value))
                && questions == Replace(old(questions), id, Validate(f).value)
    {
      var checked := Validate(f);
      if checked.Err? {
        return Err(checked.failure);
      }
      // The statement reports zero changed rows exactly when no row has this id.
      if !HasQuestion(questions, id) {
        return Err(QuestionNotFound);
      }
      ReplaceKeepsBank(questions, lastQuestionId, id, f);
      questions := Replace(questions, id, checked.value);
      r := Ok(Question(id, checked.value));
    }

    /** DELETE /admin/questions/:id: refused while the bank holds one question
        or none (whatever the id); then a missing id is "not found"; otherwise
        exactly that row goes. The bank never drops below one question. */
    method DeleteQuestion(id: QuestionId) returns (r: Result<()>)
      requires Valid()
      modifies this`questions
      ensures Valid()
      ensures |old(questions)| <= 1 ==> r == Err(LastQuestion) && questions == old(questions)
      ensures |old(questions)| > 1 && !HasQuestion(old(questions), id) ==>
                r == Err(QuestionNotFound) && questions == old(questions)
      ensures |old(questions)| > 1 && HasQuestion(old(questions), id) ==>
                && r == Ok(())
                && questions == Remove(old(questions), id)
                && |questions| == |old(questions)| - 1
                && !HasQuestion(questions, id)
      ensures |old(questions)| >= 1 ==> |questions| >= 1
    {
      if |questions| <= 1 {
        return Err(LastQuestion);
      }
      // The statement reports zero deleted rows exactly when no row has this id.
      if !HasQuestion(questions, id) {
        return Err(QuestionNotFound);
      }
      RemoveCount(questions, id);
      RemoveKeepsBank(questions, lastQuestionId, id);
      questions := Remove(questions, id);
      r := Ok(());
    }
  }

  /** Two start calls of one client on one session, one after the other: when
      both succeed they return the same attempt id, and together they insert at
      most one row. The second call fails only if the session has expired by then. */
  method StartTwice(s: QuizServer, sessionId: Id, userIp: string, id1: Id, id2: Id, now1: int, now2: int)
    returns (r1: Result<Id>, r2: Result<Id>)
    requires s.Valid()
    modifies s`attempts
    ensures s.Valid()
    ensures r1.Ok? && r2.Ok? ==> r1.value == r2.value
    ensures |s.attempts| <= |old(s.attempts)| + 1
    ensures r1.Ok? ==> (r2.Ok? <==> CheckForStart(s.sessions, sessionId, now2).Ok?)
  {
    r1 := s.Start(sessionId, userIp, id1, now1);
    r2 := s.Start(sessionId, userIp, id2, now2);
  }

  /** Two submit calls for one attempt, one after the other: after a successful
      first call the second is refused, and the score the first recorded is
      still the stored one. */
  method SubmitTwice(s: QuizServer, sessionId: Id, userIp: string, attemptId: Id,
                     answers1: Answers, answers2: Answers, cert1: bool, cert2: bool, now1: int, now2: int)
    returns (r1: Result<Submission>, r2: Result<Submission>)
    requires s.Valid()
    modifies s`attempts
    ensures s.Valid()
    ensures CompletedKept(old(s.attempts), s.attempts)
    ensures r1.Ok? ==> r2 == Err(InvalidAttempt)
    ensures r1.Ok? ==> exists i :: 0 <= i < |s.attempts| && s.attempts[i].id == attemptId
                          && s.attempts[i].isCompleted && s.attempts[i].score == Some(r1.value.score)
  {
    ghost var before := s.attempts;
    r1 := s.Submit(sessionId, userIp, attemptId, answers1, cert1, now1);
    ghost var middle := s.attempts;
    r2 := s.Submit(sessionId, userIp, attemptId, answers2, cert2, now2);
    CompletedKeptTransitive(before, middle, s.attempts);
  }
}
