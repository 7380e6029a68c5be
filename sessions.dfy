/** Session validity: the one comparison every session-touching handler uses,
    the expiry a new session gets, and the two lookups built on them. */
module Sessions {
  import opened QuizTypes

  /** A session is open strictly before its expiry instant: the expiry
      instant itself and every later one are already past it. */
  function IsSessionValid(now: int, expiresAt: int): (valid: bool)
    ensures valid ==> now < expiresAt
    ensures !valid ==> expiresAt <= now
  {
    now < expiresAt
  }

  /** The expiry given to a session created at `createdAt`. */
  function ExpiryFor(createdAt: int): (expiresAt: int)
    ensures createdAt < expiresAt
    ensures IsSessionValid(createdAt, expiresAt)
    ensures !IsSessionValid(expiresAt, expiresAt)
    ensures expiresAt - createdAt == SessionLifetimeMs
  {
    createdAt + SessionLifetimeMs
  }

  /** The session exists and is flagged active. */
  predicate IsActive(sessions: map<Id, Session>, id: Id) {
    id in sessions && sessions[id].isActive
  }

  /** The check of the quiz page: a missing or inactive session is "not found",
      an active one past its expiry is "expired", two distinct outcomes. */
  function CheckForQuiz(sessions: map<Id, Session>, id: Id, now: int): (r: Result<Session>)
    ensures r == Err(SessionNotFound) <==> !IsActive(sessions, id)
    ensures r == Err(SessionExpired) <==> IsActive(sessions, id) && !IsSessionValid(now, sessions[id].expiresAt)
    ensures r.Ok? <==> IsActive(sessions, id) && IsSessionValid(now, sessions[id].expiresAt)
    ensures r.Ok? ==> r.value == sessions[id]
  {
    if !IsActive(sessions, id) then Err(SessionNotFound)
    else if !IsSessionValid(now, sessions[id].expiresAt) then Err(SessionExpired)
    else Ok(sessions[id])
  }

  /** The check of start: the same conditions, reported as one outcome. */
  function CheckForStart(sessions: map<Id, Session>, id: Id, now: int): (r: Result<Session>)
    ensures r.Err? ==> r.failure == SessionInvalid
  {
    if !IsActive(sessions, id) || !IsSessionValid(now, sessions[id].expiresAt) then Err(SessionInvalid)
    else Ok(sessions[id])
  }

  /** Start admits a session exactly when the quiz page does, with the same row. */
  lemma StartCheckAgreesWithQuizCheck(sessions: map<Id, Session>, id: Id, now: int)
    ensures CheckForStart(sessions, id, now).Ok? <==> CheckForQuiz(sessions, id, now).Ok?
    ensures CheckForStart(sessions, id, now).Ok? ==> CheckForStart(sessions, id, now) == CheckForQuiz(sessions, id, now)
  {
  }

  /** A session created at `createdAt` is accepted exactly during the 24 hours
      after creation and is reported expired, never missing, afterwards. */
  lemma {:induction false} FreshSessionWindow(sessions: map<Id, Session>, id: Id, createdAt: int, email: string, now: int)
    requires id in sessions && sessions[id] == Session(createdAt, ExpiryFor(createdAt), true, email)
    ensures CheckForQuiz(sessions, id, now).Ok? <==> now < createdAt + SessionLifetimeMs
    ensures CheckForQuiz(sessions, id, now).Err? ==> CheckForQuiz(sessions, id, now).failure == SessionExpired
    ensures CheckForQuiz(sessions, id, createdAt).Ok?
  {
  }
}
