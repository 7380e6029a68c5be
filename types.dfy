/** Rows of the three tables of the quiz server, the shapes of its responses,
    and the failures its handlers report. */
module QuizTypes {

  datatype Option<+T> = None | Some(value: T)

  /** A handler either answers with a value or fails with a status. */
  datatype Result<+T> = Ok(value: T) | Err(failure: Failure)

  /** Every failure a modelled handler can answer with. */
  datatype Failure =
    | SessionNotFound    // quiz page: no active session with this id
    | SessionExpired     // quiz page: the session exists but its time is over
    | SessionInvalid     // start: missing, inactive or expired, not told apart
    | InvalidAttempt     // submit: no open attempt of this session and address
    | MissingFields      // question add/update: a field is absent or empty
    | BadCorrectAnswer   // question add/update: correct option is not a..d
    | QuestionNotFound   // question update/delete: no row with this id
    | LastQuestion       // question delete: the bank holds one question or none
    | InsertFailed       // an insert collided with an existing primary key
  {
    /** The HTTP status the handler sends with this failure. */
    function Status(): int {
      match this
      case SessionNotFound => 404
      case SessionExpired => 410
      case SessionInvalid => 410
      case InvalidAttempt => 404
      case MissingFields => 400
      case BadCorrectAnswer => 400
      case QuestionNotFound => 404
      case LastQuestion => 400
      case InsertFailed => 500
    }
  }

  /** Opaque identifiers (uuids) of sessions and attempts. */
  type Id = string
  /** Question ids come from an INTEGER PRIMARY KEY AUTOINCREMENT column. */
  type QuestionId = nat
  /** A submitted answer sheet: question id to the chosen option label. */
  type Answers = map<QuestionId, string>

  /** Milliseconds a new session stays open: 24 hours. */
  const SessionLifetimeMs: int := 24 * 60 * 60 * 1000
  /** Milliseconds announced to the client as the quiz time limit: 10 minutes. */
  const TimeLimitMs: nat := 10 * 60 * 1000

  /** The text fields of a question as an admin sends them. */
  datatype QuestionFields = QuestionFields(
    text: string, optionA: string, optionB: string, optionC: string, optionD: string,
    correctAnswer: string)

  /** A row of quiz_questions. */
  datatype Question = Question(id: QuestionId, fields: QuestionFields)

  /** A question as the quiz page receives it: everything but the correct option. */
  datatype PublicQuestion = PublicQuestion(
    id: QuestionId, text: string, optionA: string, optionB: string, optionC: string, optionD: string)

  /** A row of quiz_sessions; times are milliseconds since the epoch. */
  datatype Session = Session(createdAt: int, expiresAt: int, isActive: bool, adminEmail: string)

  /** A row of quiz_attempts. */
  datatype Attempt = Attempt(
    id: Id, sessionId: Id, userIp: string, startedAt: int,
    completedAt: Option<int>, score: Option<nat>, answers: Option<Answers>,
    isCompleted: bool)

  /** Reply of create-session. */
  datatype NewSession = NewSession(sessionId: Id, quizLink: string, expiresAt: int)

  /** Reply of the quiz page query. */
  datatype QuizView =
    | AlreadyCompleted(score: nat, attemptId: Id)
    | QuestionList(sessionId: Id, questions: seq<PublicQuestion>, timeLimit: nat)

  /** Reply of submit; `certificate` is the file name, or None when issuing failed. */
  datatype Submission = Submission(score: nat, totalQuestions: nat, attemptId: Id, certificate: Option<string>)

  /** A row of the admin results: the attempt joined with its session's admin email. */
  datatype ResultRow = ResultRow(attempt: Attempt, adminEmail: string)
}
