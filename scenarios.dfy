/** Runs of the quiz session from creation, each showing a behaviour of the
    component that follows from the contracts of its events alone. */
module QuizScenarios {
  import EmailCheck
  import opened Quiz

  lemma SampleAddressIsWellFormed()
    ensures EmailCheck.IsValidEmail("a@b.com")
  {
    var s := "a@b.com";
    assert EmailCheck.IsSegment(s[..1]) && EmailCheck.IsSegment(s[2..3]) && EmailCheck.IsSegment(s[4..]);
    assert s[1] == '@' && s[3] == '.';
    EmailCheck.ValidEmailMatchesPattern(s);
  }

  /** Any address without an '@' fails the address test. */
  lemma AddressWithoutAtIsMalformed(s: string)
    requires forall k | 0 <= k < |s| :: s[k] != '@'
    ensures !EmailCheck.IsValidEmail(s)
  {
    EmailCheck.CountAbsent(s, '@');
  }

  /** A new session, started with a well-formed address and loaded with `qs`. */
  method StartedSession(address: string, qs: seq<Question>) returns (session: QuizSession)
    requires EmailCheck.IsValidEmail(address) && qs != []
    ensures fresh(session) && session.Valid() && session.OnQuestionScreen()
    ensures session.questions == qs && session.currentQuestion == 0 && session.score == 0
    ensures session.timeLeft == InitialSeconds && session.visitedQuestions == {0}
    ensures session.attemptedQuestions == {} && session.userAnswers == map[]
  {
    session := new QuizSession();
    session.SetEmail(address);
    var accepted := session.StartQuiz();
    RearrangementReflexive(Options(qs[0]));
    session.LoadQuestions(qs, Options(qs[0]));
  }

  /** A well-formed address starts the quiz; once two questions arrive the
      first one is current and the only one visited. */
  method StartWithWellFormedAddress(q0: Question, q1: Question) returns (started: bool, current: int, visited: set<int>)
    ensures started && current == 0 && visited == {0}
  {
    var session := new QuizSession();
    session.SetEmail("a@b.com");
    SampleAddressIsWellFormed();
    var accepted := session.StartQuiz();
    RearrangementReflexive(Options(q0));
    session.LoadQuestions([q0, q1], Options(q0));
    started, current, visited := session.quizStarted, session.currentQuestion, session.visitedQuestions;
  }

  /** A malformed address leaves the quiz unstarted. */
  method StartWithMalformedAddress() returns (started: bool)
    ensures !started
  {
    var session := new QuizSession();
    var address := "not-an-email";
    session.SetEmail(address);
    assert forall k | 0 <= k < |address| :: address[k] != '@';
    AddressWithoutAtIsMalformed(address);
    var accepted := session.StartQuiz();
    started := session.quizStarted;
  }

  /** On a fresh session, jumping from the first question to the third and
      answering it correctly. */
  method JumpAndAnswer(session: QuizSession)
    requires session.Valid() && session.OnQuestionScreen() && |session.questions| == 3
    requires session.currentQuestion == 0 && session.visitedQuestions == {0}
    requires session.attemptedQuestions == {} && session.score == 0 && session.timeLeft > 0
    modifies session
    ensures session.score == 1 && session.attemptedQuestions == {2} && session.visitedQuestions == {0, 2}
  {
    var q := session.questions[2];
    RearrangementReflexive(Options(q));
    session.SetCurrentQuestion(2, Options(q));
    assert session.visitedQuestions == {0, 2};
    session.HandleAnswer(q.correctAnswer, Options(q));
  }

  /** With three questions, jumping to the third and answering it correctly
      gives one point, one attempted question and two visited ones. */
  method AnswerAfterJump(address: string, q: Question) returns (score: int, attempted: set<int>, visited: set<int>)
    requires EmailCheck.IsValidEmail(address)
    ensures score == 1 && attempted == {2} && visited == {0, 2}
  {
    var session := StartedSession(address, [q, q, q]);
    JumpAndAnswer(session);
    score, attempted, visited := session.score, session.attemptedQuestions, session.visitedQuestions;
  }

  /** Letting the clock run out shows the report, and an answer given after
      that is ignored. */
  method RunOutTheClock(address: string, q0: Question) returns (timeLeft: int, reported: bool, answers: map<int, string>, score: int)
    requires EmailCheck.IsValidEmail(address)
    ensures timeLeft == 0 && reported && answers == map[] && score == 0
  {
    var session := StartedSession(address, [q0]);
    RearrangementReflexive(Options(q0));
    while session.timeLeft > 0
      invariant session.Valid() && session.quizStarted && session.questions == [q0]
      invariant session.userAnswers == map[] && session.score == 0
      decreases session.timeLeft
    {
      session.Tick();
    }
    session.HandleAnswer(q0.correctAnswer, Options(q0));
    timeLeft, reported, answers, score := session.timeLeft, session.showReport, session.userAnswers, session.score;
  }

  /** The same answer given twice on a running single-question session. */
  method AnswerTwice(session: QuizSession, answer: string)
    requires session.Valid() && session.OnQuestionScreen() && |session.questions| == 1
    requires session.timeLeft > 0 && session.score == 0 && session.userAnswers == map[]
    modifies session
    ensures session.Valid() && session.OnQuestionScreen() && session.questions == old(session.questions)
    ensures session.timeLeft > 0 && session.userAnswers == map[0 := answer]
    ensures session.score == if answer == session.questions[0].correctAnswer then 2 else 0
  {
    var q := session.questions[0];
    RearrangementReflexive(Options(q));
    session.HandleAnswer(answer, Options(q));
    session.HandleAnswer(answer, Options(q));
  }

  lemma NoCorrectAnswerOnRecord(q: Question, wrong: string)
    requires wrong != q.correctAnswer
    ensures CorrectIndices([q], map[0 := wrong]) == {}
  {
  }

  /** The score counts correct clicks, not correct answers: answering the
      only question correctly twice scores two, and changing the answer to a
      wrong one afterwards keeps both points although no answer on record is
      correct. */
  method ReanswerOvercounts(address: string, q: Question, wrong: string) returns (questionCount: nat, score: int, correctOnRecord: nat)
    requires EmailCheck.IsValidEmail(address) && wrong != q.correctAnswer
    ensures questionCount == 1 && score == 2 && correctOnRecord == 0
  {
    var session := StartedSession(address, [q]);
    AnswerTwice(session, q.correctAnswer);
    RearrangementReflexive(Options(q));
    session.HandleAnswer(wrong, Options(q));
    questionCount, score := |session.questions|, session.score;
    NoCorrectAnswerOnRecord(q, wrong);
    correctOnRecord := |CorrectIndices(session.questions, session.userAnswers)|;
  }
}
