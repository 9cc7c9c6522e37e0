/** The quiz session held by the `App` component: a start gate on the address,
    a count-down clock, free navigation among the questions with per-question
    visit and attempt tracking, answer recording and an increment-only score.
    Each method is one event of the user interface (or one timer tick)
    together with the effects React runs because of it. */
module Quiz {
  import EmailCheck

  datatype Option<T> = None | Some(value: T)

  /** One question of the bank; question and answer texts are opaque. */
  datatype Question = Question(text: string, correctAnswer: string, incorrectAnswers: seq<string>)

  /** The option list built for a question before shuffling: the wrong answers, then the right one. */
  function Options(q: Question): (r: seq<string>)
    ensures |r| == |q.incorrectAnswers| + 1
    ensures r[..|r| - 1] == q.incorrectAnswers && r[|r| - 1] == q.correctAnswer
  {
    q.incorrectAnswers + [q.correctAnswer]
  }

  /** `b` with its first occurrence of `x` taken out (unchanged when there is none). */
  function RemoveOne(b: seq<string>, x: string): seq<string> {
    if b == [] then [] else if b[0] == x then b[1..] else [b[0]] + RemoveOne(b[1..], x)
  }

  lemma {:induction false} RemoveOneMultiset(b: seq<string>, x: string)
    ensures x in b ==> multiset(RemoveOne(b, x)) == multiset(b) - multiset{x}
    ensures x !in b ==> RemoveOne(b, x) == b
  {
    if b != [] {
      assert b == [b[0]] + b[1..];
      RemoveOneMultiset(b[1..], x);
    }
  }

  /** `a` lists the elements of `b` in some order: matching each element of
      `a` in turn against one occurrence in what is left of `b` uses `b` up. */
  predicate IsRearrangement(a: seq<string>, b: seq<string>) {
    if a == [] then b == [] else a[0] in b && IsRearrangement(a[1..], RemoveOne(b, a[0]))
  }

  /** The matching succeeds exactly when the two sequences hold the same
      elements, each as often. */
  lemma {:induction false} RearrangementIsSameMultiset(a: seq<string>, b: seq<string>)
    ensures IsRearrangement(a, b) <==> multiset(a) == multiset(b)
  {
    if a == [] {
      if multiset(b) == multiset{} {
        assert |b| == |multiset(b)| == 0;
      }
    } else {
      assert a == [a[0]] + a[1..];
      RemoveOneMultiset(b, a[0]);
      RearrangementIsSameMultiset(a[1..], RemoveOne(b, a[0]));
      if multiset(a) == multiset(b) {
        assert a[0] in multiset(b);
      }
    }
  }

  lemma {:induction false} RearrangementReflexive(s: seq<string>)
    ensures IsRearrangement(s, s)
  {
    RearrangementIsSameMultiset(s, s);
  }

  /** An order the random sort may give the options: a rearrangement of them, no more and no fewer. */
  predicate IsShuffleOf(perm: seq<string>, q: Question) {
    IsRearrangement(perm, Options(q))
  }

  /** `userAnswers[i] || null`: the recorded answer, where a missing one and
      the empty string (falsy in JavaScript) both give no selection. */
  function RestoredSelection(answers: map<int, string>, i: int): (r: Option<string>)
    ensures r.Some? <==> i in answers && answers[i] != ""
    ensures r.Some? ==> r.value == answers[i]
  {
    if i in answers && answers[i] != "" then Some(answers[i]) else None
  }

  /** The indices whose recorded answer is that question's correct answer. */
  function CorrectIndices(qs: seq<Question>, answers: map<int, string>): set<int> {
    set i | i in answers && 0 <= i < |qs| && answers[i] == qs[i].correctAnswer
  }

  lemma SubsetSize<T>(a: set<T>, b: set<T>)
    requires a <= b
    ensures |a| <= |b|
  {
    assert b == a + (b - a);
  }

  /** How many of the questions `qs` have their correct answer on record,
      counted from the last question back. */
  function CorrectCount(qs: seq<Question>, answers: map<int, string>): nat {
    if qs == [] then 0
    else
      var c := |qs| - 1;
      CorrectCount(qs[..c], answers) + (if c in answers && answers[c] == qs[c].correctAnswer then 1 else 0)
  }

  /** The count is the number of correctly answered indices. */
  lemma {:induction false} CorrectCountIsSize(qs: seq<Question>, answers: map<int, string>)
    ensures CorrectCount(qs, answers) == |CorrectIndices(qs, answers)|
  {
    if qs != [] {
      var c := |qs| - 1;
      var front := qs[..c];
      CorrectCountIsSize(front, answers);
      var before := CorrectIndices(front, answers);
      if c in answers && answers[c] == qs[c].correctAnswer {
        assert CorrectIndices(qs, answers) == before + {c};
      } else {
        assert CorrectIndices(qs, answers) == before;
      }
    }
  }

  lemma {:induction false} CorrectCountNoAnswers(qs: seq<Question>)
    ensures CorrectCount(qs, map[]) == 0
  {
    if qs != [] {
      CorrectCountNoAnswers(qs[..|qs| - 1]);
    }
  }

  /** An answer recorded for an index outside `qs` does not change the count. */
  lemma {:induction false} CorrectCountBeyond(qs: seq<Question>, answers: map<int, string>, c: int, a: string)
    requires c >= |qs|
    ensures CorrectCount(qs, answers[c := a]) == CorrectCount(qs, answers)
  {
    if qs != [] {
      CorrectCountBeyond(qs[..|qs| - 1], answers, c, a);
    }
  }

  /** Recording answer `a` for question `c` adds at most one correctly
      answered question, and none unless `a` is the correct answer. */
  lemma {:induction false} RecordingAnswerBound(qs: seq<Question>, answers: map<int, string>, c: int, a: string)
    requires 0 <= c < |qs|
    ensures CorrectCount(qs, answers[c := a])
      <= CorrectCount(qs, answers) + (if a == qs[c].correctAnswer then 1 else 0)
  {
    var last := |qs| - 1;
    if c == last {
      CorrectCountBeyond(qs[..last], answers, c, a);
    } else {
      RecordingAnswerBound(qs[..last], answers, c, a);
    }
  }

  /** The numbers 0 .. n-1. */
  function IndexRange(n: nat): (r: set<int>)
    ensures forall i :: i in r <==> 0 <= i < n
    ensures |r| == n
  {
    if n == 0 then {} else
      var r := IndexRange(n - 1) + {n - 1};
      assert n - 1 !in IndexRange(n - 1);
      r
  }

  /** The colour-coded state of a question button. */
  datatype VisitState = NotViewed | Viewed | Attempted

  /** Attempted takes precedence over Viewed, which takes precedence over Not Viewed. */
  function VisitStateOf(i: int, visited: set<int>, attempted: set<int>): (v: VisitState)
    ensures v == Attempted <==> i in attempted
    ensures v == Viewed <==> i in visited && i !in attempted
    ensures v == NotViewed <==> i !in visited && i !in attempted
  {
    if i in attempted then Attempted else if i in visited then Viewed else NotViewed
  }

  /** The button background as the source computes it: a default, overwritten
      when the question was visited, and again when it was attempted. */
  function ButtonColour(isVisited: bool, isAttempted: bool): string {
    var bg := "#ccc";
    var bg := if isVisited then "#3498db" else bg;
    if isAttempted then "#2ecc71" else bg
  }

  /** The colour the legend above the buttons gives each state. */
  function LegendColour(v: VisitState): string {
    match v
    case NotViewed => "#ccc"
    case Viewed => "#3498db"
    case Attempted => "#2ecc71"
  }

  /** The overwriting assignments paint every button in the legend colour of
      its state, and no two states share a colour. */
  lemma ButtonShowsVisitState(i: int, visited: set<int>, attempted: set<int>, other: VisitState)
    ensures ButtonColour(i in visited, i in attempted) == LegendColour(VisitStateOf(i, visited, attempted))
    ensures LegendColour(other) == LegendColour(VisitStateOf(i, visited, attempted))
      ==> other == VisitStateOf(i, visited, attempted)
  {
    assert "#ccc" != "#3498db" && "#ccc" != "#2ecc71" && "#3498db" != "#2ecc71" by {
      assert "#ccc"[1] != "#3498db"[1] && "#ccc"[1] != "#2ecc71"[1] && "#3498db"[1] != "#2ecc71"[1];
    }
  }

  /** `Math.max` and `Math.min` on integers. */
  function Max(a: int, b: int): int { if a >= b then a else b }
  function Min(a: int, b: int): int { if a <= b then a else b }

  /** The target of Previous, `Math.max(0, current - 1)`: one step back, but never before the first question. */
  function PreviousIndex(current: int): (r: int)
    ensures 0 <= current ==> 0 <= r <= current
    ensures 0 <= current ==> (r == current <==> current == 0)
    ensures 0 < current ==> r == current - 1
  {
    Max(0, current - 1)
  }

  /** The target of Next, `Math.min(count - 1, current + 1)`: one step on, but never past the last question. */
  function NextIndex(current: int, count: int): (r: int)
    ensures 0 <= current < count ==> current <= r < count
    ensures 0 <= current < count ==> (r == current <==> current == count - 1)
    ensures 0 <= current < count - 1 ==> r == current + 1
  {
    Min(count - 1, current + 1)
  }

  /** Seconds on the clock when the session is created. */
  const InitialSeconds: int := 1800

  class QuizSession {
    var email: string
    var quizStarted: bool
    var questions: seq<Question>
    var currentQuestion: int
    var score: int
    var timeLeft: int
    var showReport: bool
    var visitedQuestions: set<int>
    var attemptedQuestions: set<int>
    var userAnswers: map<int, string>
    var shuffledAnswers: seq<string>
    var selectedAnswer: Option<string>

    /** What holds between events, including right after an index change and
        before the current-question effect has caught up with it. */
    ghost predicate Consistent()
      reads this
    {
      && 0 <= timeLeft <= InitialSeconds
      && (timeLeft == 0 ==> showReport)
      && (!quizStarted ==> questions == [])
      && 0 <= currentQuestion
      && (questions == [] ==> currentQuestion == 0 && userAnswers == map[])
      && (questions != [] ==> currentQuestion < |questions|)
      && (forall i | i in visitedQuestions :: 0 <= i < |questions|)
      && attemptedQuestions <= visitedQuestions
      && userAnswers.Keys == attemptedQuestions
      && CorrectCount(questions, userAnswers) <= score
    }

    /** What the current-question effect establishes: the current question is
        visited, its options are on display in some order, and the selection
        is its recorded answer. */
    ghost predicate Synced()
      reads this
      requires Consistent() && questions != []
    {
      && currentQuestion in visitedQuestions
      && IsShuffleOf(shuffledAnswers, questions[currentQuestion])
      && selectedAnswer == RestoredSelection(userAnswers, currentQuestion)
    }

    ghost predicate Valid()
      reads this
    {
      Consistent() && (questions != [] ==> Synced())
    }

    /** The question screen is on display (neither the start form, nor the
        loading notice, nor the report): only then are the navigation and
        answer buttons there to be pressed. */
    predicate OnQuestionScreen()
      reads this
    {
      quizStarted && questions != [] && !showReport
    }

    /** The initial values of the component's state. */
    constructor ()
      ensures Valid()
      ensures email == "" && !quizStarted && questions == [] && currentQuestion == 0
      ensures score == 0 && timeLeft == InitialSeconds && !showReport
      ensures visitedQuestions == {} && attemptedQuestions == {} && userAnswers == map[]
      ensures shuffledAnswers == [] && selectedAnswer == None
    {
      email, quizStarted, questions, currentQuestion := "", false, [], 0;
      score, timeLeft, showReport := 0, InitialSeconds, false;
      visitedQuestions, attemptedQuestions, userAnswers := {}, {}, map[];
      shuffledAnswers, selectedAnswer := [], None;
    }

    /** Typing in the address field. */
    method SetEmail(e: string)
      requires Valid()
      modifies this`email
      ensures Valid() && email == e
    {
      email := e;
    }

    /** `startQuiz`: a malformed address leaves the session as it was (the
        user sees an alert); a well-formed one starts the quiz. */
    method StartQuiz() returns (accepted: bool)
      requires Valid()
      modifies this`quizStarted
      ensures Valid()
      ensures accepted == EmailCheck.IsValidEmail(email)
      ensures accepted ==> quizStarted
      ensures !accepted ==> quizStarted == old(quizStarted)
    {
      accepted := EmailCheck.IsValidEmail(email);
      if !accepted {
        return;
      }
      quizStarted := true;
    }

    /** The effect on the current question, run whenever the index, the
        started flag, the question list or the answers change: mark the
        question visited, show its options in the order `perm` (the outcome
        of the random sort) and restore its recorded answer as the selection. */
    method CurrentQuestionEffect(perm: seq<string>)
      requires Consistent()
      requires quizStarted && questions != [] ==> IsShuffleOf(perm, questions[currentQuestion])
      modifies this`visitedQuestions, this`shuffledAnswers, this`selectedAnswer
      ensures Valid()
      ensures old(visitedQuestions) <= visitedQuestions
      ensures quizStarted && questions != [] ==>
        && visitedQuestions == old(visitedQuestions) + {currentQuestion}
        && shuffledAnswers == perm
        && selectedAnswer == RestoredSelection(userAnswers, currentQuestion)
      ensures !(quizStarted && questions != []) ==>
        && visitedQuestions == old(visitedQuestions)
        && shuffledAnswers == old(shuffledAnswers)
        && selectedAnswer == old(selectedAnswer)
    {
      if quizStarted && |questions| > 0 {
        visitedQuestions := visitedQuestions + {currentQuestion};
        if currentQuestion < |questions| {
          shuffledAnswers := perm;
          selectedAnswer := RestoredSelection(userAnswers, currentQuestion);
        }
      }
    }

    /** The question bank answers the request sent once the quiz started. A
        non-empty list brings up question 0; an empty one leaves the loading
        notice on screen. */
    method LoadQuestions(qs: seq<Question>, perm: seq<string>)
      requires Valid() && quizStarted && questions == []
      requires qs != [] ==> IsShuffleOf(perm, qs[0])
      modifies this`questions, this`visitedQuestions, this`shuffledAnswers, this`selectedAnswer
      ensures Valid()
      ensures questions == qs && currentQuestion == 0
      ensures old(visitedQuestions) == {} && old(visitedQuestions) <= visitedQuestions
      ensures qs != [] ==> visitedQuestions == {0} && shuffledAnswers == perm && selectedAnswer == None
      ensures qs == [] ==>
        && visitedQuestions == old(visitedQuestions)
        && shuffledAnswers == old(shuffledAnswers)
        && selectedAnswer == old(selectedAnswer)
    {
      assert visitedQuestions == {} by {
        forall i | i in visitedQuestions ensures false {
        }
      }
      CorrectCountNoAnswers(qs);
      questions := qs;
      CurrentQuestionEffect(perm);
    }

    /** One second of the interval timer, which exists only once the quiz has
        started. At one second or less the clock stops at zero and the report
        is shown; otherwise one second is taken off. */
    method Tick()
      requires Valid() && quizStarted
      modifies this`timeLeft, this`showReport
      ensures Valid()
      ensures old(timeLeft) > 1 ==> timeLeft == old(timeLeft) - 1 && showReport == old(showReport)
      ensures old(timeLeft) <= 1 ==> timeLeft == 0 && showReport
      ensures 0 <= timeLeft <= old(timeLeft)
      ensures old(timeLeft) > 0 ==> timeLeft < old(timeLeft)
    {
      if timeLeft <= 1 {
        showReport := true;
        timeLeft := 0;
      } else {
        timeLeft := timeLeft - 1;
      }
    }

    /** `handleAnswer`: nothing at all happens once the report is shown or the
        clock is at zero. Otherwise the answer is recorded for the current
        question, the question becomes attempted and the score goes up by one
        if the answer is correct; it never goes down. The changed answers make
        the current-question effect run again, with a new order `perm`. */
    method HandleAnswer(answer: string, perm: seq<string>)
      requires Valid() && questions != []
      requires IsShuffleOf(perm, questions[currentQuestion])
      modifies this`userAnswers, this`selectedAnswer, this`attemptedQuestions, this`score
      modifies this`visitedQuestions, this`shuffledAnswers
      ensures Valid()
      ensures old(showReport || timeLeft == 0) ==> unchanged(this)
      ensures !old(showReport || timeLeft == 0) ==>
        && userAnswers == old(userAnswers)[currentQuestion := answer]
        && attemptedQuestions == old(attemptedQuestions) + {currentQuestion}
        && score == old(score) + (if answer == questions[currentQuestion].correctAnswer then 1 else 0)
        && visitedQuestions == old(visitedQuestions)
        && shuffledAnswers == perm
        && selectedAnswer == (if answer == "" then None else Some(answer))
      ensures old(score) <= score
    {
      if showReport || timeLeft == 0 {
        return;
      }
      RecordAnswer(answer);
      CurrentQuestionEffect(perm);
    }

    /** The state updates of `handleAnswer` past its guard, before any effect runs. */
    method RecordAnswer(answer: string)
      requires Consistent() && questions != [] && currentQuestion in visitedQuestions
      modifies this`userAnswers, this`selectedAnswer, this`attemptedQuestions, this`score
      ensures Consistent()
      ensures userAnswers == old(userAnswers)[currentQuestion := answer]
      ensures attemptedQuestions == old(attemptedQuestions) + {currentQuestion}
      ensures score == old(score) + (if answer == questions[currentQuestion].correctAnswer then 1 else 0)
      ensures selectedAnswer == Some(answer)
    {
      RecordingAnswerBound(questions, userAnswers, currentQuestion, answer);
      userAnswers := userAnswers[currentQuestion := answer];
      selectedAnswer := Some(answer);
      attemptedQuestions := attemptedQuestions + {currentQuestion};
      if answer == questions[currentQuestion].correctAnswer {
        score := score + 1;
      }
    }

    /** `submitQuiz`: show the report, whatever has been answered. */
    method SubmitQuiz()
      requires Valid()
      modifies this`showReport
      ensures Valid() && showReport
    {
      showReport := true;
    }

    /** `setCurrentQuestion(i)`, as the numbered buttons call it. Setting the
        index it already has changes nothing (React keeps the state and runs no
        effect); a new index is made current and the current-question effect
        runs for it. */
    method SetCurrentQuestion(i: int, perm: seq<string>)
      requires Valid() && OnQuestionScreen()
      requires 0 <= i < |questions| && IsShuffleOf(perm, questions[i])
      modifies this`currentQuestion, this`visitedQuestions, this`shuffledAnswers, this`selectedAnswer
      ensures Valid() && currentQuestion == i
      ensures i == old(currentQuestion) ==> unchanged(this)
      ensures old(visitedQuestions) <= visitedQuestions
      ensures i != old(currentQuestion) ==>
        && visitedQuestions == old(visitedQuestions) + {i}
        && shuffledAnswers == perm
        && selectedAnswer == RestoredSelection(userAnswers, i)
    {
      if i == currentQuestion {
        return;
      }
      currentQuestion := i;
      CurrentQuestionEffect(perm);
    }

    /** The Previous button: one question back, staying on the first one. */
    method Previous(perm: seq<string>)
      requires Valid() && OnQuestionScreen()
      requires IsShuffleOf(perm, questions[PreviousIndex(currentQuestion)])
      modifies this`currentQuestion, this`visitedQuestions, this`shuffledAnswers, this`selectedAnswer
      ensures Valid() && 0 <= currentQuestion < |questions|
      ensures currentQuestion == PreviousIndex(old(currentQuestion))
      ensures old(currentQuestion) == 0 ==> unchanged(this)
      ensures old(visitedQuestions) <= visitedQuestions
      ensures old(currentQuestion) != 0 ==>
        && visitedQuestions == old(visitedQuestions) + {currentQuestion}
        && shuffledAnswers == perm
        && selectedAnswer == RestoredSelection(userAnswers, currentQuestion)
    {
      SetCurrentQuestion(PreviousIndex(currentQuestion), perm);
    }

    /** The Next button: one question on, staying on the last one. */
    method Next(perm: seq<string>)
      requires Valid() && OnQuestionScreen()
      requires IsShuffleOf(perm, questions[NextIndex(currentQuestion, |questions|)])
      modifies this`currentQuestion, this`visitedQuestions, this`shuffledAnswers, this`selectedAnswer
      ensures Valid() && 0 <= currentQuestion < |questions|
      ensures currentQuestion == NextIndex(old(currentQuestion), |questions|)
      ensures old(currentQuestion) == |questions| - 1 ==> unchanged(this)
      ensures old(visitedQuestions) <= visitedQuestions
      ensures old(currentQuestion) != |questions| - 1 ==>
        && visitedQuestions == old(visitedQuestions) + {currentQuestion}
        && shuffledAnswers == perm
        && selectedAnswer == RestoredSelection(userAnswers, currentQuestion)
    {
      SetCurrentQuestion(NextIndex(currentQuestion, |questions|), perm);
    }

    /** The state a question button shows: it is coloured at all exactly when
        the question has been visited, and green exactly when it has an
        answer. */
    function VisitStateAt(i: int): (v: VisitState)
      reads this
      requires Valid()
      ensures v != NotViewed <==> i in visitedQuestions
      ensures v == Attempted <==> i in userAnswers
    {
      VisitStateOf(i, visitedQuestions, attemptedQuestions)
    }

    /** The "Answered" counter, which never exceeds the number of questions. */
    function AnsweredCount(): (n: nat)
      reads this
      requires Valid()
      ensures n == |userAnswers| && n <= |questions|
    {
      SubsetSize(attemptedQuestions, IndexRange(|questions|));
      |attemptedQuestions|
    }
  }
}
