/** The quiz of a module: the learner's answers, the submitted flag and the score,
    with the answers mirrored into a persistent store under a key per module. */
module Quiz {
  import opened Types
  import Provider

  /** The persistent key-value store in which the answers of each module are kept.
      A key that was never written reads as the empty answer map. */
  class AnswerStore {
    var entries: map<string, map<nat, nat>>

    constructor()
      ensures entries == map[]
    {
      entries := map[];
    }

    function Read(key: string): (m: map<nat, nat>)
      reads this
      ensures key in entries ==> m == entries[key]
      ensures key !in entries ==> m == map[]
    {
      if key in entries then entries[key] else map[]
    }

    method Write(key: string, value: map<nat, nat>)
      modifies this
      ensures entries == old(entries)[key := value]
    {
      entries := entries[key := value];
    }
  }

  /** The key under which a module's answers are stored: the title behind a fixed prefix,
      so two modules never share a key. */
  function AnswersKey(title: string): (key: string)
    ensures |key| == |title| + 12 && key[12..] == title
    ensures key[..12] == "quizAnswers_"
  {
    "quizAnswers_" + title
  }

  lemma AnswersKeyInjective(a: string, b: string)
    requires AnswersKey(a) == AnswersKey(b)
    ensures a == b
  {
    assert a == AnswersKey(a)[12..];
  }

  /** Question `i` has been answered, with the right option. */
  predicate IsCorrectAt(qs: seq<McqItem>, answers: map<nat, nat>, i: nat)
    requires i < |qs|
  {
    i in answers && answers[i] == qs[i].answerIndex
  }

  /** Number of correctly answered questions among the first `n`. */
  function CountCorrect(qs: seq<McqItem>, answers: map<nat, nat>, n: nat): (r: nat)
    requires n <= |qs|
    ensures r <= n
  {
    if n == 0 then 0
    else CountCorrect(qs, answers, n - 1) + (if IsCorrectAt(qs, answers, n - 1) then 1 else 0)
  }

  /** The questions among the first `n` answered correctly. */
  function CorrectSet(qs: seq<McqItem>, answers: map<nat, nat>, n: nat): set<nat>
    requires n <= |qs|
  {
    set i: nat | i < n && IsCorrectAt(qs, answers, i)
  }

  /** The counting loop counts exactly the correctly answered questions. */
  lemma {:induction false} CountCorrectIsCardinality(qs: seq<McqItem>, answers: map<nat, nat>, n: nat)
    requires n <= |qs|
    ensures CountCorrect(qs, answers, n) == |CorrectSet(qs, answers, n)|
  {
    if n == 0 {
      assert CorrectSet(qs, answers, 0) == {};
    } else {
      CountCorrectIsCardinality(qs, answers, n - 1);
      if IsCorrectAt(qs, answers, n - 1) {
        assert CorrectSet(qs, answers, n) == CorrectSet(qs, answers, n - 1) + {n - 1};
      } else {
        assert CorrectSet(qs, answers, n) == CorrectSet(qs, answers, n - 1);
      }
    }
  }

  /** Full marks exactly when every question is answered correctly. */
  lemma {:induction false} FullScoreIffAllCorrect(qs: seq<McqItem>, answers: map<nat, nat>, n: nat)
    requires n <= |qs|
    ensures CountCorrect(qs, answers, n) == n <==> forall i: nat :: i < n ==> IsCorrectAt(qs, answers, i)
  {
    if n > 0 {
      FullScoreIffAllCorrect(qs, answers, n - 1);
    }
  }

  /** Unanswered questions never count: the score is at most the number of answered questions. */
  lemma AnsweredBoundsScore(qs: seq<McqItem>, answers: map<nat, nat>, n: nat)
    requires n <= |qs|
    ensures CountCorrect(qs, answers, n) <= |set i: nat | i < n && i in answers|
  {
    CountCorrectIsCardinality(qs, answers, n);
    assert CorrectSet(qs, answers, n) <= set i: nat | i < n && i in answers;
    SubsetCardinality(CorrectSet(qs, answers, n), set i: nat | i < n && i in answers);
  }

  lemma {:induction false} SubsetCardinality(a: set<nat>, b: set<nat>)
    requires a <= b
    ensures |a| <= |b|
    decreases |b|
  {
    if a != {} {
      var x :| x in a;
      SubsetCardinality(a - {x}, b - {x});
    }
  }

  /** How one option button of a question is drawn. */
  datatype OptionLook =
    | CorrectAnswer  // after submission: the right option
    | WrongChoice    // after submission: the learner's option, when it is wrong
    | Neutral        // after submission: any other option
    | Chosen         // before submission: the learner's current option
    | Plain          // before submission: any other option

  /** The styling branches of an option button. `selected` is the learner's option
      for the question, if any. */
  function ClassifyOption(optIndex: nat, answerIndex: int, selected: Option<nat>, isSubmitted: bool): (look: OptionLook)
    ensures look == CorrectAnswer <==> isSubmitted && optIndex == answerIndex
    ensures look == WrongChoice <==>
      isSubmitted && optIndex != answerIndex && selected == Some(optIndex)
    ensures look == Chosen <==> !isSubmitted && selected == Some(optIndex)
    ensures look.CorrectAnswer? || look.WrongChoice? || look.Neutral? <==> isSubmitted
  {
    if isSubmitted then
      if optIndex == answerIndex then CorrectAnswer
      else if selected == Some(optIndex) then WrongChoice
      else Neutral
    else
      if selected == Some(optIndex) then Chosen else Plain
  }

  /** The learner's option for question `i`, or none. */
  function Selected(answers: map<nat, nat>, i: nat): (r: Option<nat>)
    ensures r.Some? <==> i in answers
    ensures r.Some? ==> r.value == answers[i]
  {
    if i in answers then Some(answers[i]) else None
  }

  /** The rationale box of a submitted question is green exactly when the question
      counts towards the score. */
  predicate RationaleIsGreen(selected: Option<nat>, answerIndex: int)
    ensures RationaleIsGreen(selected, answerIndex) ==> selected.Some? && 0 <= answerIndex
  {
    selected.Some? && selected.value == answerIndex
  }

  lemma RationaleAgreesWithScore(qs: seq<McqItem>, answers: map<nat, nat>, i: nat)
    requires i < |qs|
    ensures RationaleIsGreen(Selected(answers, i), qs[i].answerIndex) <==> IsCorrectAt(qs, answers, i)
  {
  }

  /** After submission at most one option of a question is marked wrong, none when the
      learner's option is right, and the right option is the only one marked right. */
  lemma SubmittedMarks(answerIndex: int, selected: Option<nat>, i: nat, j: nat)
    ensures (ClassifyOption(i, answerIndex, selected, true) == WrongChoice &&
             ClassifyOption(j, answerIndex, selected, true) == WrongChoice) ==> i == j
    ensures (ClassifyOption(i, answerIndex, selected, true) == CorrectAnswer &&
             ClassifyOption(j, answerIndex, selected, true) == CorrectAnswer) ==> i == j
    ensures RationaleIsGreen(selected, answerIndex) ==> ClassifyOption(i, answerIndex, selected, true) != WrongChoice
  {
  }

  /** The quiz pane shows questions only when the bundle has some. */
  predicate HasQuiz(m: SyllabusModule) {
    |m.quizMcq| != 0 || |m.quizShort| != 0
  }

  /** Only the respiratory-system module has a quiz; every placeholder bundle shows
      that no quiz is available. */
  lemma QuizAvailability(moduleName: string, language: Language)
    ensures HasQuiz(Provider.GenerateModuleContent(moduleName, language)) <==>
      moduleName == Provider.RespiratorySystem
  {
  }

  /** The quiz state of the module on screen. */
  class QuizSession {
    const store: AnswerStore
    var moduleTitle: string
    var quizMcq: seq<McqItem>
    var answers: map<nat, nat>
    var isSubmitted: bool
    var score: nat

    /** The answers on screen are the stored answers of the module, and a score is only
        shown after submission and never exceeds the number of questions. */
    ghost predicate Valid()
      reads this, store
    {
      && answers == store.Read(AnswersKey(moduleTitle))
      && score <= |quizMcq|
      && (!isSubmitted ==> score == 0)
    }

    /** The quiz opens on the stored answers, unsubmitted. */
    constructor(store: AnswerStore, title: string, mcqs: seq<McqItem>)
      ensures Valid()
      ensures this.store == store && moduleTitle == title && quizMcq == mcqs
      ensures answers == store.Read(AnswersKey(title)) && !isSubmitted && score == 0
    {
      this.store := store;
      moduleTitle := title;
      quizMcq := mcqs;
      answers := store.Read(AnswersKey(title));
      isSubmitted := false;
      score := 0;
    }

    /** `handleSelectAnswer`: record the option and persist the whole answer map. */
    method HandleSelectAnswer(questionIndex: nat, answerIndex: nat)
      requires Valid()
      modifies this, store
      ensures Valid()
      ensures answers == old(answers)[questionIndex := answerIndex]
      ensures forall i :: i != questionIndex ==> Selected(answers, i) == Selected(old(answers), i)
      ensures store.entries == old(store.entries)[AnswersKey(moduleTitle) := answers]
      ensures moduleTitle == old(moduleTitle) && quizMcq == old(quizMcq)
      ensures isSubmitted == old(isSubmitted) && score == old(score)
    {
      var newAnswers := answers[questionIndex := answerIndex];
      answers := newAnswers;
      store.Write(AnswersKey(moduleTitle), newAnswers);
    }

    /** A click on an option button: ignored once the quiz is submitted. */
    method ClickOption(questionIndex: nat, answerIndex: nat)
      requires Valid()
      modifies this, store
      ensures Valid()
      ensures old(isSubmitted) ==> answers == old(answers) && store.entries == old(store.entries)
      ensures !old(isSubmitted) ==> answers == old(answers)[questionIndex := answerIndex]
      ensures !old(isSubmitted) ==> store.entries == old(store.entries)[AnswersKey(moduleTitle) := answers]
      ensures moduleTitle == old(moduleTitle) && quizMcq == old(quizMcq)
      ensures isSubmitted == old(isSubmitted) && score == old(score)
    {
      if !isSubmitted {
        HandleSelectAnswer(questionIndex, answerIndex);
      }
    }

    /** `handleSubmit`: count the questions whose stored option is the right one. */
    method Submit()
      requires Valid()
      modifies this`score, this`isSubmitted
      ensures Valid()
      ensures isSubmitted && score == CountCorrect(quizMcq, answers, |quizMcq|)
    {
      var currentScore := 0;
      for i := 0 to |quizMcq|
        invariant currentScore == CountCorrect(quizMcq, answers, i)
      {
        if i in answers && answers[i] == quizMcq[i].answerIndex {
          currentScore := currentScore + 1;
        }
      }
      score := currentScore;
      isSubmitted := true;
    }

    /** `handleReset`: clear the answers on screen and in the store. */
    method HandleReset()
      requires Valid()
      modifies this, store
      ensures Valid()
      ensures answers == map[] && !isSubmitted && score == 0
      ensures store.entries == old(store.entries)[AnswersKey(moduleTitle) := map[]]
      ensures moduleTitle == old(moduleTitle) && quizMcq == old(quizMcq)
    {
      answers := map[];
      store.Write(AnswersKey(moduleTitle), map[]);
      isSubmitted := false;
      score := 0;
    }

    /** The effect that runs when another module is shown: the answers are read back
        from the new module's key, and the submitted flag and the score start over. */
    method ReloadForModule(title: string, mcqs: seq<McqItem>)
      requires Valid()
      modifies this
      ensures Valid()
      ensures moduleTitle == title && quizMcq == mcqs
      ensures answers == store.Read(AnswersKey(title)) && !isSubmitted && score == 0
    {
      moduleTitle := title;
      quizMcq := mcqs;
      answers := store.Read(AnswersKey(title));
      isSubmitted := false;
      score := 0;
    }
  }

  /** Submitting a second time gives the same score, since submission leaves the answers alone. */
  method SubmitTwice(q: QuizSession) returns (first: nat, second: nat)
    requires q.Valid()
    modifies q
    ensures first == second == CountCorrect(q.quizMcq, q.answers, |q.quizMcq|)
  {
    q.Submit();
    first := q.score;
    q.Submit();
    second := q.score;
  }

  /** Leaving a module and coming back restores its answers, but not its submission. */
  method LeaveAndReturn(q: QuizSession, other: string, otherMcqs: seq<McqItem>)
    requires q.Valid() && other != q.moduleTitle
    modifies q, q.store
    ensures q.Valid() && q.moduleTitle == old(q.moduleTitle) && q.quizMcq == old(q.quizMcq)
    ensures q.answers == old(q.answers) && !q.isSubmitted && q.score == 0
  {
    if AnswersKey(other) == AnswersKey(q.moduleTitle) {
      AnswersKeyInjective(other, q.moduleTitle);
    }
    var title := q.moduleTitle;
    var mcqs := q.quizMcq;
    q.ReloadForModule(other, otherMcqs);
    q.HandleReset();
    q.ReloadForModule(title, mcqs);
  }
}
