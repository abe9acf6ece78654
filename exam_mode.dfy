/**
 * The final-exam runner on the client: it draws up to 20 questions, counts down 20 minutes,
 * records one answer per question position, warns about unanswered questions before
 * finishing, and scores the exam (18 correct answers pass).
 *
 * `ExamSession` holds the component's state; its methods are the timer tick and the event
 * handlers. The shuffle of the question list is an input: the order `sort(() => Math.random()
 * - 0.5)` put the questions in.
 */
module ExamMode {
  import opened Text

  /** The exam is at most this many questions long. */
  const ExamLength: nat := 20

  /** The clock starts at 20 minutes, in seconds. */
  const Duration: nat := 1200

  /** Correct answers needed to pass. */
  const PassMark: nat := 18

  datatype Question = Question(id: string, question: string, options: seq<string>, correctAnswer: int)

  function Min(a: nat, b: nat): nat {
    if a <= b then a else b
  }

  /** A rearrangement of the positions `0 .. n - 1`, each exactly once. */
  predicate IsPermutation(order: seq<nat>, n: nat) {
    && |order| == n
    && (forall i :: 0 <= i < |order| ==> order[i] < n)
    && (forall i, j :: 0 <= i < j < |order| ==> order[i] != order[j])
  }

  /**
   * `[...questions].sort(random).slice(0, 20)`: the first 20 questions of the shuffled list,
   * or all of them when there are fewer; the questions at that many distinct positions.
   */
  function ChooseExamQuestions(questions: seq<Question>, order: seq<nat>): (r: seq<Question>)
    requires IsPermutation(order, |questions|)
    ensures |r| == Min(ExamLength, |questions|)
    ensures forall i :: 0 <= i < |r| ==> r[i] == questions[order[i]]
  {
    seq(Min(ExamLength, |questions|), i requires 0 <= i < Min(ExamLength, |questions|) => questions[order[i]])
  }

  /** The questions at distinct positions of a list are a part of it: no question is drawn more often than it occurs. */
  lemma ChosenIsSubMultiset(questions: seq<Question>, order: seq<nat>)
    requires IsPermutation(order, |questions|)
    ensures multiset(ChooseExamQuestions(questions, order)) <= multiset(questions)
  {
    var r := ChooseExamQuestions(questions, order);
    PickSubMultiset(questions, order[..|r|]);
    PickedAt(questions, order[..|r|]);
    assert r == Picked(questions, order[..|r|]);
  }

  /** The elements at the given positions, in the order of the positions. */
  function Picked(xs: seq<Question>, idx: seq<nat>): (r: seq<Question>)
    requires forall i :: 0 <= i < |idx| ==> idx[i] < |xs|
    ensures |r| == |idx|
  {
    if idx == [] then [] else Picked(xs, idx[..|idx| - 1]) + [xs[idx[|idx| - 1]]]
  }

  lemma {:induction false} PickedAt(xs: seq<Question>, idx: seq<nat>)
    requires forall i :: 0 <= i < |idx| ==> idx[i] < |xs|
    ensures forall i :: 0 <= i < |idx| ==> Picked(xs, idx)[i] == xs[idx[i]]
  {
    if idx != [] {
      PickedAt(xs, idx[..|idx| - 1]);
    }
  }

  /** The elements of `xs` at the positions outside `ps`. */
  function Outside(xs: seq<Question>, ps: set<nat>): multiset<Question>
  {
    if xs == [] then multiset{}
    else Outside(xs[..|xs| - 1], ps) + (if |xs| - 1 in ps then multiset{} else multiset{xs[|xs| - 1]})
  }

  lemma {:induction false} OutsideNone(xs: seq<Question>)
    ensures Outside(xs, {}) == multiset(xs)
  {
    if xs != [] {
      OutsideNone(xs[..|xs| - 1]);
      assert xs == xs[..|xs| - 1] + [xs[|xs| - 1]];
    }
  }

  /** Positions past the end take nothing out. */
  lemma {:induction false} OutsideBeyond(xs: seq<Question>, ps: set<nat>, p: nat)
    requires p >= |xs|
    ensures Outside(xs, ps + {p}) == Outside(xs, ps)
  {
    if xs != [] {
      OutsideBeyond(xs[..|xs| - 1], ps, p);
    }
  }

  /** Taking one more position out removes exactly its element. */
  lemma {:induction false} OutsideAdd(xs: seq<Question>, ps: set<nat>, p: nat)
    requires p < |xs| && p !in ps
    ensures Outside(xs, ps) == Outside(xs, ps + {p}) + multiset{xs[p]}
  {
    var init := xs[..|xs| - 1];
    var last := |xs| - 1;
    if p < |init| {
      OutsideAdd(init, ps, p);
      assert init[p] == xs[p];
      assert (last in ps + {p}) == (last in ps);
    } else {
      assert p == last;
      OutsideBeyond(init, ps, p);
    }
  }

  /** The set of the given positions. */
  function Positions(idx: seq<nat>): (r: set<nat>)
    ensures forall p :: p in r <==> p in idx
  {
    if idx == [] then {} else Positions(idx[..|idx| - 1]) + {idx[|idx| - 1]}
  }

  /** The picked elements and those at the positions not picked make up the list. */
  lemma {:induction false} PickedAndOutside(xs: seq<Question>, idx: seq<nat>)
    requires forall i :: 0 <= i < |idx| ==> idx[i] < |xs|
    requires forall i, j :: 0 <= i < j < |idx| ==> idx[i] != idx[j]
    ensures multiset(Picked(xs, idx)) + Outside(xs, Positions(idx)) == multiset(xs)
  {
    if idx == [] {
      OutsideNone(xs);
    } else {
      var init := idx[..|idx| - 1];
      var last := idx[|idx| - 1];
      PickedAndOutside(xs, init);
      assert last !in init;
      OutsideAdd(xs, Positions(init), last);
    }
  }

  /** The elements at distinct positions are part of the list. */
  lemma PickSubMultiset(xs: seq<Question>, idx: seq<nat>)
    requires forall i :: 0 <= i < |idx| ==> idx[i] < |xs|
    requires forall i, j :: 0 <= i < j < |idx| ==> idx[i] != idx[j]
    ensures multiset(Picked(xs, idx)) <= multiset(xs)
  {
    PickedAndOutside(xs, idx);
  }

  // ---------------------------------------------------------------- the clock

  /** One tick of the timer on `(timeLeft, isFinished)`: no tick once finished; the last second finishes the exam. */
  function TickSpec(timeLeft: int, isFinished: bool): (int, bool) {
    if isFinished then (timeLeft, isFinished)
    else if timeLeft <= 1 then (0, true)
    else (timeLeft - 1, false)
  }

  /** The state after `k` ticks. */
  function Ticks(timeLeft: int, isFinished: bool, k: nat): (int, bool) {
    if k == 0 then (timeLeft, isFinished)
    else var p := Ticks(timeLeft, isFinished, k - 1); TickSpec(p.0, p.1)
  }

  /** From the start, the clock shows 1200 - k after k < 1200 ticks and finishes the exam at 0 on tick 1200, then stays. */
  lemma {:induction false} ClockRunsDown(k: nat)
    ensures k < Duration ==> Ticks(Duration, false, k) == (Duration - k, false)
    ensures k >= Duration ==> Ticks(Duration, false, k) == (0, true)
  {
    if k > 0 {
      ClockRunsDown(k - 1);
    }
  }

  // ---------------------------------------------------------------- formatting

  /** `m:ss`: whole minutes, a colon, and the seconds past the minute in two digits. */
  function FormatTime(seconds: nat): string {
    NatToString(seconds / 60) + ":" + PadStart(NatToString(seconds % 60), 2, '0')
  }

  /** Two-digit rendering of a number below 60, a leading zero below 10. */
  lemma TwoDigits(n: nat)
    requires n < 60
    ensures var p := PadStart(NatToString(n), 2, '0');
            |p| == 2 && IsDigits(p) && DecimalValue(p) == n
  {
    NatToStringRoundTrip(n);
    var d := NatToString(n);
    var p := PadStart(d, 2, '0');
    if n < 10 {
      assert p == ['0'] + d;
      assert p[..1] == ['0'];
      assert DecimalValue(['0']) == 0 by {
        assert ['0'][..0] == [];
      }
    } else {
      assert |NatToString(n / 10)| == 1 by {
        NatToStringRoundTrip(n / 10);
      }
      assert p == d;
    }
  }

  /**
   * The rendering reads back: it is two runs of digits around one colon, the second run two
   * digits long and below 60, and minutes times 60 plus seconds gives the number back.
   */
  lemma FormatTimeRoundTrip(seconds: nat)
    ensures var parts := Split(FormatTime(seconds), ':');
            && |parts| == 2
            && IsDigits(parts[0]) && IsDigits(parts[1]) && |parts[1]| == 2
            && DecimalValue(parts[1]) < 60
            && DecimalValue(parts[0]) * 60 + DecimalValue(parts[1]) == seconds
  {
    var mins := seconds / 60;
    var secs := seconds % 60;
    var m := NatToString(mins);
    var p := PadStart(NatToString(secs), 2, '0');
    NatToStringRoundTrip(mins);
    TwoDigits(secs);
    assert FormatTime(seconds) == m + [':'] + p;
    SplitAroundColon(m, p);
    assert DecimalValue(m) * 60 + DecimalValue(p) == seconds by {
      assert DecimalValue(m) == mins && DecimalValue(p) == secs;
      assert mins * 60 + secs == seconds;
    }
  }

  /** Two runs of digits around a colon split into exactly those two runs. */
  lemma SplitAroundColon(m: string, p: string)
    requires IsDigits(m) && IsDigits(p)
    ensures Split(m + [':'] + p, ':') == [m, p]
  {
    assert forall i :: 0 <= i < |m| ==> m[i] != ':';
    assert forall i :: 0 <= i < |p| ==> p[i] != ':';
    SplitPiece(m, ':', p);
    SplitNoSeparator(p, ':');
  }

  // ---------------------------------------------------------------- answers and results

  /** `examQuestions.map((_, i) => i).filter(i => selectedAnswers[i] === undefined)`. */
  function Unanswered(n: nat, answers: map<nat, int>): (r: seq<nat>)
    ensures |r| <= n
  {
    if n == 0 then [] else Unanswered(n - 1, answers) + (if n - 1 in answers then [] else [n - 1])
  }

  /** The list holds exactly the positions below `n` without an answer, in ascending order. */
  lemma {:induction false} UnansweredMembers(n: nat, answers: map<nat, int>)
    ensures forall i: nat :: i in Unanswered(n, answers) <==> i < n && i !in answers
    ensures forall i, j :: 0 <= i < j < |Unanswered(n, answers)| ==> Unanswered(n, answers)[i] < Unanswered(n, answers)[j]
    ensures forall i :: 0 <= i < |Unanswered(n, answers)| ==> Unanswered(n, answers)[i] < n
  {
    if n > 0 {
      UnansweredMembers(n - 1, answers);
    }
  }

  /** The warning is due exactly when some question has no answer. */
  lemma UnansweredEmptyIff(n: nat, answers: map<nat, int>)
    ensures Unanswered(n, answers) == [] <==> forall i :: 0 <= i < n ==> i in answers
  {
    UnansweredMembers(n, answers);
    if Unanswered(n, answers) != [] {
      assert Unanswered(n, answers)[0] in Unanswered(n, answers);
    }
  }

  /** The answer at position `i` is the question's correct one (`selectedAnswers[i] === q.correctAnswer`). */
  predicate IsCorrectAt(qs: seq<Question>, answers: map<nat, int>, i: nat)
    requires i < |qs|
  {
    i in answers && answers[i] == qs[i].correctAnswer
  }

  /** The number of positions answered correctly. */
  function CorrectCount(qs: seq<Question>, answers: map<nat, int>): nat
  {
    if qs == [] then 0
    else CorrectCount(qs[..|qs| - 1], answers) + (if IsCorrectAt(qs, answers, |qs| - 1) then 1 else 0)
  }

  /** Unanswered questions never count: correct answers and unanswered questions together are at most the exam. */
  lemma {:induction false} CorrectCountBound(qs: seq<Question>, answers: map<nat, int>)
    ensures CorrectCount(qs, answers) + |Unanswered(|qs|, answers)| <= |qs|
  {
    if qs != [] {
      var init := qs[..|qs| - 1];
      CorrectCountBound(init, answers);
      assert |Unanswered(|qs|, answers)| == |Unanswered(|init|, answers)| + (if |init| in answers then 0 else 1);
    }
  }

  /** Every question is answered correctly exactly when the count is the exam's length. */
  lemma {:induction false} CorrectCountFull(qs: seq<Question>, answers: map<nat, int>)
    ensures (forall i :: 0 <= i < |qs| ==> IsCorrectAt(qs, answers, i)) <==> CorrectCount(qs, answers) == |qs|
  {
    if qs != [] {
      var init := qs[..|qs| - 1];
      CorrectCountFull(init, answers);
      CorrectCountBound(init, answers);
      assert forall i :: 0 <= i < |init| ==> (IsCorrectAt(init, answers, i) <==> IsCorrectAt(qs, answers, i)) by {
        forall i | 0 <= i < |init| ensures IsCorrectAt(init, answers, i) <==> IsCorrectAt(qs, answers, i) {
          assert init[i] == qs[i];
        }
      }
    }
  }

  datatype Results = Results(correct: nat, total: nat, passed: bool)

  class ExamSession {
    const examQuestions: seq<Question>
    var currentQuestionIndex: nat
    var selectedAnswers: map<nat, int>
    var timeLeft: int
    var isFinished: bool
    var showConfirmFinish: bool
    var showUnansweredWarning: bool

    /** The displayed question exists (an empty exam stays on position 0). */
    ghost predicate Valid()
      reads this
    {
      currentQuestionIndex == 0 || currentQuestionIndex < |examQuestions|
    }

    constructor (questions: seq<Question>, order: seq<nat>)
      requires IsPermutation(order, |questions|)
      ensures examQuestions == ChooseExamQuestions(questions, order)
      ensures currentQuestionIndex == 0 && selectedAnswers == map[] && timeLeft == Duration
      ensures !isFinished && !showConfirmFinish && !showUnansweredWarning
      ensures Valid()
    {
      examQuestions := ChooseExamQuestions(questions, order);
      currentQuestionIndex := 0;
      selectedAnswers := map[];
      timeLeft := Duration;
      isFinished := false;
      showConfirmFinish := false;
      showUnansweredWarning := false;
    }

    /** The timer's callback, once a second while the exam runs; on the last second it finishes the exam. */
    method Tick()
      modifies this
      ensures (timeLeft, isFinished) == TickSpec(old(timeLeft), old(isFinished))
      ensures old(isFinished) || old(timeLeft) > 1 ==>
                showConfirmFinish == old(showConfirmFinish) && showUnansweredWarning == old(showUnansweredWarning)
      ensures !old(isFinished) && old(timeLeft) <= 1 ==> !showConfirmFinish && !showUnansweredWarning
      ensures currentQuestionIndex == old(currentQuestionIndex) && selectedAnswers == old(selectedAnswers)
    {
      if isFinished {
        return;
      }
      if timeLeft <= 1 {
        timeLeft := 0;
        FinishExam();
      } else {
        timeLeft := timeLeft - 1;
      }
    }

    /** Records the chosen option for the current position, replacing an earlier choice there only. */
    method SelectAnswer(answerIndex: int)
      modifies this
      ensures selectedAnswers == old(selectedAnswers)[currentQuestionIndex := answerIndex]
      ensures forall i :: i != currentQuestionIndex ==>
                (i in selectedAnswers <==> i in old(selectedAnswers))
                && (i in selectedAnswers ==> selectedAnswers[i] == old(selectedAnswers)[i])
      ensures currentQuestionIndex == old(currentQuestionIndex) && timeLeft == old(timeLeft)
      ensures isFinished == old(isFinished)
      ensures showConfirmFinish == old(showConfirmFinish) && showUnansweredWarning == old(showUnansweredWarning)
    {
      selectedAnswers := selectedAnswers[currentQuestionIndex := answerIndex];
    }

    /** A click on a position of the question grid. */
    method Navigate(index: nat)
      requires index < |examQuestions|
      modifies this
      ensures currentQuestionIndex == index && Valid()
      ensures selectedAnswers == old(selectedAnswers) && timeLeft == old(timeLeft) && isFinished == old(isFinished)
      ensures showConfirmFinish == old(showConfirmFinish) && showUnansweredWarning == old(showUnansweredWarning)
    {
      currentQuestionIndex := index;
    }

    /** "Back", offered only past the first question. */
    method Back()
      requires Valid() && currentQuestionIndex > 0
      modifies this
      ensures currentQuestionIndex == old(currentQuestionIndex) - 1 && Valid()
      ensures selectedAnswers == old(selectedAnswers) && timeLeft == old(timeLeft) && isFinished == old(isFinished)
      ensures showConfirmFinish == old(showConfirmFinish) && showUnansweredWarning == old(showUnansweredWarning)
    {
      Navigate(currentQuestionIndex - 1);
    }

    /** "Next", offered only before the last question. */
    method Next()
      requires currentQuestionIndex < |examQuestions| - 1
      modifies this
      ensures currentQuestionIndex == old(currentQuestionIndex) + 1 && Valid()
      ensures selectedAnswers == old(selectedAnswers) && timeLeft == old(timeLeft) && isFinished == old(isFinished)
      ensures showConfirmFinish == old(showConfirmFinish) && showUnansweredWarning == old(showUnansweredWarning)
    {
      Navigate(currentQuestionIndex + 1);
    }

    /** "Finish": the warning about unanswered questions when there are any, the confirmation otherwise. */
    method HandleFinishClick()
      modifies this
      ensures Unanswered(|examQuestions|, selectedAnswers) != [] ==>
                showUnansweredWarning && showConfirmFinish == old(showConfirmFinish)
      ensures Unanswered(|examQuestions|, selectedAnswers) == [] ==>
                showConfirmFinish && showUnansweredWarning == old(showUnansweredWarning)
      ensures currentQuestionIndex == old(currentQuestionIndex) && selectedAnswers == old(selectedAnswers)
      ensures timeLeft == old(timeLeft) && isFinished == old(isFinished)
    {
      var unanswered := Unanswered(|examQuestions|, selectedAnswers);
      if |unanswered| > 0 {
        showUnansweredWarning := true;
      } else {
        showConfirmFinish := true;
      }
    }

    /** Ends the exam and closes both dialogs. */
    method FinishExam()
      modifies this
      ensures isFinished && !showConfirmFinish && !showUnansweredWarning
      ensures currentQuestionIndex == old(currentQuestionIndex) && selectedAnswers == old(selectedAnswers)
      ensures timeLeft == old(timeLeft)
    {
      isFinished := true;
      showConfirmFinish := false;
      showUnansweredWarning := false;
    }

    /** The protocol: correct answers counted over the exam, its length, and the verdict. */
    method CalculateResults() returns (r: Results)
      ensures r.correct == CorrectCount(examQuestions, selectedAnswers)
      ensures r.total == |examQuestions|
      ensures r.passed <==> r.correct >= PassMark
    {
      var correctCount := 0;
      for idx := 0 to |examQuestions|
        invariant correctCount == CorrectCount(examQuestions[..idx], selectedAnswers)
      {
        assert examQuestions[..idx + 1][..idx] == examQuestions[..idx];
        if idx in selectedAnswers && selectedAnswers[idx] == examQuestions[idx].correctAnswer {
          correctCount := correctCount + 1;
        }
      }
      assert examQuestions[..|examQuestions|] == examQuestions;
      r := Results(correctCount, |examQuestions|, correctCount >= PassMark);
    }
  }
}
