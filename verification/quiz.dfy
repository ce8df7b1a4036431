/** Grading of the quiz tab (FinalProject.py:265-310). Five questions are
    asked; the first (a multiselect of application steps) is worth up to six
    points, one per correct step selected, and each of the other four is
    worth one point. `count` tallies questions answered correctly, and the
    final score is ten per point. */
module Quiz {
  import opened Seqs
  import opened Text

  /** The application steps in their official order (FinalProject.py:266-271). */
  const CorrectSteps: seq<string> := [
    "Complete online application",
    "Apply for a conditional use permit",
    "Go through appeal process",
    "Create host community agreement",
    "Go through state process",
    "Register as a business"]

  /** The options the multiselect offers (FinalProject.py:241-248). */
  const StepOptions: seq<string> := [
    "Complete online application",
    "Verify legal status",
    "Apply for a conditional use permit",
    "Go through appeal process",
    "Create host community agreement",
    "Show proof of residency",
    "Go through state process",
    "Register as a business"]

  /** The state name accepted in title case, spelled as in the source. */
  const StateTitle := "Massachussetts"

  /** The same name in lower case: the long answer accepted in any case. */
  const StateWord := "massachussetts"

  /** The five answers: selected steps (in selection order), state text,
      the True/False radio choice, the slider value and the age entered. */
  datatype Answers = Answers(question1: seq<string>, state: string, employee: string, equityQuant: int, age: int)

  function Indicator(b: bool): nat { if b then 1 else 0 }

  /** The state answer is right when it upper-cases to "MA" or title-cases to the accepted name. */
  predicate StateAccepted(state: string)
  {
    Upper(state) == "MA" || Title(state) == StateTitle
  }

  /** Number of distinct correct steps among the selection. */
  function StepsPresent(selected: seq<string>): nat
  {
    CountPresent(CorrectSteps, selected)
  }

  /** Points from the four one-point questions after the first. */
  function OtherPoints(a: Answers): nat
  {
    Indicator(StateAccepted(a.state))
    + Indicator(a.employee == "False")
    + Indicator(a.equityQuant == 33)
    + Indicator(a.age == 21)
  }

  /** Points earned: one per correct step selected plus one per other right answer. */
  function Points(a: Answers): nat
  {
    StepsPresent(a.question1) + OtherPoints(a)
  }

  /** Questions answered correctly: the steps question only when the
      selection is exactly the correct steps in the correct order. */
  function QuestionsCorrect(a: Answers): nat
  {
    Indicator(a.question1 == CorrectSteps) + OtherPoints(a)
  }

  lemma CorrectStepsDistinct()
    ensures Distinct(CorrectSteps)
  {
    assert CorrectSteps[2][11] != CorrectSteps[4][11];
  }

  /** The step points are the hits of the loop over `CorrectSteps`: at most
      six, and six exactly when every correct step is selected. */
  lemma StepPointsBound(selected: seq<string>)
    ensures |Filter(CorrectSteps, InSelection(selected))| == StepsPresent(selected)
    ensures StepsPresent(selected) <= |CorrectSteps| == 6
    ensures StepsPresent(selected) == 6 <==> forall s :: s in CorrectSteps ==> s in selected
  {
    CorrectStepsDistinct();
    CountPresentIsHits(CorrectSteps, selected);
  }

  /** Step points depend only on which correct steps are selected: not on
      their order, and not on wrong steps selected alongside them. */
  lemma StepPointsIgnoreOrderAndExtras(sel1: seq<string>, sel2: seq<string>)
    requires forall s :: s in CorrectSteps ==> (s in sel1 <==> s in sel2)
    ensures StepsPresent(sel1) == StepsPresent(sel2)
  {
    CountPresentByMembership(CorrectSteps, sel1, sel2);
  }

  /** Getting the steps question right earns all six step points, and no
      selection earns more than six. */
  lemma StepsQuestionEarnsPoints(selected: seq<string>)
    ensures selected == CorrectSteps ==> StepsPresent(selected) == 6
    ensures Indicator(selected == CorrectSteps) <= StepsPresent(selected) <= 6
  {
    StepPointsBound(selected);
    if selected == CorrectSteps {
      assert forall s :: s in CorrectSteps ==> s in selected;
    }
  }

  /** The bounds the screen relies on: at most ten points (a score out of 100),
      at most five questions correct, and never more questions than points. */
  lemma ScoreBounds(a: Answers)
    ensures Points(a) <= 10
    ensures QuestionsCorrect(a) <= 5
    ensures QuestionsCorrect(a) <= Points(a)
  {
    StepsQuestionEarnsPoints(a.question1);
  }

  /** Every entry of the `score` list is a single point. */
  predicate AllOnes(score: seq<int>)
  {
    forall j :: 0 <= j < |score| ==> score[j] == 1
  }

  /** Sum of a list, adding from the front as Python's loop does. */
  function Sum(s: seq<int>): int
  {
    if |s| == 0 then 0 else Sum(s[..|s| - 1]) + s[|s| - 1]
  }

  /** `score.append(1)`. */
  method AddPoint(score: seq<int>) returns (r: seq<int>)
    requires AllOnes(score)
    ensures AllOnes(r) && |r| == |score| + 1
  {
    r := score + [1];
  }

  lemma {:induction false} SumOfOnes(s: seq<int>)
    requires AllOnes(s)
    ensures Sum(s) == |s|
  {
    if |s| > 0 {
      SumOfOnes(s[..|s| - 1]);
    }
  }

  /** The loop over `correctSteps`: one entry per step of `key` found in the selection. */
  method StepScore(key: seq<string>, question1: seq<string>) returns (score: seq<int>)
    ensures AllOnes(score)
    ensures |score| == |Filter(key, InSelection(question1))|
  {
    score := [];
    var k := 0;
    while k < |key|
      invariant 0 <= k <= |key|
      invariant |score| == |Filter(key[..k], InSelection(question1))|
      invariant AllOnes(score)
    {
      assert key[..k + 1] == key[..k] + [key[k]];
      FilterAppend(key[..k], [key[k]], InSelection(question1));
      assert [key[k]][1..] == [];
      if key[k] in question1 {
        score := score + [1];
      }
      k := k + 1;
    }
    assert key[..k] == key;
  }

  /** `totalScore`: the sum of ten times each entry of `score`. */
  method TotalScore(score: seq<int>) returns (total: int)
    ensures total == 10 * Sum(score)
  {
    total := 0;
    var i := 0;
    while i < |score|
      invariant 0 <= i <= |score|
      invariant total == 10 * Sum(score[..i])
    {
      assert score[..i + 1][..i] == score[..i];
      total := total + score[i] * 10;
      i := i + 1;
    }
    assert score[..i] == score;
  }

  /** The state question (FinalProject.py:281-287): the `if`/`elif` pair awards
      the point exactly to the case variants of "ma" and of "massachussetts". */
  method GradeState(state: string) returns (right: bool)
    ensures right <==> StateAccepted(state)
    ensures right <==> EqualsIgnoringCase(state, "ma") || EqualsIgnoringCase(state, StateWord)
  {
    StateAnswerIff(state);
    if Upper(state) == "MA" {
      right := true;
    } else if Title(state) == StateTitle {
      right := true;
    } else {
      right := false;
    }
  }

  /** Lines 272-299 of the score block, for the list of correct steps `key`:
      the `score` list of ones and the `count` of questions correct. */
  method Tally(key: seq<string>, a: Answers) returns (score: seq<int>, count: nat)
    requires Distinct(key)
    ensures AllOnes(score)
    ensures |score| == CountPresent(key, a.question1) + OtherPoints(a)
    ensures count == Indicator(a.question1 == key) + OtherPoints(a)
  {
    score := StepScore(key, a.question1);
    CountPresentIsHits(key, a.question1);
    count := 0;

    if key == a.question1 {
      count := count + 1;
    }

    var stateRight := GradeState(a.state);
    if stateRight {
      score := AddPoint(score);
      count := count + 1;
    }

    if a.employee == "False" {
      score := AddPoint(score);
      count := count + 1;
    }

    if a.equityQuant == 33 {
      score := AddPoint(score);
      count := count + 1;
    }

    if a.age == 21 {
      score := AddPoint(score);
      count := count + 1;
    }
  }

  /** The score block: `count` questions correct and a `finalScore` of ten per point. */
  method Grade(a: Answers) returns (count: nat, finalScore: int)
    ensures count == QuestionsCorrect(a)
    ensures finalScore == 10 * Points(a)
    ensures 0 <= finalScore <= 100 && finalScore % 10 == 0
    ensures count <= 5 && 10 * count <= finalScore
  {
    CorrectStepsDistinct();
    var score;
    score, count := Tally(CorrectSteps, a);
    SumOfOnes(score);
    finalScore := TotalScore(score);
    ScoreBounds(a);
  }

  /** The long accepted answer is all lower-case letters. */
  lemma StateWordLower()
    ensures forall i :: 0 <= i < |StateWord| ==> IsLower(StateWord[i])
  {
    var w := StateWord;
    forall i | 0 <= i < |w| ensures IsLower(w[i]) {
      assert w[i] in "acehmstu";
    }
  }

  lemma UpperAbbreviation()
    ensures Upper("ma") == "MA"
  {
  }

  /** Upper-casing the first letter of the lower-case name gives the title-case name. */
  lemma StateTitleFromWord()
    ensures [UpperChar(StateWord[0])] + StateWord[1..] == StateTitle
  {
    assert UpperChar(StateWord[0]) == 'M';
  }

  /** The long accepted answer in lower case title-cases to the spelling the source compares with. */
  lemma TitleStateName()
    ensures Title(StateWord) == StateTitle
  {
    StateWordLower();
    TitleOfLowerWord(StateWord);
    StateTitleFromWord();
  }

  /** The state question accepts exactly the case variants of "ma" and of
      "massachussetts"; a single answer never earns two points. */
  lemma StateAnswerIff(state: string)
    ensures StateAccepted(state) <==>
              EqualsIgnoringCase(state, "ma") || EqualsIgnoringCase(state, StateWord)
    ensures !(Upper(state) == "MA" && Title(state) == StateTitle)
  {
    UpperAbbreviation();
    TitleStateName();
    StateWordLower();
    UpperMatchesIff(state, "ma");
    TitleMatchesIff(state, StateWord);
  }

  /** The accepted spelling has a doubled "ss", so the state's actual name,
      in any case, earns nothing. */
  lemma StandardSpellingRejected()
    ensures !StateAccepted("Massachusetts")
    ensures !StateAccepted("massachusetts")
  {
  }

  /** The correct steps with the last one moved to the front. */
  function RotatedSteps(): seq<string>
  {
    [CorrectSteps[5]] + CorrectSteps[..5]
  }

  lemma RotatedStepsComplete()
    ensures forall s :: s in CorrectSteps ==> s in RotatedSteps()
    ensures RotatedSteps() != CorrectSteps
  {
    var r := RotatedSteps();
    assert r[0] != CorrectSteps[0];
    forall s | s in CorrectSteps ensures s in r {
      var i :| 0 <= i < 6 && CorrectSteps[i] == s;
      if i == 5 { assert r[0] == s; } else { assert r[i + 1] == s; }
    }
  }

  /** Answering with the correct steps in another order earns all six step
      points but does not count the steps question as correct. */
  lemma ReorderedStepsExample(a: Answers)
    requires a.question1 == RotatedSteps()
    ensures StepsPresent(a.question1) == 6
    ensures Points(a) == QuestionsCorrect(a) + 6
  {
    StepPointsBound(a.question1);
    RotatedStepsComplete();
  }

  /** Every correct step is among the options offered. */
  lemma CorrectStepsOffered()
    ensures forall s :: s in CorrectSteps ==> s in StepOptions
  {
    forall s | s in CorrectSteps ensures s in StepOptions {
      var i :| 0 <= i < 6 && CorrectSteps[i] == s;
      if i == 0 { assert StepOptions[0] == s; }
      else if i < 4 { assert StepOptions[i + 1] == s; }
      else { assert StepOptions[i + 2] == s; }
    }
  }

  /** Ticking every option of the multiselect, wrong ones included, earns
      all six step points, yet the steps question does not count as correct. */
  lemma SelectAllOptions(a: Answers)
    requires a.question1 == StepOptions
    ensures StepsPresent(a.question1) == 6
    ensures Points(a) == QuestionsCorrect(a) + 6
  {
    StepPointsBound(a.question1);
    CorrectStepsOffered();
    assert |a.question1| != |CorrectSteps|;
  }

  /** Perfect answers: five questions correct and a score of 100. */
  lemma PerfectAnswers(state: string)
    requires state == "MA" || state == StateWord
    ensures var a := Answers(CorrectSteps, state, "False", 33, 21);
            QuestionsCorrect(a) == 5 && Points(a) == 10
  {
    StepPointsBound(CorrectSteps);
    StateAnswerIff(state);
  }
}
