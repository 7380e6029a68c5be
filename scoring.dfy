/** Scoring of a submitted answer sheet against the question bank: a pure
    count, the loop that computes it, and what the count means. */
module Scoring {
  import opened QuizTypes

  /** The sheet holds exactly the correct option for question `q`. */
  predicate Hit(q: Question, answers: Answers) {
    q.id in answers && answers[q.id] == q.fields.correctAnswer
  }

  /** The number of questions of `qs` answered correctly in `answers`. */
  function Score(qs: seq<Question>, answers: Answers): (r: nat)
    ensures r <= |qs|
    decreases |qs|
  {
    if qs == [] then 0
    else Score(qs[..|qs| - 1], answers) + (if Hit(qs[|qs| - 1], answers) then 1 else 0)
  }

  /** The positions of `qs` that the sheet answers correctly. */
  ghost function Hits(qs: seq<Question>, answers: Answers): set<nat> {
    set i: nat | i < |qs| && Hit(qs[i], answers)
  }

  /** The scoring loop of submit: walks the questions once and counts matches. */
  method ComputeScore(qs: seq<Question>, answers: Answers) returns (score: nat)
    ensures score == Score(qs, answers)
  {
    score := 0;
    for i := 0 to |qs|
      invariant score == Score(qs[..i], answers)
    {
      assert qs[..i + 1][..i] == qs[..i];
      if qs[i].id in answers && answers[qs[i].id] == qs[i].fields.correctAnswer {
        score := score + 1;
      }
    }
    assert qs[..|qs|] == qs;
  }

  /** The score is the size of the set of correctly answered positions. */
  lemma {:induction false} ScoreCountsHits(qs: seq<Question>, answers: Answers)
    ensures Score(qs, answers) == |Hits(qs, answers)|
    decreases |qs|
  {
    if qs != [] {
      var n := |qs| - 1;
      var init := qs[..n];
      ScoreCountsHits(init, answers);
      if Hit(qs[n], answers) {
        assert Hits(qs, answers) == Hits(init, answers) + {n};
      } else {
        assert Hits(qs, answers) == Hits(init, answers);
      }
    } else {
      assert Hits(qs, answers) == {};
    }
  }

  /** Scoring a concatenation adds the two scores: no question's contribution
      depends on the others. */
  lemma {:induction false} ScoreAppend(xs: seq<Question>, ys: seq<Question>, answers: Answers)
    ensures Score(xs + ys, answers) == Score(xs, answers) + Score(ys, answers)
    decreases |ys|
  {
    if ys == [] {
      assert xs + ys == xs;
    } else {
      var n := |ys| - 1;
      ScoreAppend(xs, ys[..n], answers);
      assert (xs + ys)[..|xs + ys| - 1] == xs + ys[..n];
    }
  }

  /** Full marks exactly when every question is answered correctly. */
  lemma {:induction false} PerfectScore(qs: seq<Question>, answers: Answers)
    ensures Score(qs, answers) == |qs| <==> forall i :: 0 <= i < |qs| ==> Hit(qs[i], answers)
    decreases |qs|
  {
    if qs != [] {
      var n := |qs| - 1;
      PerfectScore(qs[..n], answers);
      assert forall i :: 0 <= i < n ==> qs[..n][i] == qs[i];
    }
  }

  /** A zero score exactly when no question is answered correctly; in
      particular an empty sheet scores zero. */
  lemma {:induction false} ZeroScore(qs: seq<Question>, answers: Answers)
    ensures Score(qs, answers) == 0 <==> forall i :: 0 <= i < |qs| ==> !Hit(qs[i], answers)
    ensures Score(qs, map[]) == 0
    decreases |qs|
  {
    if qs != [] {
      var n := |qs| - 1;
      ZeroScore(qs[..n], answers);
      assert forall i :: 0 <= i < n ==> qs[..n][i] == qs[i];
    }
  }

  /** Only the entries for the bank's own question ids matter: two sheets that
      agree on those (present or absent, and the value when present) score the
      same, whatever else they hold. */
  lemma {:induction false} ScoreIgnoresOtherEntries(qs: seq<Question>, a1: Answers, a2: Answers)
    requires forall i :: 0 <= i < |qs| ==> (qs[i].id in a1 <==> qs[i].id in a2)
    requires forall i :: 0 <= i < |qs| && qs[i].id in a1 ==> a1[qs[i].id] == a2[qs[i].id]
    ensures Score(qs, a1) == Score(qs, a2)
    decreases |qs|
  {
    if qs != [] {
      var n := |qs| - 1;
      assert forall i :: 0 <= i < n ==> qs[..n][i] == qs[i];
      ScoreIgnoresOtherEntries(qs[..n], a1, a2);
    }
  }

  /** Answering one more, previously unanswered, question correctly raises the
      score by exactly one; answering it wrongly leaves the score unchanged. */
  lemma {:induction false} AnswerOneMore(qs: seq<Question>, answers: Answers, k: nat, choice: string)
    requires k < |qs|
    requires forall i :: 0 <= i < |qs| ==> (qs[i].id == qs[k].id <==> i == k)
    requires qs[k].id !in answers
    ensures Score(qs, answers[qs[k].id := choice]) ==
            Score(qs, answers) + (if choice == qs[k].fields.correctAnswer then 1 else 0)
    decreases |qs|
  {
    var n := |qs| - 1;
    var init := qs[..n];
    var a' := answers[qs[k].id := choice];
    assert forall i :: 0 <= i < n ==> init[i] == qs[i];
    if k == n {
      ScoreIgnoresOtherEntries(init, a', answers);
    } else {
      AnswerOneMore(init, answers, k, choice);
      assert Hit(qs[n], a') == Hit(qs[n], answers);
    }
  }
}
