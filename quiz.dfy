/**
 * The quiz: questions shown one at a time, an answer may be chosen once per
 * question, a correct answer scores a point, and the game counts as complete
 * only on a perfect score.
 */
module Quiz {
  import opened Common
  import opened FisherYates

  datatype Question = Question(id: string, prompt: string, choices: seq<string>, answerIndex: int)

  const QUESTIONS: seq<Question> := [
    Question("q1", "When did we start dating?",
             ["March 1st", "Feburary 14th", "March 3rd", "Roblox Fard"], 0),
    Question("q2", "What is my favorite pokemon?",
             ["Baluk", "Deino", "Larvitar", "Totodile"], 3)
  ]

  /** `shuffle(arr)`: Fisher–Yates on a copy; `rolls[i]` is the draw `j` in [0, i]. */
  method Shuffle(arr: seq<Question>, rolls: seq<nat>) returns (r: seq<Question>)
    requires ValidRolls(rolls, |arr|)
    ensures r == Shuffled(arr, rolls)
    ensures |r| == |arr| && multiset(r) == multiset(arr)
  {
    var a := new Question[|arr|](i requires 0 <= i < |arr| => arr[i]);
    assert a[..] == arr;
    ShuffleInPlace(a, rolls);
    r := a[..];
  }

  /** The number of `true`s in `s`. */
  function CountTrue(s: seq<bool>): (n: nat)
    ensures n <= |s|
    ensures n == |s| <==> forall k :: 0 <= k < |s| ==> s[k]
  {
    if s == [] then 0 else (if s[0] then 1 else 0) + CountTrue(s[1..])
  }

  lemma {:induction false} CountTrueSnoc(s: seq<bool>, b: bool)
    ensures CountTrue(s + [b]) == CountTrue(s) + (if b then 1 else 0)
    decreases |s|
  {
    if s == [] {
      assert [b][1..] == [];
    } else {
      assert (s + [b])[1..] == s[1..] + [b];
      CountTrueSnoc(s[1..], b);
    }
  }

  /** The completion effect fires when the quiz is done with every answer right and not yet marked complete. */
  predicate ShouldComplete(done: bool, score: nat, total: nat, isComplete: bool)
  {
    done && !isComplete && score == total
  }

  /** The quiz component's state cells. */
  class Game {
    /** `baseQuestions`. */
    const base: seq<Question>
    /** The component starts with `false` and never changes it. */
    const shuffleOnRestart: bool
    var qs: seq<Question>
    var index: nat
    var selectedIndex: Option<int>
    var isCorrect: Option<bool>
    var score: nat
    var done: bool
    /** For each question already left behind, whether it was answered correctly. */
    ghost var answers: seq<bool>

    ghost predicate Valid()
      reads this
    {
      && |qs| > 0
      && multiset(qs) == multiset(base)
      && index < |qs|
      && (done ==> index == |qs| - 1)
      && (selectedIndex.None? <==> isCorrect.None?)
      && (selectedIndex.Some? ==> isCorrect == Some(selectedIndex.value == qs[index].answerIndex))
      && |answers| == index
      && score == CountTrue(answers) + (if isCorrect == Some(true) then 1 else 0)
    }

    /** The score never runs ahead of the questions reached. */
    lemma ScoreBound()
      requires Valid()
      ensures score <= index + 1 <= |qs|
      ensures selectedIndex.None? ==> score <= index
    {
    }

    /**
     * A perfect score on a finished quiz means every question, the last one
     * included, was answered correctly.
     */
    lemma PerfectMeansAllCorrect()
      requires Valid() && done && score == |qs|
      ensures isCorrect == Some(true)
      ensures forall k :: 0 <= k < |answers| ==> answers[k]
    {
    }

    /**
     * The completion effect fires exactly when the finished quiz had every
     * question, the last one included, answered correctly and the game is not
     * yet marked complete.
     */
    lemma CompletesIffAllCorrect(isComplete: bool)
      requires Valid()
      ensures Completes(isComplete) <==>
        done && !isComplete && isCorrect == Some(true) && forall k :: 0 <= k < |answers| ==> answers[k]
    {
      if done && isCorrect == Some(true) && (forall k :: 0 <= k < |answers| ==> answers[k]) {
        assert CountTrue(answers) == |answers|;
      }
    }

    /** The first render: the questions in their base order, unless shuffling is on. */
    constructor (questions: seq<Question>, shuffleOnRestart: bool, rolls: seq<nat>)
      requires |questions| > 0 && ValidRolls(rolls, |questions|)
      ensures Valid() && base == questions && this.shuffleOnRestart == shuffleOnRestart
      ensures qs == if shuffleOnRestart then Shuffled(questions, rolls) else questions
      ensures index == 0 && selectedIndex == None && isCorrect == None && score == 0 && !done
      ensures answers == []
    {
      var q := questions;
      if shuffleOnRestart {
        q := Shuffle(questions, rolls);
      }
      base := questions;
      this.shuffleOnRestart := shuffleOnRestart;
      qs := q;
      index := 0;
      selectedIndex := None;
      isCorrect := None;
      score := 0;
      done := false;
      answers := [];
    }

    /** `restart`: back to the first question with nothing chosen and no score. */
    method Restart(rolls: seq<nat>)
      requires Valid() && ValidRolls(rolls, |base|)
      modifies this
      ensures Valid()
      ensures qs == if shuffleOnRestart then Shuffled(base, rolls) else base
      ensures index == 0 && selectedIndex == None && isCorrect == None && score == 0 && !done
      ensures answers == []
    {
      var nextQ := base;
      if shuffleOnRestart {
        nextQ := Shuffle(base, rolls);
      }
      qs := nextQ;
      index := 0;
      selectedIndex := None;
      isCorrect := None;
      score := 0;
      done := false;
      answers := [];
    }

    /** `choose(i)`: answer the current question, once. */
    method Choose(i: int)
      requires Valid()
      modifies this
      ensures Valid()
      ensures qs == old(qs) && index == old(index) && done == old(done) && answers == old(answers)
      ensures old(done) || old(selectedIndex).Some? ==>
        selectedIndex == old(selectedIndex) && isCorrect == old(isCorrect) && score == old(score)
      ensures !old(done) && old(selectedIndex).None? ==>
        && selectedIndex == Some(i)
        && isCorrect == Some(i == qs[index].answerIndex)
        && score == old(score) + (if i == qs[index].answerIndex then 1 else 0)
    {
      if done {
        return;
      }
      if selectedIndex.Some? {
        return;
      }
      selectedIndex := Some(i);
      var correct := i == qs[index].answerIndex;
      isCorrect := Some(correct);
      if correct {
        score := score + 1;
      }
    }

    /** `next()`: finish on the last question, otherwise move on and clear the answer. */
    method Next()
      requires Valid()
      modifies this
      ensures Valid()
      ensures qs == old(qs) && score == old(score)
      ensures old(done) ==>
        index == old(index) && done && selectedIndex == old(selectedIndex) && isCorrect == old(isCorrect)
      ensures !old(done) && old(index) == |qs| - 1 ==>
        index == old(index) && done && selectedIndex == old(selectedIndex) && isCorrect == old(isCorrect)
      ensures !old(done) && old(index) < |qs| - 1 ==>
        index == old(index) + 1 && !done && selectedIndex == None && isCorrect == None
        && answers == old(answers) + [old(isCorrect) == Some(true)]
      ensures old(done) || old(index) == |qs| - 1 ==> answers == old(answers)
    {
      if done {
        return;
      }
      var last := index == |qs| - 1;
      if last {
        done := true;
        return;
      }
      CountTrueSnoc(answers, isCorrect == Some(true));
      answers := answers + [isCorrect == Some(true)];
      index := index + 1;
      selectedIndex := None;
      isCorrect := None;
    }

    /** The completion check of the component. */
    predicate Completes(isComplete: bool)
      reads this
    {
      ShouldComplete(done, score, |qs|, isComplete)
    }
  }
}
