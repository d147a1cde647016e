/**
 * A model of the quiz session controller `QuizGame` (src/quiz.py).
 *
 * The console is replaced by values: what the user types is a sequence of
 * tokens, what would be printed is dropped, and the random shuffle is a
 * permutation supplied by the caller.  The crashes the Python code can run
 * into (end of input inside `input()`, an answer pointing past the option
 * list, and a division by zero when there are no questions) are modelled
 * as outcomes rather than excluded by preconditions.
 */
module Quiz {

  datatype Option<T> = None | Some(value: T)

  datatype Result<T, E> = Success(value: T) | Failure(error: E)

  /** One multiple-choice question as loaded from the question file. */
  datatype Question = Question(text: string, options: seq<string>, correct: string)

  /** What `int(input(...))` produces for one line typed by the user. */
  datatype Token = Number(value: int) | NotANumber

  /** The exceptions that escape `run`. */
  datatype Crash =
    | EndOfInput        // input() reaches the end of the stream (EOFError)
    | OptionOutOfRange  // options[answer - 1] past the end of the list (IndexError)
    | DivisionByZero    // score / total_questions with no questions (ZeroDivisionError)

  /** The four rating messages of the final report, best first. */
  datatype Tier = Top | High | Middle | Low

  /** What the final report shows: the score out of the total and the rating. */
  datatype Report = Report(score: int, total: int, tier: Tier)

  // ---------------------------------------------------------------------
  // Answer validation
  // ---------------------------------------------------------------------

  /** An answer is accepted exactly when it is an integer in 1..4. */
  predicate Accepted(t: Token)
    ensures Accepted(t) <==> t in {Number(1), Number(2), Number(3), Number(4)}
  {
    t.Number? && 1 <= t.value <= 4
  }

  /** The position of the first accepted token of `s` at or after `from`, if any. */
  function FirstAccepted(s: seq<Token>, from: nat): (r: Option<nat>)
    requires from <= |s|
    ensures r.Some? ==> from <= r.value < |s| && Accepted(s[r.value])
    ensures r.Some? ==> forall j :: from <= j < r.value ==> !Accepted(s[j])
    ensures r.None? ==> forall j :: from <= j < |s| ==> !Accepted(s[j])
    decreases |s| - from
  {
    if from == |s| then None
    else if Accepted(s[from]) then Some(from)
    else FirstAccepted(s, from + 1)
  }

  /** The values of all accepted tokens of `s`, in order. */
  function AcceptedValues(s: seq<Token>): (r: seq<int>)
    ensures |r| <= |s|
    ensures forall j :: 0 <= j < |r| ==> 1 <= r[j] <= 4
  {
    if s == [] then []
    else if Accepted(s[0]) then [s[0].value] + AcceptedValues(s[1..])
    else AcceptedValues(s[1..])
  }

  /**
   * The inner `while True` loop of `run`: reads tokens from position `pos`
   * until one is accepted.  Rejected tokens are consumed and change nothing
   * else.  When the stream ends first, `answer` is None (the EOFError).
   */
  method ReadAnswer(input: seq<Token>, pos: nat) returns (answer: Option<int>, next: nat)
    requires pos <= |input|
    ensures pos <= next <= |input|
    ensures answer.None? <==> FirstAccepted(input, pos).None?
    ensures answer.None? ==> next == |input|
    ensures answer.Some? ==>
              next == FirstAccepted(input, pos).value + 1 &&
              input[next - 1] == Number(answer.value) && 1 <= answer.value <= 4
  {
    var k := pos;
    while k < |input| && !Accepted(input[k])
      invariant pos <= k <= |input|
      invariant FirstAccepted(input, k) == FirstAccepted(input, pos)
    {
      k := k + 1;
    }
    if k == |input| {
      answer, next := None, k;
    } else {
      answer, next := Some(input[k].value), k + 1;
    }
  }

  // ---------------------------------------------------------------------
  // Scoring
  // ---------------------------------------------------------------------

  /** Answer `a` (1-based) names an option of `q` that equals its correct answer. */
  predicate Matches(q: Question, a: int)
    ensures Matches(q, a) ==> q.correct in q.options
    ensures Matches(q, a) ==> 1 <= a <= |q.options|
  {
    1 <= a <= |q.options| && q.options[a - 1] == q.correct
  }

  /** Every answer names an existing option of the question it answers, counting questions from `i`. */
  predicate AnswersFit(qs: seq<Question>, i: nat, answers: seq<int>)
  {
    i + |answers| <= |qs| &&
    forall j :: 0 <= j < |answers| ==> 1 <= answers[j] <= |qs[i + j].options|
  }

  /** The number of questions whose given answer matches the correct one. */
  function CountCorrect(qs: seq<Question>, answers: seq<int>): (n: int)
    requires |answers| <= |qs|
    ensures 0 <= n <= |answers|
    ensures n == |answers| <==> forall j :: 0 <= j < |answers| ==> Matches(qs[j], answers[j])
  {
    if answers == [] then 0
    else
      var last := |answers| - 1;
      CountCorrect(qs, answers[..last]) + (if Matches(qs[last], answers[last]) then 1 else 0)
  }

  /** Scoring one more answer adds a point exactly when it matches its question. */
  lemma CountCorrectSnoc(qs: seq<Question>, answers: seq<int>, a: int)
    requires |answers| < |qs|
    ensures CountCorrect(qs, answers + [a]) ==
            CountCorrect(qs, answers) + (if Matches(qs[|answers|], a) then 1 else 0)
  {
    assert (answers + [a])[..|answers|] == answers;
  }

  /** The score is the number of positions whose answer matches, whatever order they are counted in. */
  lemma {:induction false} CountCorrectCounts(qs: seq<Question>, answers: seq<int>)
    requires |answers| <= |qs|
    ensures CountCorrect(qs, answers) == |set j | 0 <= j < |answers| && Matches(qs[j], answers[j])|
    decreases |answers|
  {
    if answers != [] {
      var last := |answers| - 1;
      var init := answers[..last];
      CountCorrectCounts(qs, init);
      var all := set j | 0 <= j < |answers| && Matches(qs[j], answers[j]);
      var before := set j | 0 <= j < |init| && Matches(qs[j], init[j]);
      assert all - {last} == before;
      if Matches(qs[last], answers[last]) {
        assert all == before + {last};
      } else {
        assert all == before;
      }
    }
  }

  /** The outcome of the question loop: the accepted answers that were scored, and the crash if any. */
  datatype Play = Play(answers: seq<int>, crash: Option<Crash>)

  /** How many questions were put on screen: the scored ones and the one the crash happened at. */
  function Presented(p: Play): nat
  {
    |p.answers| + (if p.crash.Some? then 1 else 0)
  }

  /** The play of the remaining questions, behind the answers already scored. */
  function Prepend(chosen: seq<int>, p: Play): Play
  {
    Play(chosen + p.answers, p.crash)
  }

  /**
   * The question loop of `run` from question `i` and input position `pos`:
   * each question in turn takes the first accepted token, and the option it
   * names is compared with the correct answer.
   */
  function Replay(qs: seq<Question>, input: seq<Token>, i: nat, pos: nat): (p: Play)
    requires i <= |qs| && pos <= |input|
    ensures p.crash.None? ==> i + |p.answers| == |qs|
    ensures p.crash.Some? ==> p.crash != Some(DivisionByZero) && i + |p.answers| < |qs|
    decreases |qs| - i
  {
    if i == |qs| then Play([], None)
    else match FirstAccepted(input, pos)
      case None => Play([], Some(EndOfInput))
      case Some(k) =>
        var a := input[k].value;
        if a > |qs[i].options| then Play([], Some(OptionOutOfRange))
        else Prepend([a], Replay(qs, input, i + 1, k + 1))
  }

  /** The whole question loop of `run`, from the first question and the first token. */
  function Session(qs: seq<Question>, input: seq<Token>): (p: Play)
    ensures Presented(p) <= |qs|
    ensures p.crash.None? <==> |p.answers| == |qs|
    ensures p.crash != Some(DivisionByZero)
  {
    Replay(qs, input, 0, 0)
  }

  /** The question loop at question `i` when the input ends or the answer names a missing option. */
  lemma ReplayCrashed(qs: seq<Question>, input: seq<Token>, i: nat, pos: nat)
    requires i < |qs| && pos <= |input|
    ensures FirstAccepted(input, pos).None? ==> Replay(qs, input, i, pos) == Play([], Some(EndOfInput))
    ensures FirstAccepted(input, pos).Some? &&
            input[FirstAccepted(input, pos).value].value > |qs[i].options| ==>
              Replay(qs, input, i, pos) == Play([], Some(OptionOutOfRange))
  {
  }

  /**
   * Every scored answer is an accepted value, 1..4, naming an existing option
   * of the question it answers.
   */
  lemma {:induction false} ReplayAnswersFit(qs: seq<Question>, input: seq<Token>, i: nat, pos: nat)
    requires i <= |qs| && pos <= |input|
    ensures AnswersFit(qs, i, Replay(qs, input, i, pos).answers)
    ensures forall j :: 0 <= j < |Replay(qs, input, i, pos).answers| ==>
              1 <= Replay(qs, input, i, pos).answers[j] <= 4
    decreases |qs| - i
  {
    if i < |qs| {
      match FirstAccepted(input, pos)
      case None =>
      case Some(k) =>
        if input[k].value <= |qs[i].options| {
          ReplayAnswersFit(qs, input, i + 1, k + 1);
          var rest := Replay(qs, input, i + 1, k + 1).answers;
          var all := Replay(qs, input, i, pos).answers;
          assert all == [input[k].value] + rest;
          forall j | 0 < j < |all|
            ensures 1 <= all[j] <= |qs[i + j].options|
          {
            assert all[j] == rest[j - 1];
            assert qs[i + j] == qs[(i + 1) + (j - 1)];
          }
        }
    }
  }

  /** The question loop stopped by a crash at question `i` ends the session with the answers scored so far. */
  lemma SessionStops(
    qs: seq<Question>, input: seq<Token>, chosen: seq<int>, i: nat, pos: nat, crash: Option<Crash>)
    requires i < |qs| && pos <= |input|
    requires Session(qs, input) == Prepend(chosen, Replay(qs, input, i, pos))
    requires FirstAccepted(input, pos).None? ==> crash == Some(EndOfInput)
    requires FirstAccepted(input, pos).Some? ==>
               input[FirstAccepted(input, pos).value].value > |qs[i].options| &&
               crash == Some(OptionOutOfRange)
    ensures Session(qs, input) == Play(chosen, crash)
  {
    ReplayCrashed(qs, input, i, pos);
    assert chosen + [] == chosen;
  }

  /**
   * One answered question moves the loop on: its answer joins the scored
   * ones and the rest of the play continues after the token just read.
   */
  lemma ReplayAnswered(
    qs: seq<Question>, input: seq<Token>, chosen: seq<int>, i: nat, pos: nat, a: int, next: nat)
    requires i < |qs| && pos < next <= |input|
    requires FirstAccepted(input, pos) == Some(next - 1)
    requires a == input[next - 1].value && a <= |qs[i].options|
    ensures Prepend(chosen, Replay(qs, input, i, pos)) == Prepend(chosen + [a], Replay(qs, input, i + 1, next))
  {
    var rest := Replay(qs, input, i + 1, next);
    assert Replay(qs, input, i, pos) == Prepend([a], rest);
    assert chosen + ([a] + rest.answers) == (chosen + [a]) + rest.answers;
  }

  /** One answered question extends the scored answers and the score by that answer. */
  lemma SessionAdvances(
    qs: seq<Question>, input: seq<Token>, chosen: seq<int>, i: nat, pos: nat, a: int, next: nat)
    requires i == |chosen| && i < |qs| && pos < next <= |input|
    requires Session(qs, input) == Prepend(chosen, Replay(qs, input, i, pos))
    requires FirstAccepted(input, pos) == Some(next - 1)
    requires a == input[next - 1].value && a <= |qs[i].options|
    ensures Session(qs, input) == Prepend(chosen + [a], Replay(qs, input, i + 1, next))
    ensures CountCorrect(qs, chosen + [a]) == CountCorrect(qs, chosen) + (if Matches(qs[i], a) then 1 else 0)
  {
    ReplayAnswered(qs, input, chosen, i, pos, a, next);
    CountCorrectSnoc(qs, chosen, a);
  }

  /** `r` with the position it holds moved `d` tokens further on. */
  function ShiftedBy(r: Option<nat>, d: nat): Option<nat>
  {
    match r
    case None => None
    case Some(k) => Some(k + d)
  }

  /** A run of rejected tokens between `from` and `upto` does not change where the loop stops. */
  lemma {:induction false} FirstAcceptedSkip(s: seq<Token>, from: nat, upto: nat)
    requires from <= upto <= |s|
    requires forall j :: from <= j < upto ==> !Accepted(s[j])
    ensures FirstAccepted(s, from) == FirstAccepted(s, upto)
    decreases upto - from
  {
    if from < upto {
      FirstAcceptedSkip(s, from + 1, upto);
    }
  }

  /**
   * Tokens inserted at `|front|` move every later position by their number;
   * reading from behind them finds the same token as before.
   */
  lemma {:induction false} FirstAcceptedReindex(front: seq<Token>, pre: seq<Token>, back: seq<Token>, p: nat)
    requires p <= |back|
    ensures FirstAccepted(front + pre + back, |front| + |pre| + p) ==
            ShiftedBy(FirstAccepted(front + back, |front| + p), |pre|)
    decreases |back| - p
  {
    if p < |back| {
      assert (front + pre + back)[|front| + |pre| + p] == back[p];
      assert (front + back)[|front| + p] == back[p];
      FirstAcceptedReindex(front, pre, back, p + 1);
    }
  }

  /** The question loop reading from behind inserted tokens plays as it did without them. */
  lemma {:induction false} ReplayReindex(
    qs: seq<Question>, front: seq<Token>, pre: seq<Token>, back: seq<Token>, i: nat, p: nat)
    requires i <= |qs| && p <= |back|
    ensures Replay(qs, front + pre + back, i, |front| + |pre| + p) == Replay(qs, front + back, i, |front| + p)
    decreases |qs| - i
  {
    if i < |qs| {
      FirstAcceptedReindex(front, pre, back, p);
      match FirstAccepted(front + back, |front| + p)
      case None =>
      case Some(k) =>
        assert (front + pre + back)[k + |pre|] == back[k - |front|] == (front + back)[k];
        ReplayReindex(qs, front, pre, back, i + 1, k + 1 - |front|);
    }
  }

  /** The question loop depends on its input position only through the token the loop stops at. */
  lemma ReplaySameStop(qs: seq<Question>, s: seq<Token>, i: nat, p1: nat, p2: nat)
    requires i <= |qs| && p1 <= |s| && p2 <= |s|
    requires FirstAccepted(s, p1) == FirstAccepted(s, p2)
    ensures Replay(qs, s, i, p1) == Replay(qs, s, i, p2)
  {
  }

  /**
   * Rejected tokens typed while the re-prompt loop waits at `|front|` only
   * delay the answer: the loop stops at the same token, `|pre|` positions later.
   */
  lemma FirstAcceptedShift(front: seq<Token>, pre: seq<Token>, back: seq<Token>)
    requires forall j :: 0 <= j < |pre| ==> !Accepted(pre[j])
    ensures FirstAccepted(front + pre + back, |front|) ==
            ShiftedBy(FirstAccepted(front + back, |front|), |pre|)
  {
    var s := front + pre + back;
    forall j | |front| <= j < |front| + |pre|
      ensures !Accepted(s[j])
    {
      assert s[j] == pre[j - |front|];
    }
    FirstAcceptedSkip(s, |front|, |front| + |pre|);
    FirstAcceptedReindex(front, pre, back, 0);
  }

  /**
   * Rejected tokens typed while question `i` waits for its answer at
   * `|front|` change nothing: the same answers are scored and the loop
   * crashes, or not, as it did without them.
   */
  lemma RejectedTokensIgnored(qs: seq<Question>, front: seq<Token>, pre: seq<Token>, back: seq<Token>, i: nat)
    requires i <= |qs|
    requires forall j :: 0 <= j < |pre| ==> !Accepted(pre[j])
    ensures Replay(qs, front + pre + back, i, |front|) == Replay(qs, front + back, i, |front|)
  {
    var s := front + pre + back;
    forall j | |front| <= j < |front| + |pre|
      ensures !Accepted(s[j])
    {
      assert s[j] == pre[j - |front|];
    }
    FirstAcceptedSkip(s, |front|, |front| + |pre|);
    ReplaySameStop(qs, s, i, |front|, |front| + |pre|);
    ReplayReindex(qs, front, pre, back, i, 0);
  }

  /**
   * Rejected tokens inserted anywhere at or after position `p` do not change
   * the play from question `i` at `p`: whichever question is waiting when
   * they are typed skips them.
   */
  lemma {:induction false} RejectedTokensIgnoredFrom(
    qs: seq<Question>, front: seq<Token>, pre: seq<Token>, back: seq<Token>, i: nat, p: nat)
    requires i <= |qs| && p <= |front|
    requires forall j :: 0 <= j < |pre| ==> !Accepted(pre[j])
    ensures Replay(qs, front + pre + back, i, p) == Replay(qs, front + back, i, p)
    decreases |qs| - i, |front| - p
  {
    if i < |qs| {
      if p == |front| {
        RejectedTokensIgnored(qs, front, pre, back, i);
      } else {
        var s, t := front + pre + back, front + back;
        assert s[p] == front[p] == t[p];
        if Accepted(front[p]) {
          if front[p].value <= |qs[i].options| {
            RejectedTokensIgnoredFrom(qs, front, pre, back, i + 1, p + 1);
          }
        } else {
          assert FirstAccepted(s, p) == FirstAccepted(s, p + 1);
          assert FirstAccepted(t, p) == FirstAccepted(t, p + 1);
          RejectedTokensIgnoredFrom(qs, front, pre, back, i, p + 1);
        }
      }
    }
  }

  /** Rejected tokens typed anywhere in the input leave the whole session unchanged. */
  lemma RejectedInputIgnored(qs: seq<Question>, front: seq<Token>, pre: seq<Token>, back: seq<Token>)
    requires forall j :: 0 <= j < |pre| ==> !Accepted(pre[j])
    ensures Session(qs, front + pre + back) == Session(qs, front + back)
  {
    RejectedTokensIgnoredFrom(qs, front, pre, back, 0, 0);
  }

  /** Skipping rejected tokens up to the first accepted one. */
  lemma {:induction false} AcceptedValuesFrom(s: seq<Token>, pos: nat)
    requires pos <= |s|
    ensures FirstAccepted(s, pos).None? ==> AcceptedValues(s[pos..]) == []
    ensures FirstAccepted(s, pos).Some? ==>
              var k := FirstAccepted(s, pos).value;
              AcceptedValues(s[pos..]) == [s[k].value] + AcceptedValues(s[k + 1..])
    decreases |s| - pos
  {
    if pos < |s| {
      assert s[pos..][1..] == s[pos + 1..];
      AcceptedValuesFrom(s, pos + 1);
    }
  }

  /** The scored answers are the first accepted tokens of the input, in order. */
  lemma {:induction false} AnswersAreAcceptedValues(qs: seq<Question>, input: seq<Token>, i: nat, pos: nat)
    requires i <= |qs| && pos <= |input|
    ensures Replay(qs, input, i, pos).answers <= AcceptedValues(input[pos..])
    decreases |qs| - i
  {
    if i < |qs| {
      AcceptedValuesFrom(input, pos);
      match FirstAccepted(input, pos)
      case None =>
      case Some(k) =>
        if input[k].value <= |qs[i].options| {
          AnswersAreAcceptedValues(qs, input, i + 1, k + 1);
        }
    }
  }

  /**
   * With enough accepted tokens and four options per question, the loop
   * never crashes: every question is answered.
   */
  lemma {:induction false} EnoughAnswersComplete(qs: seq<Question>, input: seq<Token>, i: nat, pos: nat)
    requires i <= |qs| && pos <= |input|
    requires forall j :: 0 <= j < |qs| ==> |qs[j].options| >= 4
    requires |AcceptedValues(input[pos..])| >= |qs| - i
    ensures Replay(qs, input, i, pos).crash == None
    decreases |qs| - i
  {
    if i < |qs| {
      AcceptedValuesFrom(input, pos);
      match FirstAccepted(input, pos)
      case None =>
      case Some(k) =>
        EnoughAnswersComplete(qs, input, i + 1, k + 1);
    }
  }

  /** Typing the correct option for every question, one token each, answers every question correctly. */
  lemma {:induction false} AllCorrectAnswers(qs: seq<Question>, input: seq<Token>, i: nat)
    requires i <= |qs| && |qs| <= |input|
    requires forall j :: 0 <= j < |qs| ==>
               Accepted(input[j]) && Matches(qs[j], input[j].value)
    ensures Replay(qs, input, i, i).crash == None
    ensures forall j :: 0 <= j < |Replay(qs, input, i, i).answers| ==>
              Matches(qs[i + j], Replay(qs, input, i, i).answers[j])
    decreases |qs| - i
  {
    if i < |qs| {
      AllCorrectAnswers(qs, input, i + 1);
      var rest := Replay(qs, input, i + 1, i + 1);
      assert Replay(qs, input, i, i).answers == [input[i].value] + rest.answers;
      forall j | 0 < j < |Replay(qs, input, i, i).answers|
        ensures Matches(qs[i + j], Replay(qs, input, i, i).answers[j])
      {
        assert Replay(qs, input, i, i).answers[j] == rest.answers[j - 1];
        assert qs[i + j] == qs[(i + 1) + (j - 1)];
      }
    }
  }

  /** A session in which every answer is correct scores every question and earns the top rating. */
  lemma PerfectSessionIsTop(qs: seq<Question>, input: seq<Token>)
    requires 0 < |qs| <= |input|
    requires forall j :: 0 <= j < |qs| ==>
               Accepted(input[j]) && Matches(qs[j], input[j].value)
    ensures Session(qs, input).crash == None
    ensures CountCorrect(qs, Session(qs, input).answers) == |qs|
    ensures Classify(CountCorrect(qs, Session(qs, input).answers), |qs|) == Top
  {
    AllCorrectAnswers(qs, input, 0);
  }

  // ---------------------------------------------------------------------
  // Result classification
  // ---------------------------------------------------------------------

  /** The percentage of correct answers, as an exact ratio. */
  function Percentage(score: int, total: int): (p: real)
    requires total > 0
    ensures p * total as real == 100.0 * score as real
    ensures 0 <= score <= total ==> 0.0 <= p <= 100.0
  {
    var x := score as real / total as real;
    assert x * total as real == score as real;
    assert 0 <= score <= total ==> x <= 1.0;
    x * 100.0
  }

  /** Comparing the percentage with a bound is comparing 100 * score with bound * total. */
  lemma PercentageAtLeast(score: int, total: int, bound: int)
    requires total > 0
    ensures Percentage(score, total) >= bound as real <==> 100 * score >= bound * total
  {
    var x := score as real / total as real;
    assert x * total as real == score as real;
    assert Percentage(score, total) * total as real == 100.0 * score as real;
    if Percentage(score, total) >= bound as real {
      assert Percentage(score, total) * total as real >= bound as real * total as real;
    } else {
      assert Percentage(score, total) * total as real < bound as real * total as real;
    }
  }

  /** The percentage is exactly 100 when every question was answered correctly, and only then. */
  lemma PercentageIsHundred(score: int, total: int)
    requires total > 0
    ensures Percentage(score, total) == 100.0 <==> score == total
  {
    var x := score as real / total as real;
    assert x * total as real == score as real;
    if score == total {
      assert x == 1.0;
    }
  }

  /**
   * The rating chosen by `show_results`: the first of `== 100`, `>= 80`,
   * `>= 60` that the percentage meets, otherwise the lowest.
   */
  function Classify(score: int, total: int): (t: Tier)
    requires total > 0
    ensures t == Top <==> score == total
    ensures t == High <==> score != total && 100 * score >= 80 * total
    ensures t == Middle <==> 100 * score < 80 * total && 100 * score >= 60 * total
    ensures t == Low <==> 100 * score < 60 * total
  {
    PercentageIsHundred(score, total);
    PercentageAtLeast(score, total, 80);
    PercentageAtLeast(score, total, 60);
    var p := Percentage(score, total);
    if p == 100.0 then Top
    else if p >= 80.0 then High
    else if p >= 60.0 then Middle
    else Low
  }

  /** The position of a tier in the order best to worst. */
  function Rank(t: Tier): nat
  {
    match t
    case Top => 0
    case High => 1
    case Middle => 2
    case Low => 3
  }

  /** For scores within the total, a higher score never gets a worse rating. */
  lemma ClassifyMonotone(s1: int, s2: int, total: int)
    requires total > 0 && s1 <= s2 <= total
    ensures Rank(Classify(s2, total)) <= Rank(Classify(s1, total))
  {
    assert 100 * s1 <= 100 * s2;
  }

  // ---------------------------------------------------------------------
  // The session object
  // ---------------------------------------------------------------------

  class QuizGame {
    var score: int
    var questions: seq<Question>
    var totalQuestions: int

    /** The total is the number of loaded questions and the score is not negative. */
    ghost predicate Valid()
      reads this
    {
      totalQuestions == |questions| && score >= 0
    }

    /** `__init__`, with the loaded question list passed in instead of read from disk. */
    constructor (loaded: seq<Question>)
      ensures Valid()
      ensures score == 0 && questions == loaded && totalQuestions == |loaded|
    {
      score := 0;
      questions := loaded;
      totalQuestions := |loaded|;
    }

    /** `show_results`: the report, or the division by zero when there are no questions. */
    function Results(): (r: Result<Report, Crash>)
      requires Valid()
      reads this
      ensures r.Failure? <==> totalQuestions == 0
      ensures r.Failure? ==> r.error == DivisionByZero
      ensures r.Success? ==> r.value.score == score && r.value.total == totalQuestions
      ensures r.Success? ==> r.value.tier == Classify(score, totalQuestions)
    {
      if totalQuestions == 0 then Failure(DivisionByZero)
      else Success(Report(score, totalQuestions, Classify(score, totalQuestions)))
    }

    /**
     * The body of the question loop of `run` for one question `q`: reads
     * tokens from `pos` until one is accepted, takes the option it names and
     * adds a point when that option equals the correct answer.
     */
    method AskQuestion(q: Question, input: seq<Token>, pos: nat)
      returns (crash: Option<Crash>, a: int, next: nat)
      requires pos <= |input|
      modifies this`score
      ensures pos <= next <= |input|
      ensures FirstAccepted(input, pos).None? ==> crash == Some(EndOfInput) && score == old(score)
      ensures FirstAccepted(input, pos).Some? ==>
                next == FirstAccepted(input, pos).value + 1 &&
                a == input[next - 1].value && 1 <= a <= 4
      ensures FirstAccepted(input, pos).Some? && a > |q.options| ==>
                crash == Some(OptionOutOfRange) && score == old(score)
      ensures FirstAccepted(input, pos).Some? && a <= |q.options| ==>
                crash == None && score == old(score) + (if Matches(q, a) then 1 else 0)
    {
      var answer;
      answer, next := ReadAnswer(input, pos);
      if answer.None? {
        return Some(EndOfInput), 0, next;
      }
      a := answer.value;
      if a - 1 >= |q.options| {
        return Some(OptionOutOfRange), a, next;
      }
      crash := None;
      if q.options[a - 1] == q.correct {
        score := score + 1;
      }
    }

    /**
     * The `for` loop of `run` over the presented order: asks each question in
     * turn and scores it.  `shown` lists the questions put on screen, in
     * order; the j-th of them is announced as question j + 1.
     */
    method AskAll(presented: seq<Question>, input: seq<Token>)
      returns (crash: Option<Crash>, shown: seq<Question>)
      modifies this`score
      ensures score >= old(score)
      ensures score == old(score) + CountCorrect(presented, Session(presented, input).answers)
      ensures shown == presented[..Presented(Session(presented, input))]
      ensures crash == Session(presented, input).crash
    {
      shown := [];
      ghost var chosen: seq<int> := [];
      var i, pos := 0, 0;
      while i < |presented|
        invariant 0 <= i <= |presented| && 0 <= pos <= |input|
        invariant shown == presented[..i]
        invariant |chosen| == i
        invariant score == old(score) + CountCorrect(presented, chosen)
        invariant Session(presented, input) == Prepend(chosen, Replay(presented, input, i, pos))
      {
        var q := presented[i];
        shown := presented[..i + 1];
        var a, next;
        crash, a, next := AskQuestion(q, input, pos);
        if crash.Some? {
          SessionStops(presented, input, chosen, i, pos, crash);
          return;
        }
        SessionAdvances(presented, input, chosen, i, pos, a, next);
        chosen := chosen + [a];
        i, pos := i + 1, next;
      }
      assert Session(presented, input) == Play(chosen, None);
      crash := None;
    }

    /**
     * `run`: presents a shuffled copy of the questions one by one, reads an
     * accepted answer for each, adds a point for each correct one, and ends
     * with the report.  The shuffle is the permutation `shuffled`; the list
     * `questions` itself keeps its order.
     */
    method Run(shuffled: seq<Question>, input: seq<Token>)
      returns (outcome: Result<Report, Crash>, shown: seq<Question>)
      requires Valid()
      requires multiset(shuffled) == multiset(questions)
      modifies this`score
      ensures Valid()
      ensures questions == old(questions) && totalQuestions == old(totalQuestions)
      ensures score >= old(score)
      ensures score == old(score) + CountCorrect(shuffled, Session(shuffled, input).answers)
      ensures shown == shuffled[..Presented(Session(shuffled, input))]
      ensures Session(shuffled, input).crash.Some? ==>
                outcome == Failure(Session(shuffled, input).crash.value)
      ensures Session(shuffled, input).crash.None? ==>
                shown == shuffled && outcome == Results()
      ensures score <= old(score) + totalQuestions
      ensures Session(shuffled, input).crash.None? ==> multiset(shown) == multiset(questions)
    {
      assert |shuffled| == |questions| by {
        assert |multiset(shuffled)| == |multiset(questions)|;
      }
      var crash;
      crash, shown := AskAll(shuffled, input);
      if crash.Some? {
        outcome := Failure(crash.value);
      } else {
        outcome := Results();
      }
    }
  }
}
