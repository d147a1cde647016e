# Quiz session controller in Dafny

This project models `QuizGame`, the terminal quiz of `src/quiz.py`. The object is built from a
list of questions with the score at zero and the total fixed at the number of questions. `run`
copies the list, shuffles the copy and presents each question in turn. For each question it
re-prompts until the typed answer is an integer from 1 to 4. It compares the chosen option with
the correct answer by value and adds a point on a match. `show_results` then turns the score into
a percentage and picks one of four ratings: exactly 100, at least 80, at least 60, or below.

Everything is in `quiz.dfy`, module `Quiz`:

- **Answer validation.** `Accepted` is the accept set: an integer in 1..4. `FirstAccepted` finds
  the token that ends a re-prompt loop. `ReadAnswer` is that loop as a method, proved against
  `FirstAccepted`.
- **Scoring.** `Replay` is the question loop as a function of the presented order and the typed
  tokens. It returns the scored answers and the crash, if one happened. `Session` is `Replay`
  from the first question and the first token. `CountCorrect` counts the answers that match.
  The lemmas relate these. Rejected tokens typed anywhere in the input are ignored. The scored
  answers are the first accepted input values, in order. With four options per question, enough
  accepted tokens complete the loop. For a non-empty quiz, all-correct input earns every point and
  the top rating.
- **Classification.** `Classify` decides on the exact percentage `score / total * 100`. Its
  contract restates each threshold as an integer comparison of `100 * score` with
  `bound * total`.
- **The object.** Class `QuizGame` holds `score`, `questions` and `totalQuestions`. `Run` changes
  only `score`. Its contract ties the new score, the questions put on screen and the outcome to
  `Session`.

For question records that have all three keys and a list of strings as options, the Python program
can crash in three places. The model keeps all three as outcomes of type `Crash` instead of ruling
them out:

- `input()` reaching the end of the stream raises EOFError, modelled as `EndOfInput`.
- A question with fewer options than the chosen number raises IndexError at line 57, modelled as
  `OptionOutOfRange`.
- `show_results` with no questions divides by zero at line 71, modelled as `DivisionByZero`.

The source leaves the empty quiz undefined. The model follows the code and reports the
division by zero rather than inventing a policy.

## Model

| member | source | states |
|---|---|---|
| `Quiz.Accepted` | src/quiz.py:48-54 | a typed answer ends the re-prompt loop exactly when it is one of the integers 1, 2, 3, 4; a non-integer (the ValueError branch) or any other integer is rejected |
| `Quiz.FirstAccepted` | src/quiz.py:47-54 | the re-prompt loop stops at an accepted token (an integer in 1..4) and every token before it was rejected; with no accepted token, none in the rest of the input is accepted |
| `Quiz.AcceptedValues` | src/quiz.py:47-51 | the answers the loop can accept are all in 1..4 |
| `Quiz.ReadAnswer` | src/quiz.py:47-54 | the `while True` loop consumes rejected tokens and returns the first accepted answer and the position after it, or reports end of input when there is none |
| `Quiz.Matches` | src/quiz.py:57-58 | an answer scores only when it names an existing option, so a question whose correct answer is not among its options can never score |
| `Quiz.CountCorrect` | src/quiz.py:56-63 | the number of matching answers lies between 0 and the number of answers, and equals it exactly when every chosen option equals the correct answer |
| `Quiz.CountCorrectSnoc` | src/quiz.py:57-60 | scoring one more answer adds a point exactly when the option it names equals the correct answer of its question |
| `Quiz.CountCorrectCounts` | src/quiz.py:57-60 | the score equals the number of questions whose chosen option equals the correct answer |
| `Quiz.Replay` | src/quiz.py:38-63 | the loop scores one answer per question; without a crash every remaining question is answered, and a crash happens at a question before the end |
| `Quiz.Session` | src/quiz.py:38-63 | the whole question loop puts at most every question on screen, finishes without a crash exactly when every question was answered, and never divides by zero |
| `Quiz.ReplayAnswersFit` | src/quiz.py:47-57 | every scored answer is in 1..4 and names an existing option of its question |
| `Quiz.FirstAcceptedShift` | src/quiz.py:47-54 | rejected tokens typed while the re-prompt loop waits only delay the answer: the loop stops at the same token, shifted by their number |
| `Quiz.RejectedTokensIgnored` | src/quiz.py:38-54 | rejected tokens typed while a question waits for its answer change neither the answers scored nor the crash, so neither the score nor the question being asked |
| `Quiz.RejectedTokensIgnoredFrom` | src/quiz.py:38-54 | rejected tokens inserted at any later point of the input leave the play from the current question unchanged |
| `Quiz.RejectedInputIgnored` | src/quiz.py:38-54 | rejected tokens typed anywhere in the input leave the whole session, and so the score, unchanged |
| `Quiz.AnswersAreAcceptedValues` | src/quiz.py:47-57 | the scored answers are a prefix of the accepted values of the input, in the order typed |
| `Quiz.EnoughAnswersComplete` | src/quiz.py:38-57 | with four options per question and at least one accepted answer per question, the loop runs to the last question without crashing |
| `Quiz.AllCorrectAnswers` | src/quiz.py:38-63 | answering every question with its correct option scores every question |
| `Quiz.PerfectSessionIsTop` | src/quiz.py:38-76 | a session answered correctly throughout scores the total and gets the top rating |
| `Quiz.Percentage` | src/quiz.py:71 | the percentage times the total is 100 times the score, and it lies between 0 and 100 for scores up to the total |
| `Quiz.PercentageAtLeast` | src/quiz.py:71-80 | the percentage reaches a bound exactly when `100 * score >= bound * total` |
| `Quiz.PercentageIsHundred` | src/quiz.py:71-76 | the percentage equals 100 exactly when the score equals the total |
| `Quiz.Classify` | src/quiz.py:71-82 | exactly one rating is chosen: top iff score equals total, else high iff `100*score >= 80*total`, else middle iff `100*score >= 60*total`, else low |
| `Quiz.ClassifyMonotone` | src/quiz.py:75-82 | for scores up to the total, a higher score never gets a worse rating |
| `Quiz.QuizGame.constructor` | src/quiz.py:8-11 | a new game has score 0, keeps the loaded questions, and its total is their number |
| `Quiz.QuizGame.Results` | src/quiz.py:68-82 | with no questions the report fails with a division by zero; otherwise it shows score, total and the rating `Classify` chooses, so top exactly when score equals total and the 80 and 60 thresholds otherwise |
| `Quiz.QuizGame.AskQuestion` | src/quiz.py:47-63 | one question: the first accepted token is the answer; the score rises by 1 exactly when the named option equals the correct answer and is otherwise unchanged; end of input and a missing option crash with the score unchanged |
| `Quiz.QuizGame.AskAll` | src/quiz.py:38-63 | the `for` loop: the score never decreases and grows by the number of correct answers; the questions shown are the presented order up to where the loop stopped |
| `Quiz.QuizGame.Run` | src/quiz.py:29-66 | `run` shuffles a copy, so `questions` and the total are unchanged; the score grows by the number of correct answers and by at most the total; a completed run shows every question exactly once, as a permutation of `questions`, and ends with the report |

## Left out

- Loading questions (src/quiz.py:13-27): reading `data/quiz_questions.json`, JSON parsing and `exit(1)` on a missing or malformed file are I/O. The constructor takes the loaded list as a parameter instead.
- All `print` output, including the prompts, the question and option listing, the per-answer feedback and the rating messages, is console output and is dropped. The questions put on screen are returned as `shown`, and the rating as a `Tier`.
- Malformed question records: a record without `"question"`, `"options"` or `"correct_answer"` raises KeyError at src/quiz.py:40, 43 or 58, and an `options` value that is not a list fails at line 57. The typed `Question` datatype assumes every record has all three keys and a list of strings as options, so these crashes are not modelled.
- `input()` is replaced by a sequence of tokens. The conversion of typed text to an integer by Python's `int()` is not modelled: a token is already either `Number(n)` or `NotANumber`, the latter standing for the ValueError case.
- `random.shuffle` is library randomness. `Run` takes the shuffled order as an argument and requires only that it is a permutation of `questions`.
- Classify: the source computes the percentage as a binary64 float and compares it with `==` and `>=`. The model uses the exact rational value instead, so rounding of the float next to 60, 80 or 100 is not modelled.
- The `:.1f` formatting of the percentage is presentation only and is not modelled.
- The mode selection (local, remote or mixed) and the remote trivia source do not appear in src/quiz.py. They are not part of this model.
