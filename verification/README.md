# Quiz trainer: commands and play session, in Dafny

This project models the logic at the centre of `cmds.js`, the command layer of an interactive quiz trainer. The trainer stores question/answer pairs ("quizzes") addressed by a numeric id. It has three parts:

- **The answer check** (`Answers`). The `test` and `play` commands both accept a typed answer when `answer.toLowerCase().trim()` equals `quiz.answer.toLowerCase().trim()`.
- **The id-taking commands** (`Commands`): `show`, `delete`, `edit` and `test`. Each one first checks that an id was typed at all. A missing id is reported as "Falta el parámetro id." and the store is never consulted. An id the store rejects is reported with the store's error. A successful `delete` prints nothing; its report is `Silent`.
- **The play session** (`Play`). `play` fills a pool with the ids `0 .. count-1`. Each round draws a position with `Math.round((len-1) * Math.random())`, looks that quiz up, removes the position from the pool (`splice`) and asks the question. A correct answer adds one to the score and starts the next round. A wrong answer ends the session. An empty pool ends it with "No hay nada más que preguntar".

The store (`QuizStore`) stands in for `model.js`, which is not part of this model. It is a sequence of entries. `GetByIndex`, `Update` and `DeleteByIndex` state the behaviour the commands rely on: an id outside `0 .. |store|-1` gives `NotFound`.

Inputs that come from outside the program are parameters:

- each typed answer (and the new question/answer typed during `edit`);
- each value of `Math.random()`, as an exact real in `[0, 1)`;
- the command's id argument, as `Option<int>`, where `None` stands for `typeof id === "undefined"`.

A session is a pure step function over `State` (`Active(pool, score)`, `Ended(score, exhausted)`, `Faulted(score, id)` for the `catch` at cmds.js:218-221). `PlaySession` drives it over a supplied sequence of draws and answers. When either sequence runs out, the session stays suspended, waiting for the next answer.

Two facts about the session shape the model:

- A round chooses its position by rounding: `Math.round((len-1) * Math.random())` (cmds.js:191).
- Each quiz is looked up in the store when it is asked (cmds.js:198). The entries are not copied when the session starts.

## Model

| member | source | states |
|---|---|---|
| Answers.LowerChar | cmds.js:151 | a lower-cased character is never an upper-case letter; a capital becomes the lower-case letter whose capital it is (checked against the independent `UpperChar`); it is white space exactly when the original was; characters that are not upper-case letters are left alone |
| Answers.ToLower | cmds.js:151 | `toLowerCase` keeps the length and lower-cases each position on its own, so by `LowerChar` every capital becomes its own lower-case letter and nothing else changes |
| Answers.Trim | cmds.js:151 | the trimmed answer is no longer than the input and has no white space at either end |
| Answers.TrimSplit | cmds.js:151 | `trim` removes only white space: every string is white space, then its trimmed form, then white space |
| Answers.TrimOfPadded | cmds.js:151 | `trim` is determined by the input's shape: white space around a core with no white space at its ends trims to exactly that core |
| Answers.TrimIgnoresPadding | cmds.js:202 | extra white space around a string never changes what `trim` returns |
| Answers.TrimIdempotent | cmds.js:202 | trimming a second time changes nothing |
| Answers.LowerCommutesWithTrim | cmds.js:151 | `x.toLowerCase().trim()` equals `x.trim().toLowerCase()`, because lower-casing never creates or removes white space |
| Answers.NormalizeIdempotent | cmds.js:202 | the normal form of an answer (lower-cased, then trimmed) is its own normal form |
| Answers.AnswerMatchesCharacterization | cmds.js:151 | the answer check `AnswerMatches` (the `===` of the two normal forms) holds exactly when the trimmed answers are equal after lower-casing (both directions) |
| Answers.AnswerMatchesIgnoresPadding | cmds.js:202 | white space typed before or after an answer never changes the verdict |
| Answers.AnswerMatchesIgnoresCase | cmds.js:202 | answers that differ only in letter case, position by position a letter or its capital ("PARIS", "Paris", "paris"), get the same `AnswerMatches` verdict against any stored answer |
| Answers.CapitalizedAnswerMatches | cmds.js:202 | any answer typed entirely in capitals is accepted for the stored answer it spells |
| Answers.AnswerMatchesIsEquivalence | cmds.js:151 | the answer check `AnswerMatches` is reflexive, symmetric and transitive |
| Answers.PaddedCapitalizedAnswerMatches | cmds.js:151 | the typed answer " Paris " is accepted for the stored answer "paris" |
| QuizStore.GetByIndex | cmds.js:52 | a lookup succeeds exactly for ids in `0 .. count-1` and then yields that entry; any other id gives `NotFound` for that id |
| QuizStore.Update | cmds.js:124 | an update succeeds exactly for valid ids; it replaces the entry at that id and keeps every other entry at its id |
| QuizStore.DeleteByIndex | cmds.js:94 | a delete succeeds exactly for valid ids; entries before the id keep their ids and later ones move down by one |
| Commands.ShowCmd | cmds.js:46-59 | `show` never changes the store; it reports the missing id exactly when none was typed, `NotFound` for a bad id, and otherwise the entry at that id |
| Commands.DeleteCmd | cmds.js:89-100 | `delete` without an id or with a bad id leaves the store unchanged and reports why; with a valid id it removes that entry, shifts the later ones down and prints nothing |
| Commands.EditCmd | cmds.js:113-134 | `edit` without an id or with a bad id leaves the store unchanged and reports why; with a valid id it stores the typed question and answer at that id and changes nothing else |
| Commands.TestCmd | cmds.js:142-164 | `test` never changes the store; with a valid id it reports whether the typed answer is accepted for that quiz |
| Commands.MissingIdLeavesStoreUnchanged | cmds.js:48-49 | without an id, all four of `show`, `delete`, `edit` and `test` report the missing parameter and leave the store exactly as it was |
| Commands.BadIdLeavesStoreUnchanged | cmds.js:51-56 | an id outside the store (-1, count, ...) makes all four commands report `NotFound` and never changes the store |
| Commands.DeleteReindexes | cmds.js:94 | after a delete, an entry before the deleted one is shown under its old id and an entry after it is shown one id lower |
| Play.InitialPool | cmds.js:176-179 | the pool built before the first question has `count` elements and holds id `i` at position `i` |
| Play.Init | cmds.js:173-179 | a session starts active with score 0 and the pool `[0, 1, ..., count-1]` |
| Play.InitialPoolIsDistinct | cmds.js:177-179 | the initial pool repeats no id and holds exactly the ids below `count` |
| Play.Round | cmds.js:191 | `Math.round` returns the integer within one half of its argument, with halves rounded up |
| Play.PickPosition | cmds.js:191-194 | for every draw in `[0, 1)` on a non-empty pool, the chosen position is inside the pool; so the `pos >= 0` test always passes and its else branch (cmds.js:214-217) is unreachable |
| Play.Chosen | cmds.js:191-196 | the id asked in a round, `toBeResolved[pos]`, is always one of the ids still in the pool |
| Play.RemoveAt | cmds.js:200 | `splice(pos, 1)` shortens the pool by one; it removes exactly the element at `pos` (as a multiset) and keeps the others in order |
| Play.Step | cmds.js:181-223 | one round: an empty pool ends the session as exhausted; otherwise the score rises by exactly 1 when the reply is accepted and the session continues with one id fewer; a wrong reply ends it with the score unchanged; the round faults only when the chosen id is not a valid store id |
| Play.PartitionFacts | cmds.js:196-200 | while the bookkeeping holds, no id is asked twice, the asked ids and the pool are disjoint, together they are exactly `0 .. count-1`, and at most `count` questions are asked |
| Play.InitPartition | cmds.js:173-179 | before the first question, the empty list of asked ids and the full pool satisfy the bookkeeping |
| Play.StepPreservesPartition | cmds.js:191-200 | one round moves the chosen id from the pool to the asked ids and keeps the bookkeeping; the chosen id is always a valid store id, so `getByIndex` never throws |
| Play.WrongFirstAnswerScoresZero | cmds.js:207-211 | a wrong answer to the first question ends the session at once with score 0, however many quizzes remain |
| Play.TestAndPlayAgree | cmds.js:202 | `play` accepts a reply exactly when `test` on the same quiz with the same reply reports it correct |
| Play.NumCorrectAppend | cmds.js:202-203 | asking one more question adds one to the count of accepted answers exactly when its reply is accepted |
| Play.SessionStartsInvariant | cmds.js:172-179 | the session invariant holds before the first question |
| Play.AskKeepsInvariant | cmds.js:188-213 | asking a question keeps the session invariant: no fault, no repeated id, score equal to the accepted answers, and a wrong answer ends the session with the last answer rejected |
| Play.ExhaustKeepsInvariant | cmds.js:182-186 | reaching an empty pool ends the session as exhausted, after every quiz was asked and answered correctly |
| Play.PlaySession | cmds.js:172-225 | a whole session never faults and never asks an id twice; it asks at most `count` questions; the final score is the number of accepted answers and at most `count`; an exhausted session scores `count`; a session ended by a wrong answer scores one less than the questions asked, with the last answer rejected; a suspended session has every answer so far accepted and its pool plus the asked ids is exactly `0 .. count-1` |

## Left out

- Readline and output: prompts, `log`, `biglog`, `errorlog` and `colorize` (cmds.js:3, 12-25, 232-245). Commands return what they report instead of printing it; `Silent` stands for a command that prints nothing.
- The `help`, `list`, `add`, `credits` and `quit` commands. They only print, append through the store, or close the terminal.
- The edit prefill (`process.stdout.isTTY && setTimeout(() => rl.write(...))`, cmds.js:120, 122). It is terminal timing. `EditCmd` still looks the entry up first, as the prefill does.
- `model.js`: parsing the id text, persistence and the store's own error messages. It is not part of this model. An id is an integer or absent, and a store error carries only the offending id.
- Floating point. `Math.random()` is an exact real in `[0, 1)` and `Math.round` is rounding on exact reals. The selection law's probability distribution, including its endpoint bias, is not modelled. Only the range of the chosen position is.
- Full Unicode case mapping. `toLowerCase` is modelled for the upper-case letters of Basic Latin and Latin-1 only. That covers the accented capitals of Spanish. Other scripts and multi-character mappings are not modelled, and the same holds for `ToUpper`: `ß` and `ÿ`, whose capitals lie outside Latin-1, are left unchanged. `trim` uses the full ECMAScript white-space and line-terminator set.
- The `pos < 0` branch (cmds.js:214-217). It is not modelled as a transition, because `PickPosition` proves that it is never taken.
- The callback ordering (`playOne(); rl.prompt();` at cmds.js:205-206) and re-entrancy while a question awaits an answer. These are event-loop behaviour.
- Play.PlaySession: does not state which id each draw selects. It states only that the asked ids are distinct valid ids. `Step` and `Chosen` state the selection for a single round.
- Play.NumCorrect: its own contract says only that the count is at most the number of questions asked. What it counts is stated through `NumCorrectAppend` and the session invariant.
