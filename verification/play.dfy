/**
 * The `play` session: every quiz of the store is asked once, in random
 * order, until the user gives a wrong answer or nothing is left to ask.
 *
 * The session is a state machine. Its state is the pool of ids not yet
 * asked plus the score; `Step` is one round of `playOne`. The random draw
 * `Math.random()` and the user's answer are inputs of the step.
 */
module Play {
  import opened Results
  import opened QuizStore
  import Answers
  import Commands

  datatype State =
    /** Waiting to ask from `pool` (the ids not yet asked); `score` correct answers so far. */
    | Active(pool: seq<nat>, score: nat)
    /** The session is over: `exhausted` when the pool ran empty
        ("No hay nada más que preguntar"), otherwise a wrong answer ended it. */
    | Ended(score: nat, exhausted: bool)
    /** The store threw for `id`; the error is reported and no score is shown. */
    | Faulted(score: nat, id: nat)

  /** The pool built before the first question: the ids 0 .. count - 1 in order. */
  function InitialPool(count: nat): (pool: seq<nat>)
    ensures |pool| == count
    ensures forall i :: 0 <= i < count ==> pool[i] == i
  {
    if count == 0 then [] else InitialPool(count - 1) + [count - 1]
  }

  /** The state `playCmd` starts from: every id in the pool, score 0. */
  function Init(count: nat): (st: State)
    ensures st.Active? && st.score == 0
    ensures |st.pool| == count && forall i :: 0 <= i < count ==> st.pool[i] == i
  {
    Active(InitialPool(count), 0)
  }

  /** `Math.round(x)`: the nearest integer, halves rounded up. */
  function Round(x: real): (n: int)
    ensures x - 0.5 < n as real <= x + 0.5
  {
    (x + 0.5).Floor
  }

  /** `Math.round((len - 1) * Math.random())` for a draw `u` in [0, 1):
      always a position inside a non-empty pool, so the `pos >= 0` test
      that guards the question always passes. */
  function PickPosition(len: nat, u: real): (pos: int)
    requires len > 0
    requires 0.0 <= u < 1.0
    ensures 0 <= pos < len
  {
    var m := (len - 1) as real;
    ScaleBelow(m, u);
    Round(m * u)
  }

  /** Scaling `m` by a draw in [0, 1) stays in [0, m], and below `m` unless
      `m` is 0. */
  lemma {:induction false} ScaleBelow(m: real, u: real)
    requires 0.0 <= m && 0.0 <= u < 1.0
    ensures 0.0 <= m * u
    ensures m * u < m || m * u == 0.0
  {
    if m > 0.0 {
      assert m * u < m * 1.0;
    }
  }

  /** `toBeResolved.splice(pos, 1)`: removes the element at `pos`, keeping the
      others in order. */
  function RemoveAt(pool: seq<nat>, pos: nat): (rest: seq<nat>)
    requires pos < |pool|
    ensures |rest| == |pool| - 1
    ensures forall i :: 0 <= i < pos ==> rest[i] == pool[i]
    ensures forall i :: pos <= i < |rest| ==> rest[i] == pool[i + 1]
    ensures multiset(rest) + multiset{pool[pos]} == multiset(pool)
  {
    assert pool == pool[..pos] + [pool[pos]] + pool[pos + 1..];
    pool[..pos] + pool[pos + 1..]
  }

  /** The id asked when the draw is `u`. */
  function Chosen(st: State, u: real): (id: nat)
    requires st.Active? && st.pool != []
    requires 0.0 <= u < 1.0
    ensures id in st.pool
  {
    st.pool[PickPosition(|st.pool|, u)]
  }

  /** One round of `playOne`. On an empty pool the session ends as exhausted
      (no draw or answer is used). Otherwise the draw `u` picks a position,
      the id there is looked up and removed from the pool, and `answer` is
      the user's reply to its question: a correct reply adds one to the
      score and keeps going, a wrong one ends the session. */
  function Step(store: Store, st: State, u: real, answer: string): (next: State)
    requires st.Active?
    requires 0.0 <= u < 1.0
    ensures next == Ended(st.score, true) <==> st.pool == []
    ensures next.score == st.score + (if next.Active? then 1 else 0)
    ensures next.Active? ==> |next.pool| == |st.pool| - 1
    ensures next.Active? ==> multiset(next.pool) + multiset{Chosen(st, u)} == multiset(st.pool)
    ensures next.Faulted? <==> st.pool != [] && !ValidId(store, Chosen(st, u))
    ensures st.pool != [] && ValidId(store, Chosen(st, u)) ==>
      (next.Active? <==> Answers.AnswerMatches(answer, store[Chosen(st, u)].answer))
  {
    if st.pool == [] then
      Ended(st.score, true)
    else
      var pos := PickPosition(|st.pool|, u);
      var id := st.pool[pos];
      match GetByIndex(store, id)
      case Err(_) => Faulted(st.score, id)
      case Ok(quiz) =>
        var rest := RemoveAt(st.pool, pos);
        if Answers.AnswerMatches(answer, quiz.answer) then Active(rest, st.score + 1)
        else Ended(st.score, false)
  }

  predicate Distinct(s: seq<nat>) {
    forall i, j :: 0 <= i < j < |s| ==> s[i] != s[j]
  }

  /** The pool bookkeeping of a session: the ids asked so far and the ids
      left in the pool are, together, every id 0 .. count - 1 exactly once. */
  predicate Partition(count: nat, asked: seq<nat>, pool: seq<nat>) {
    multiset(asked) + multiset(pool) == multiset(InitialPool(count))
  }

  /** In a sequence without repeats no element occurs more than once. */
  lemma {:induction false} DistinctHasSingleOccurrences(s: seq<nat>)
    requires Distinct(s)
    ensures forall x :: multiset(s)[x] <= 1
  {
    if s != [] {
      var t := s[1..];
      assert s == [s[0]] + t;
      assert Distinct(t) by {
        forall i, j | 0 <= i < j < |t| ensures t[i] != t[j] {
          assert t[i] == s[i + 1] && t[j] == s[j + 1];
        }
      }
      DistinctHasSingleOccurrences(t);
      assert s[0] !in t by {
        forall j | 0 <= j < |t| ensures t[j] != s[0] {
          assert t[j] == s[j + 1];
        }
      }
      assert multiset(s) == multiset{s[0]} + multiset(t);
    }
  }

  /** A sequence in which no element occurs twice has no repeats. */
  lemma {:induction false} SingleOccurrencesAreDistinct(s: seq<nat>)
    requires forall x :: multiset(s)[x] <= 1
    ensures Distinct(s)
  {
    forall i, j | 0 <= i < j < |s| ensures s[i] != s[j] {
      RepeatCountsTwice(s, i, j);
    }
  }

  lemma {:induction false} RepeatCountsTwice(s: seq<nat>, i: nat, j: nat)
    requires i < j < |s|
    ensures s[i] == s[j] ==> multiset(s)[s[i]] >= 2
  {
    assert s == s[..i] + [s[i]] + s[i + 1..j] + [s[j]] + s[j + 1..];
  }

  lemma {:induction false} InitialPoolIsDistinct(count: nat)
    ensures Distinct(InitialPool(count))
    ensures forall x: nat :: x in InitialPool(count) <==> x < count
  {
    var pool := InitialPool(count);
    forall x: nat | x < count ensures x in pool {
      assert pool[x] == x;
    }
    forall x | x in pool ensures x < count {
      var i :| 0 <= i < |pool| && pool[i] == x;
    }
    assert Distinct(pool);
  }

  /** What the bookkeeping guarantees: no id is asked twice, the asked ids
      and the pool are disjoint, and between them they hold exactly the ids
      0 .. count - 1, so at most `count` questions are ever asked. */
  lemma {:induction false} PartitionFacts(count: nat, asked: seq<nat>, pool: seq<nat>)
    requires Partition(count, asked, pool)
    ensures Distinct(asked) && Distinct(pool)
    ensures forall x :: x in asked ==> x !in pool
    ensures forall x: nat :: x in asked + pool <==> x < count
    ensures |asked| + |pool| == count
  {
    var all := InitialPool(count);
    InitialPoolIsDistinct(count);
    DistinctHasSingleOccurrences(all);
    assert forall x :: multiset(asked)[x] + multiset(pool)[x] == multiset(all)[x];
    SingleOccurrencesAreDistinct(asked);
    SingleOccurrencesAreDistinct(pool);
    forall x | x in asked ensures x !in pool {
      assert multiset(asked)[x] >= 1;
    }
    forall x: nat ensures x in asked + pool <==> x < count {
      calc {
        x in asked + pool;
        x in multiset(asked + pool);
        { assert multiset(asked + pool) == multiset(all); }
        x in multiset(all);
        x in all;
      }
    }
    assert |multiset(asked + pool)| == |multiset(all)|;
  }

  /** Before the first question nothing is asked and the pool holds every id. */
  lemma {:induction false} InitPartition(count: nat)
    ensures Partition(count, [], Init(count).pool)
  {
  }

  /** One round moves the chosen id from the pool to the asked ids, so the
      bookkeeping is kept; and since every pooled id is a valid store id,
      the lookup never throws. */
  lemma {:induction false} StepPreservesPartition(store: Store, st: State, u: real, answer: string, asked: seq<nat>)
    requires st.Active? && st.pool != [] && 0.0 <= u < 1.0
    requires Partition(|store|, asked, st.pool)
    ensures ValidId(store, Chosen(st, u))
    ensures !Step(store, st, u, answer).Faulted?
    ensures Partition(|store|, asked + [Chosen(st, u)], RemoveAt(st.pool, PickPosition(|st.pool|, u)))
    ensures Step(store, st, u, answer).Active? ==>
      Step(store, st, u, answer).pool == RemoveAt(st.pool, PickPosition(|st.pool|, u))
  {
    var pos := PickPosition(|st.pool|, u);
    var id := st.pool[pos];
    PartitionFacts(|store|, asked, st.pool);
    assert id in asked + st.pool;
    var rest := RemoveAt(st.pool, pos);
    assert multiset(asked + [id]) == multiset(asked) + multiset{id};
  }

  /** A wrong first answer ends the session at once with score 0, however
      many questions are left in the pool. */
  lemma {:induction false} WrongFirstAnswerScoresZero(store: Store, u: real, answer: string)
    requires |store| > 0 && 0.0 <= u < 1.0
    requires !Answers.AnswerMatches(answer, store[Chosen(Init(|store|), u)].answer)
    ensures Step(store, Init(|store|), u, answer) == Ended(0, false)
  {
  }

  /** `test` and `play` give the same verdict on the same quiz and answer. */
  lemma {:induction false} TestAndPlayAgree(store: Store, st: State, u: real, answer: string)
    requires st.Active? && st.pool != [] && 0.0 <= u < 1.0
    requires ValidId(store, Chosen(st, u))
    ensures Step(store, st, u, answer).Active? <==>
      Commands.TestCmd(store, Some(Chosen(st, u)), answer).report == Commands.Verdict(true)
  {
  }

  /** The answer given for the k-th question asked is accepted. */
  predicate Correct(store: Store, id: nat, answer: string) {
    ValidId(store, id) && Answers.AnswerMatches(answer, store[id].answer)
  }

  /** How many of the questions `asked` got an accepted answer, the k-th
      question being answered with `answers[k]`. */
  function NumCorrect(store: Store, asked: seq<nat>, answers: seq<string>): (n: nat)
    requires |asked| <= |answers|
    ensures n <= |asked|
  {
    if asked == [] then 0
    else
      var last := |asked| - 1;
      NumCorrect(store, asked[..last], answers) + (if Correct(store, asked[last], answers[last]) then 1 else 0)
  }

  /** Adding one more question to `asked` adds one to the count exactly when
      its answer is accepted. */
  lemma {:induction false} NumCorrectAppend(store: Store, asked: seq<nat>, id: nat, answers: seq<string>)
    requires |asked| < |answers|
    ensures NumCorrect(store, asked + [id], answers) ==
      NumCorrect(store, asked, answers) + (if Correct(store, id, answers[|asked|]) then 1 else 0)
  {
    assert (asked + [id])[..|asked|] == asked;
  }

  /** What holds of a session after `asked` questions: nothing has thrown;
      no id was asked twice and all were valid; the score counts the accepted
      answers; while active, the asked ids and the pool partition the store's
      ids and every answer so far was accepted; an exhausted session asked
      every quiz; a session ended by a wrong answer was ended by its last one. */
  predicate SessionInvariant(store: Store, answers: seq<string>, asked: seq<nat>, st: State) {
    && !st.Faulted?
    && |asked| <= |answers| && |asked| <= |store|
    && Distinct(asked) && (forall k :: 0 <= k < |asked| ==> asked[k] < |store|)
    && st.score == NumCorrect(store, asked, answers)
    && (st.Active? ==> Partition(|store|, asked, st.pool) && st.score == |asked|)
    && (st.Ended? && st.exhausted ==> |asked| == |store| && st.score == |store|)
    && (st.Ended? && !st.exhausted ==>
          |asked| > 0 && !Correct(store, asked[|asked| - 1], answers[|asked| - 1])
          && st.score == |asked| - 1)
  }

  lemma {:induction false} SessionStartsInvariant(store: Store, answers: seq<string>)
    ensures SessionInvariant(store, answers, [], Init(|store|))
  {
    InitPartition(|store|);
  }

  /** Asking one more question keeps the session invariant. */
  lemma {:induction false} AskKeepsInvariant(store: Store, answers: seq<string>, asked: seq<nat>, st: State, u: real)
    requires SessionInvariant(store, answers, asked, st)
    requires st.Active? && st.pool != [] && 0.0 <= u < 1.0
    requires |asked| < |answers|
    ensures SessionInvariant(store, answers, asked + [Chosen(st, u)], Step(store, st, u, answers[|asked|]))
  {
    var answer := answers[|asked|];
    var id := Chosen(st, u);
    var rest := RemoveAt(st.pool, PickPosition(|st.pool|, u));
    var next := Step(store, st, u, answer);
    StepPreservesPartition(store, st, u, answer, asked);
    PartitionFacts(|store|, asked + [id], rest);
    NumCorrectAppend(store, asked, id, answers);
    assert (asked + [id])[|asked|] == id;
  }

  /** Reaching an empty pool ends the session as exhausted, keeping the
      session invariant. */
  lemma {:induction false} ExhaustKeepsInvariant(store: Store, answers: seq<string>, asked: seq<nat>, st: State)
    requires SessionInvariant(store, answers, asked, st)
    requires st.Active? && st.pool == []
    ensures SessionInvariant(store, answers, asked, Step(store, st, 0.0, ""))
  {
    PartitionFacts(|store|, asked, st.pool);
  }

  /** A whole `play` session. `draws[k]` is the value of `Math.random()` and
      `answers[k]` the user's reply when the k-th question is asked. The
      session runs until it ends, or until the draws or answers run out
      (it is then suspended, waiting for the next answer). `asked` lists the
      ids asked, in order. */
  method PlaySession(store: Store, draws: seq<real>, answers: seq<string>) returns (final: State, asked: seq<nat>)
    requires forall k :: 0 <= k < |draws| ==> 0.0 <= draws[k] < 1.0
    ensures !final.Faulted?
    ensures |asked| <= |store| && |asked| <= |answers| && |asked| <= |draws|
    ensures Distinct(asked) && forall k :: 0 <= k < |asked| ==> asked[k] < |store|
    ensures final.score == NumCorrect(store, asked, answers) && final.score <= |store|
    ensures final.Active? ==>
      && final.pool != []
      && (|asked| == |answers| || |asked| == |draws|)
      && Partition(|store|, asked, final.pool)
      && final.score == |asked|
    ensures final.Ended? && final.exhausted ==> |asked| == |store| && final.score == |store|
    ensures final.Ended? && !final.exhausted ==>
      && |asked| > 0
      && !Correct(store, asked[|asked| - 1], answers[|asked| - 1])
      && final.score == |asked| - 1
  {
    var st := Init(|store|);
    asked := [];
    SessionStartsInvariant(store, answers);
    while st.Active? && (st.pool == [] || (|asked| < |answers| && |asked| < |draws|))
      invariant SessionInvariant(store, answers, asked, st)
      invariant |asked| <= |draws|
      decreases if st.Active? then |st.pool| + 1 else 0
    {
      if st.pool == [] {
        // Nothing left to ask: no draw or answer is used.
        ExhaustKeepsInvariant(store, answers, asked, st);
        st := Step(store, st, 0.0, "");
      } else {
        var u := draws[|asked|];
        var id := Chosen(st, u);
        AskKeepsInvariant(store, answers, asked, st, u);
        st := Step(store, st, u, answers[|asked|]);
        asked := asked + [id];
      }
    }
    final := st;
  }
}
