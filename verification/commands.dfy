/**
 * The commands of the quiz trainer that take an id: show, delete, edit and
 * test. Each first checks that an id was typed at all; a missing id is
 * reported and the store is never consulted. A present id goes to the store,
 * whose NotFound error is reported the same way. Output and prompting are
 * left out: a command yields the store afterwards and what it reports.
 */
module Commands {
  import opened Results
  import opened QuizStore
  import Answers

  /** What a command reports to the user. */
  datatype Report =
    | MissingId                          // "Falta el parámetro id."
    | Failed(error: StoreError)          // the store's error message
    | Shown(id: int, entry: Entry)
    | Silent                             // nothing is printed (a successful delete)
    | Edited(id: int, entry: Entry)
    | Verdict(correct: bool)             // CORRECTA / INCORRECTA

  /** The store after a command, with what the command reported. */
  datatype Outcome = Outcome(store: Store, report: Report)

  /** `show <id>`: reports the entry; never changes the store. */
  function ShowCmd(store: Store, id: Option<int>): (r: Outcome)
    ensures r.store == store
    ensures id.None? <==> r.report == MissingId
    ensures id.Some? && !ValidId(store, id.value) ==> r.report == Failed(NotFound(id.value))
    ensures id.Some? && ValidId(store, id.value) ==> r.report == Shown(id.value, store[id.value])
  {
    match id
    case None => Outcome(store, MissingId)
    case Some(i) =>
      match GetByIndex(store, i)
      case Ok(quiz) => Outcome(store, Shown(i, quiz))
      case Err(e) => Outcome(store, Failed(e))
  }

  /** `delete <id>`: removes the entry, shifting the later ones down by one.
      Only the missing id and the store's error are reported; a successful
      delete prints nothing. */
  function DeleteCmd(store: Store, id: Option<int>): (r: Outcome)
    ensures id.None? ==> r == Outcome(store, MissingId)
    ensures id.Some? && !ValidId(store, id.value) ==> r == Outcome(store, Failed(NotFound(id.value)))
    ensures id.Some? && ValidId(store, id.value) ==>
      && r.report == Silent
      && |r.store| == |store| - 1
      && (forall j :: 0 <= j < id.value ==> r.store[j] == store[j])
      && (forall j :: id.value <= j < |r.store| ==> r.store[j] == store[j + 1])
  {
    match id
    case None => Outcome(store, MissingId)
    case Some(i) =>
      match DeleteByIndex(store, i)
      case Ok(rest) => Outcome(rest, Silent)
      case Err(e) => Outcome(store, Failed(e))
  }

  /** `edit <id>`: looks the entry up (to prefill the prompts), reads the new
      question and answer and stores them at the same id. */
  function EditCmd(store: Store, id: Option<int>, question: string, answer: string): (r: Outcome)
    ensures id.None? ==> r == Outcome(store, MissingId)
    ensures id.Some? && !ValidId(store, id.value) ==> r == Outcome(store, Failed(NotFound(id.value)))
    ensures id.Some? && ValidId(store, id.value) ==>
      && r.report == Edited(id.value, Entry(question, answer))
      && |r.store| == |store|
      && r.store[id.value] == Entry(question, answer)
      && (forall j :: 0 <= j < |store| && j != id.value ==> r.store[j] == store[j])
  {
    match id
    case None => Outcome(store, MissingId)
    case Some(i) =>
      match GetByIndex(store, i)
      case Err(e) => Outcome(store, Failed(e))
      case Ok(_) =>
        match Update(store, i, question, answer)
        case Ok(updated) => Outcome(updated, Edited(i, Entry(question, answer)))
        case Err(e) => Outcome(store, Failed(e))
  }

  /** `test <id>`: asks one question and reports whether the typed answer is
      accepted; never changes the store. */
  function TestCmd(store: Store, id: Option<int>, answer: string): (r: Outcome)
    ensures r.store == store
    ensures id.None? <==> r.report == MissingId
    ensures id.Some? && !ValidId(store, id.value) ==> r.report == Failed(NotFound(id.value))
    ensures id.Some? && ValidId(store, id.value) ==>
      r.report == Verdict(Answers.AnswerMatches(answer, store[id.value].answer))
  {
    match id
    case None => Outcome(store, MissingId)
    case Some(i) =>
      match GetByIndex(store, i)
      case Ok(quiz) => Outcome(store, Verdict(Answers.AnswerMatches(answer, quiz.answer)))
      case Err(e) => Outcome(store, Failed(e))
  }

  /** The guard shared by the four commands: without an id, each reports the
      missing parameter and leaves the store exactly as it was, whatever the
      user would have typed next. */
  lemma {:induction false} MissingIdLeavesStoreUnchanged(store: Store, question: string, answer: string)
    ensures ShowCmd(store, None) == Outcome(store, MissingId)
    ensures DeleteCmd(store, None) == Outcome(store, MissingId)
    ensures EditCmd(store, None, question, answer) == Outcome(store, MissingId)
    ensures TestCmd(store, None, answer) == Outcome(store, MissingId)
  {
  }

  /** An id outside the store (-1, |store|, ...) is reported as NotFound by
      all four commands and never changes the store. */
  lemma {:induction false} BadIdLeavesStoreUnchanged(store: Store, id: int, question: string, answer: string)
    requires !ValidId(store, id)
    ensures ShowCmd(store, Some(id)) == Outcome(store, Failed(NotFound(id)))
    ensures DeleteCmd(store, Some(id)) == Outcome(store, Failed(NotFound(id)))
    ensures EditCmd(store, Some(id), question, answer) == Outcome(store, Failed(NotFound(id)))
    ensures TestCmd(store, Some(id), answer) == Outcome(store, Failed(NotFound(id)))
  {
  }

  /** Deleting shifts ids: an entry before the deleted one keeps its id and
      an entry after it is now found one id lower. */
  lemma {:induction false} DeleteReindexes(store: Store, i: int, j: int)
    requires ValidId(store, i) && ValidId(store, j) && j != i
    ensures var after := DeleteCmd(store, Some(i)).store;
      if j < i then ShowCmd(after, Some(j)).report == Shown(j, store[j])
      else ShowCmd(after, Some(j - 1)).report == Shown(j - 1, store[j])
  {
  }
}
