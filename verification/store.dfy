/**
 * The quiz store as the commands see it. The store itself (index parsing,
 * persistence) lives in model.js, which is not part of this model: here it
 * is an ordered sequence of entries addressed by position, and each
 * operation states the behaviour the commands rely on.
 */
module QuizStore {
  import opened Results

  /** One quiz: a question and its expected answer. */
  datatype Entry = Entry(question: string, answer: string)

  /** Entries in index order; the valid ids are exactly 0 .. |store| - 1. */
  type Store = seq<Entry>

  /** What the store throws for an id outside 0 .. |store| - 1. */
  datatype StoreError = NotFound(id: int)

  predicate ValidId(store: Store, id: int) {
    0 <= id < |store|
  }

  /** `model.getByIndex(id)`: the entry at `id`, or NotFound. */
  function GetByIndex(store: Store, id: int): (r: Result<Entry, StoreError>)
    ensures r.Ok? <==> ValidId(store, id)
    ensures r.Ok? ==> r.value == store[id]
    ensures r.Err? ==> r.error == NotFound(id)
  {
    if ValidId(store, id) then Ok(store[id]) else Err(NotFound(id))
  }

  /** `model.update(id, question, answer)`: replaces the entry at `id` and
      keeps every other entry at its index. */
  function Update(store: Store, id: int, question: string, answer: string): (r: Result<Store, StoreError>)
    ensures r.Ok? <==> ValidId(store, id)
    ensures r.Err? ==> r.error == NotFound(id)
    ensures r.Ok? ==> |r.value| == |store| && r.value[id] == Entry(question, answer)
    ensures r.Ok? ==> forall j :: 0 <= j < |store| && j != id ==> r.value[j] == store[j]
  {
    if ValidId(store, id) then Ok(store[id := Entry(question, answer)]) else Err(NotFound(id))
  }

  /** `model.deleteByIndex(id)`: removes the entry at `id`; the entries before
      it keep their ids and the ones after it move down by one. */
  function DeleteByIndex(store: Store, id: int): (r: Result<Store, StoreError>)
    ensures r.Ok? <==> ValidId(store, id)
    ensures r.Err? ==> r.error == NotFound(id)
    ensures r.Ok? ==> |r.value| == |store| - 1
    ensures r.Ok? ==> forall j :: 0 <= j < id ==> r.value[j] == store[j]
    ensures r.Ok? ==> forall j :: id <= j < |r.value| ==> r.value[j] == store[j + 1]
  {
    if ValidId(store, id) then Ok(store[..id] + store[id + 1..]) else Err(NotFound(id))
  }
}
