/**
 * The event record kept in the `events` object store, and the edit patch
 * that `updateEvent` applies to a stored record before writing it back.
 */
module Events {
  import opened Wrappers

  /** A file picked in the form; its contents are never looked at. */
  datatype File = File(name: string, bytes: seq<bv8>)

  /**
   * One attended concert or festival. `id` is the store's key; the three
   * attachments are `files[0]` of their inputs, so each may be absent.
   */
  datatype Event = Event(
    id: int,
    year: string,
    date: string,
    location: string,
    remarks: string,
    bandPhoto: Option<File>,
    livePhoto: Option<File>,
    video: Option<File>)

  /** The four text inputs of the event form. */
  datatype Form = Form(year: string, date: string, location: string, remarks: string)

  /** The object store: records by their `id` key. */
  type Store = map<int, Event>

  /** Every record sits under its own `id`, as the `keyPath: 'id'` store keeps it. */
  ghost predicate KeyedById(store: Store) {
    forall k :: k in store ==> store[k].id == k
  }

  /** `editEvent` fills the form's text inputs from the fetched record. */
  function Prefill(e: Event): (f: Form)
    ensures f.year == e.year && f.date == e.date
    ensures f.location == e.location && f.remarks == e.remarks
  {
    Form(e.year, e.date, e.location, e.remarks)
  }

  /**
   * `updateEvent`'s patch: the four text fields of the fetched record take
   * the submitted values; the key and the attachments are kept.
   */
  function ApplyEdit(e: Event, f: Form): (r: Event)
    ensures r.year == f.year && r.date == f.date
    ensures r.location == f.location && r.remarks == f.remarks
    ensures r.id == e.id
    ensures r.bandPhoto == e.bandPhoto && r.livePhoto == e.livePhoto && r.video == e.video
  {
    e.(year := f.year, date := f.date, location := f.location, remarks := f.remarks)
  }

  /**
   * `updateEvent(id)`: fetch the record under `id`, patch it and `put` it
   * back. When there is no such record the fetched value is `undefined`,
   * the first field assignment throws, and nothing is written: `None`.
   * `put` stores the record under its own `id` field (the store's key path).
   * The patch keeps that field, so in a store where every record sits under
   * its own `id` (`KeyedById`) that key is `id`. `UpdateKeepsKeys` shows that
   * an update preserves this.
   */
  function UpdateEvent(store: Store, id: int, f: Form): (r: Option<Store>)
    ensures r.None? <==> id !in store
    ensures r.Some? ==> r.value.Keys == store.Keys
    ensures r.Some? ==> r.value[id] == ApplyEdit(store[id], f)
    ensures r.Some? ==> forall k :: k in store && k != id ==> r.value[k] == store[k]
  {
    if id in store then Some(store[id := ApplyEdit(store[id], f)]) else None
  }

  /** Reading the record back after an edit shows exactly the submitted form. */
  lemma PrefillAfterEdit(e: Event, f: Form)
    ensures Prefill(ApplyEdit(e, f)) == f
  {
  }

  /** Submitting the prefilled form unchanged leaves the record as it was. */
  lemma EditWithPrefillIsIdentity(e: Event)
    ensures ApplyEdit(e, Prefill(e)) == e
  {
  }

  /** A second edit overrides the first completely. */
  lemma EditLastWins(e: Event, f1: Form, f2: Form)
    ensures ApplyEdit(ApplyEdit(e, f1), f2) == ApplyEdit(e, f2)
  {
  }

  /** An update keeps every record under its own key. */
  lemma UpdateKeepsKeys(store: Store, id: int, f: Form)
    requires KeyedById(store)
    ensures UpdateEvent(store, id, f).Some? ==> KeyedById(UpdateEvent(store, id, f).value)
  {
  }
}
