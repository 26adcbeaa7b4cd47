/**
 * The browser's `localStorage` as the components use it: three kinds of
 * JSON-encoded arrays under fixed keys, each read with
 * `JSON.parse(localStorage.getItem(key) || '[]')`. A slot either is absent,
 * holds an array the model reads as a typed sequence, or holds text that
 * `JSON.parse` rejects.
 */
module Storage {
  import opened Wrappers
  import opened JsString

  /** What `getItem` returns for a key, as far as `JSON.parse` sees it. */
  datatype Slot<T> = Missing | Holds(value: T) | Unparsable

  /**
   * A testimonial as stored and shown. The five built-in ones have no `id`,
   * `message`, `date` or `approved`; submitted ones have no `text` or
   * `image`. `canDelete` false stands for a record without the property
   * (falsy in both cases).
   */
  datatype Testimonial = Testimonial(
    id: Option<JsString>,
    name: JsString,
    role: JsString,
    rating: int,
    treatment: JsString,
    message: Option<JsString>,
    text: Option<JsString>,
    image: Option<JsString>,
    date: Option<JsString>,
    approved: Option<bool>,
    canDelete: bool)

  /**
   * `localStorage`: one slot per rate-limit key (`rate_limit_<action>`),
   * the `testimonial_hashes` slot and the `approved_testimonials` slot.
   */
  class LocalStorage {
    var rateBuckets: map<JsString, Slot<seq<int>>>
    var hashes: Slot<seq<JsString>>
    var approved: Slot<seq<Testimonial>>

    /** An empty store: nothing under any key. */
    constructor ()
      ensures rateBuckets == map[] && hashes == Missing && approved == Missing
    {
      rateBuckets := map[];
      hashes := Missing;
      approved := Missing;
    }
  }

  /** `JSON.parse(getItem(key) || '[]')` inside a `try` whose `catch` falls back to `[]`. */
  function ParsedOrEmpty<T>(slot: Slot<T>, empty: T): (v: T)
    ensures slot.Holds? ==> v == slot.value
    ensures !slot.Holds? ==> v == empty
  {
    match slot
    case Holds(value) => value
    case _ => empty
  }
}
