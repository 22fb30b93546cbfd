/** The browser's key-value storage as seen through one fixed key.

    A key's slot is either empty, holds text that fails to parse, or holds a
    well-formed record. The whole storage may be unavailable: there is no
    `window` during server-side rendering, and `localStorage` itself may throw
    when it is disabled. Every caller in the model treats both kinds of
    unavailability alike: reads yield nothing and writes change nothing. */
module Storage {
  import opened Wrappers

  /** One key's slot. `Corrupt` stands for stored text on which `JSON.parse`
      throws, or which parses into a value of the wrong shape. */
  datatype Slot<+T> = Absent | Corrupt | Stored(value: T)

  datatype Store<+T> = Unavailable | Available(slot: Slot<T>)

  /** `JSON.parse(localStorage.getItem(key))` inside a `try`: a value only
      when storage is there and the slot holds a well-formed record. */
  function Parse<T>(st: Store<T>): (r: Option<T>)
    ensures r.Some? <==> st.Available? && st.slot.Stored?
    ensures r.Some? ==> r.value == st.slot.value
  {
    match st
    case Available(Stored(v)) => Some(v)
    case _ => None
  }

  /** A `setItem` call reaches the slot only when storage is there and the
      call does not throw (`writeOk` is false for a quota or security error). */
  predicate WriteLands<T>(st: Store<T>, writeOk: bool) {
    st.Available? && writeOk
  }

  /** `localStorage.setItem(key, JSON.stringify(v))` whose exception, if any,
      is caught and logged. */
  function SetItem<T>(st: Store<T>, v: T, writeOk: bool): (st': Store<T>)
    ensures WriteLands(st, writeOk) ==> Parse(st') == Some(v)
    ensures !WriteLands(st, writeOk) ==> st' == st
    ensures st'.Available? <==> st.Available?
  {
    if WriteLands(st, writeOk) then Available(Stored(v)) else st
  }

  /** `localStorage.removeItem(key)`; `removeOk` is false when it throws. */
  function RemoveItem<T>(st: Store<T>, removeOk: bool): (st': Store<T>)
    ensures WriteLands(st, removeOk) ==> st' == Available(Absent)
    ensures !WriteLands(st, removeOk) ==> st' == st
  {
    if WriteLands(st, removeOk) then Available(Absent) else st
  }

  /** Writing a value and reading it back gives the value; a second write
      replaces the first entirely. */
  lemma ReadAfterWrite<T>(st: Store<T>, v: T, w: T)
    requires st.Available?
    ensures Parse(SetItem(st, v, true)) == Some(v)
    ensures SetItem(SetItem(st, v, true), w, true) == SetItem(st, w, true)
  {
  }
}
