/** `src/data_item.rs`: a stored value with an optional expiry deadline.

    A `SystemTime` is modelled as a number of nanoseconds since the UNIX
    epoch, and "now" is a parameter rather than a clock reading. */
module DataItems {
  import opened Base

  /** `DataItem<T>`: the value and, optionally, the instant after which it
      has expired. */
  datatype DataItem<T> = DataItem(value: T, ttl: Option<nat>)

  /** The item is still alive at `now`: it has no deadline, or the deadline
      has not yet passed. A deadline equal to `now` has not passed. */
  predicate Alive<T>(d: DataItem<T>, now: nat) {
    match d.ttl
    case None => true
    case Some(deadline) => now <= deadline
  }

  /** `DataItem::new`. */
  function New<T>(value: T, ttl: Option<nat>): (d: DataItem<T>)
    ensures d.value == value && d.ttl == ttl
  {
    DataItem(value, ttl)
  }

  /** `expired_or_return`: the value while the item is alive, nothing once
      its deadline is strictly before `now`. */
  function ExpiredOrReturn<T>(d: DataItem<T>, now: nat): (r: Option<T>)
    ensures r.Some? <==> Alive(d, now)
    ensures r.Some? ==> r.value == d.value
  {
    if d.ttl.Some? && d.ttl.value < now then None else Some(d.value)
  }

  /** Without a deadline the stored value is returned at every instant. */
  lemma {:induction false} NoTtlNeverExpires<T>(value: T, now: nat)
    ensures ExpiredOrReturn(New(value, None), now) == Some(value)
  {
  }

  /** The comparison is strict: at the deadline itself the value is still
      returned, one nanosecond later it is not. */
  lemma {:induction false} ExpiresStrictlyAfterDeadline<T>(value: T, deadline: nat)
    ensures ExpiredOrReturn(New(value, Some(deadline)), deadline) == Some(value)
    ensures ExpiredOrReturn(New(value, Some(deadline)), deadline + 1) == None
  {
  }

  /** Expiry is permanent: once an item has expired it stays expired, and
      an item alive at some instant was alive at every earlier one. */
  lemma {:induction false} ExpiryMonotone<T>(d: DataItem<T>, now: nat, later: nat)
    requires now <= later
    ensures ExpiredOrReturn(d, now).None? ==> ExpiredOrReturn(d, later).None?
    ensures ExpiredOrReturn(d, later).Some? ==> ExpiredOrReturn(d, now) == ExpiredOrReturn(d, later)
  {
  }
}
