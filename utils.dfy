/** chronos/utils.py: find-by-identifier and fixed-offset time zones. */
module Utils {
  import opened Wrappers
  import opened Clocks

  /** `by_id(needle_id, haystack)`: the first item whose `id` is `needle_id`;
      `None` where `next` raises `StopIteration`. `id` reads an item's `id`
      attribute. */
  function ById<T>(needleId: int, haystack: seq<T>, id: T -> int): (r: Option<T>)
    ensures r.Some? ==> id(r.value) == needleId
    ensures r.Some? ==> exists i :: 0 <= i < |haystack| && haystack[i] == r.value
                                    && forall j :: 0 <= j < i ==> id(haystack[j]) != needleId
    ensures r.None? <==> forall i :: 0 <= i < |haystack| ==> id(haystack[i]) != needleId
  {
    if haystack == [] then None
    else if id(haystack[0]) == needleId then Some(haystack[0])
    else
      var r := ById(needleId, haystack[1..], id);
      assert forall j :: 1 <= j < |haystack| ==> haystack[j] == haystack[1..][j - 1];
      r
  }

  /** `utc(offset)`: `timezone(timedelta(hours=offset))`. `None` where
      `timezone` raises `ValueError`, which it does unless the offset lies
      strictly between -24 and 24 hours. */
  function Utc(offset: int): Option<Zone> {
    if -24 < offset < 24 then Some(FixedOffset(MINUTES_PER_HOUR * offset)) else None
  }

  /** Reading a naive time in `utc(a)` and showing it in `utc(b)` moves the
      wall clock by `b - a` hours. */
  lemma Reexpress(naive: int, a: int, b: int)
    requires Utc(a).Some? && Utc(b).Some?
    ensures LocalIn(Attach(naive, Utc(a).value), Utc(b).value) == naive + 60 * (b - a)
  {
  }
}
