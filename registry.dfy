/**
  The in-memory registry shared by every page: a map from short code to
  the original URL, its expiry and the clicks recorded on it.
 */
module Registry {

  /** The largest time value a Date can hold, in milliseconds either side
      of the epoch (the TimeClip operation of ECMA-262). */
  const MaxTimeValue := 8_640_000_000_000_000

  /** The time value of a Date: a millisecond count, or the NaN of an
      Invalid Date when the count is outside the representable range. */
  datatype Time = InvalidDate | At(ms: int)

  /** `new Date(t)` for an integral millisecond count `t`. */
  function TimeClip(t: int): (d: Time)
    ensures d.At? <==> -MaxTimeValue <= t <= MaxTimeValue
    ensures d.At? ==> d.ms == t
  {
    if -MaxTimeValue <= t <= MaxTimeValue then At(t) else InvalidDate
  }

  /** `expiry < now` on Dates compares their time values; a comparison
      with the NaN of an Invalid Date is false. */
  predicate IsExpired(expiry: Time, now: int) {
    expiry.At? && expiry.ms < now
  }

  /** One successful redirect: when it happened and where it came from. */
  datatype Click = Click(ts: int, src: string)

  datatype Entry = Entry(original: string, expiry: Time, clicks: seq<Click>)

  /** The store object created once per session; `urls` starts empty. */
  class Store {
    var urls: map<string, Entry>

    constructor ()
      ensures urls == map[]
    {
      urls := map[];
    }
  }
}
