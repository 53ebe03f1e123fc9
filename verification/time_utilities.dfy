/**
  The one-hour correction for position timestamps that the feed sometimes
  publishes an hour in the future. Times are POSIX seconds.
 */
module TimeUtilities {
  import opened Common

  /** A timestamp more than this far past feed generation is taken to be an hour early. */
  const CorrectionThreshold: int := 30 * 60

  const OneHour: int := 60 * 60

  /**
    The corrected timestamp: with a feed time, a raw value more than thirty
    minutes after it has one hour subtracted; anything else is returned
    unchanged.
   */
  function ParseTimestamp(raw: int, feedTime: Option<int>): (r: int)
    ensures feedTime.None? ==> r == raw
    ensures feedTime.Some? && raw > feedTime.value + CorrectionThreshold ==> r == raw - OneHour
    ensures feedTime.Some? && raw <= feedTime.value + CorrectionThreshold ==> r == raw
  {
    match feedTime
    case None => raw
    case Some(feed) => if raw > feed + CorrectionThreshold then raw - OneHour else raw
  }

  /** The correction only ever moves a timestamp back, and by exactly one hour when it does. */
  lemma CorrectionIsOneHourBack(raw: int, feedTime: Option<int>)
    ensures ParseTimestamp(raw, feedTime) == raw || ParseTimestamp(raw, feedTime) == raw - OneHour
    ensures ParseTimestamp(raw, feedTime) <= raw
  {
  }

  /**
    A timestamp at most ninety minutes past feed generation comes out at
    most thirty minutes past it: the correction achieves its stated intent
    for values that are off by the one hour it is meant to repair.
   */
  lemma CorrectedIsNotTooFarAhead(raw: int, feed: int)
    requires raw <= feed + OneHour + CorrectionThreshold
    ensures ParseTimestamp(raw, Some(feed)) <= feed + CorrectionThreshold
  {
  }

  /** Exactly thirty minutes ahead is not corrected; one second more is. */
  lemma ThresholdIsStrict(feed: int)
    ensures ParseTimestamp(feed + CorrectionThreshold, Some(feed)) == feed + CorrectionThreshold
    ensures ParseTimestamp(feed + CorrectionThreshold + 1, Some(feed)) == feed + CorrectionThreshold + 1 - OneHour
  {
  }
}
