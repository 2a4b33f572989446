/** The depth filter the window passes to the pipeline, and the threshold
    setter that feeds it. */
module DepthFilter {
  import opened Results

  /** `check_func(depth)`. A depth of `None` is the NaN of an empty region:
      every comparison with it is false. */
  function CheckDepth(threshold: real, over: bool, depth: Option<real>): (pass: bool)
    ensures threshold == 0.0 ==> pass
    ensures depth.None? ==> (pass <==> threshold == 0.0)
    ensures threshold != 0.0 && depth == Some(threshold) ==> !pass
  {
    if threshold == 0.0 then true
    else if over then depth.Some? && depth.value > threshold
    else depth.Some? && depth.value < threshold
  }

  /** A nonzero threshold keeps what lies strictly beyond it, in the
      direction the over flag selects. */
  lemma ThresholdDirection(threshold: real, over: bool, d: real)
    requires threshold != 0.0
    ensures over ==> (CheckDepth(threshold, over, Some(d)) <==> d > threshold)
    ensures !over ==> (CheckDepth(threshold, over, Some(d)) <==> d < threshold)
  {
  }

  /** In "over" mode a depth beyond a passing one passes too. */
  lemma OverMonotone(threshold: real, d: real, d': real)
    requires CheckDepth(threshold, true, Some(d)) && d < d'
    ensures CheckDepth(threshold, true, Some(d'))
  {
  }

  /** In "under" mode a depth below a passing one passes too. */
  lemma UnderMonotone(threshold: real, d: real, d': real)
    requires CheckDepth(threshold, false, Some(d)) && d' < d
    ensures CheckDepth(threshold, false, Some(d'))
  {
  }

  /** `setThreshold`: a cancelled dialog keeps the threshold, accepted text
      that parses as a float sets it, and text that does not parse resets it
      to 0. `parsed` is the outcome of `float(text)`. */
  function SetThreshold(current: real, ok: bool, parsed: Option<real>): (t: real)
    ensures !ok ==> t == current
    ensures ok && parsed.Some? ==> t == parsed.value
    ensures ok && parsed.None? ==> t == 0.0
  {
    if !ok then current
    else match parsed
      case Some(v) => v
      case None => 0.0
  }

  /** Unparseable threshold text switches filtering off: afterwards every
      depth passes, NaN included, in either direction. */
  lemma ParseFailureDisablesFilter(current: real, over: bool, depth: Option<real>)
    ensures CheckDepth(SetThreshold(current, true, None), over, depth)
  {
  }
}
