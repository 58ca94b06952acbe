/** The configuration checks the learners' constructors make (RCD.py,
    RCDLight.py, RCDLightNew.py): the hop threshold must be a non-negative
    integer, and a depth, when given, too. The offending value the source
    formats into the message is not modelled. */
module Config {
  import opened Wrappers
  import Space

  const BadHop := "Hop threshold must be a non-negative integer"
  const BadDepth := "Depth must be a non-negative integer or None"

  /** `isinstance(h, numbers.Integral) and h >= 0`. */
  predicate NonNegativeInt(h: Space.Num) {
    h.IntNum? && h.i >= 0
  }

  /** The hop threshold check: a float, even a whole one, is rejected. */
  function CheckHop(h: Space.Num): (r: Result<nat>)
    ensures r.Ok? <==> NonNegativeInt(h)
    ensures r.Ok? ==> r.value == h.i
    ensures r.Err? ==> r.msg == BadHop
  {
    if NonNegativeInt(h) then Ok(h.i) else Err(BadHop)
  }

  /** The depth check: no depth at all is accepted, and means no limit. */
  function CheckDepth(depth: Option<Space.Num>): (r: Result<Option<nat>>)
    ensures r.Ok? <==> depth.None? || NonNegativeInt(depth.value)
    ensures r.Ok? ==> (r.value.None? <==> depth.None?)
    ensures r.Ok? && depth.Some? ==> r.value.value == depth.value.i
    ensures r.Err? ==> r.msg == BadDepth
  {
    match depth
    case None => Ok(None)
    case Some(d) => if NonNegativeInt(d) then Ok(Some(d.i)) else Err(BadDepth)
  }
}
