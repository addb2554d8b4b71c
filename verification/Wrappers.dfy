/** Values shared by every component of the model. */
module Wrappers {
  datatype Option<+T> = None | Some(value: T)

  const AV_NOPTS_VALUE: int := -0x8000_0000_0000_0000
  const INT64_MAX: int := 0x7fff_ffff_ffff_ffff

  /** a - b as an int64_t, on hardware that wraps around. */
  function Minus(a: int, b: int): (r: int)
    ensures AV_NOPTS_VALUE <= r <= INT64_MAX
    ensures AV_NOPTS_VALUE <= a - b <= INT64_MAX ==> r == a - b
    ensures (a - b - r) % 0x1_0000_0000_0000_0000 == 0
  {
    (a - b - AV_NOPTS_VALUE) % 0x1_0000_0000_0000_0000 + AV_NOPTS_VALUE
  }

  type Nanosecond = n: int | 0 <= n < 1_000_000_000

  /** A wall-clock reading, as timespec_get fills it in. */
  datatype Timespec = Timespec(sec: int, nsec: Nanosecond) {
    /** The time in nanoseconds. */
    function Nanos(): (t: int)
      ensures t / 1_000_000_000 == sec && t % 1_000_000_000 == nsec
    {
      sec * 1_000_000_000 + nsec
    }
  }

  /** The comparison every least-recently-used choice is made with. */
  predicate Later(a: Timespec, b: Timespec)
    ensures Later(a, b) <==> a.Nanos() > b.Nanos()
  {
    if a.sec == b.sec then a.nsec > b.nsec else a.sec > b.sec
  }
}
