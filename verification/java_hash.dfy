/**
 * The hash codes the model classes return: `Objects.hash` over one String
 * field. Java's `int` arithmetic wraps around at 32 bits, written out here.
 */
module JavaHash {

  const TwoTo32: int := 0x1_0000_0000
  const TwoTo31: int := 0x8000_0000

  /** Whether `x` fits Java's 32-bit `int`. */
  predicate IsInt32(x: int) {
    -TwoTo31 <= x < TwoTo31
  }

  /** Narrows an integer to Java's two's-complement `int`, as overflowing `int` arithmetic does. */
  function ToInt32(x: int): (r: int)
    ensures IsInt32(r)
    ensures (r - x) % TwoTo32 == 0
    ensures IsInt32(x) ==> r == x
  {
    var m := x % TwoTo32;
    if m < TwoTo31 then m else m - TwoTo32
  }

  /** `String.hashCode`: `h = 31 * h + c` over the characters, starting from 0. */
  function StringHash(s: string): (h: int)
    ensures IsInt32(h)
    ensures s == [] ==> h == 0
  {
    if s == [] then 0 else ToInt32(31 * StringHash(s[..|s| - 1]) + s[|s| - 1] as int)
  }

  /** `Objects.hash(s)` for a single String: `31 * 1 + s.hashCode()`, in `int` arithmetic. */
  function ObjectsHash(s: string): (h: int)
    ensures IsInt32(h)
    ensures s == [] ==> h == 31
  {
    ToInt32(31 + StringHash(s))
  }
}
