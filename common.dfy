/** Small shared vocabulary: optional values, bytes and real minimum/maximum. */
module Common {

  datatype Option<+T> = None | Some(value: T)

  /** An octet as carried on sockets and in pixel buffers. */
  type uint8 = x: int | 0 <= x < 0x100

  /** Exclusive upper bound of an unsigned 64-bit integer. */
  const TWO_TO_THE_64: int := 0x1_0000_0000_0000_0000

  /** `std::min` / `f32::min` on values that are never NaN. */
  function Min(a: real, b: real): (r: real)
    ensures r <= a && r <= b && (r == a || r == b)
  {
    if a <= b then a else b
  }

  /** `std::max` / `f32::max` on values that are never NaN. */
  function Max(a: real, b: real): (r: real)
    ensures a <= r && b <= r && (r == a || r == b)
  {
    if a <= b then b else a
  }

  /** Concatenation of a sequence of strings, in order. */
  function Concat(ss: seq<string>): string
  {
    if ss == [] then [] else ss[0] + Concat(ss[1..])
  }

  lemma {:induction false} ConcatAppend(a: seq<string>, b: seq<string>)
    ensures Concat(a + b) == Concat(a) + Concat(b)
  {
    if a == [] {
      assert a + b == b;
    } else {
      assert (a + b)[1..] == a[1..] + b;
      ConcatAppend(a[1..], b);
    }
  }
}
