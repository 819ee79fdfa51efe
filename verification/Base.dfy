/** Go's machine integers and the small containers every other module shares. */
module Base {
  datatype Option<+T> = None | Some(value: T)

  const MAX_INT: int := 0x7FFF_FFFF_FFFF_FFFF
  const MIN_INT: int := -0x8000_0000_0000_0000
  const TWO_TO_THE_64: int := 0x1_0000_0000_0000_0000

  /** Go's `int` on a 64-bit platform. */
  type GoInt = x: int | MIN_INT <= x <= MAX_INT

  /** The value a 64-bit register holds after an operation whose exact result is `x`. */
  function Wrap64(x: int): (r: GoInt)
    ensures MIN_INT <= x <= MAX_INT ==> r == x
    ensures MAX_INT < x <= MAX_INT + MAX_INT ==> r < 0
  {
    var m := x % TWO_TO_THE_64;
    if m > MAX_INT then m - TWO_TO_THE_64 else m
  }

  function Min(a: int, b: int): int {
    if a < b then a else b
  }

  /** The order-preserving selection of the elements that satisfy `keep`. */
  function Filter<T(!new)>(s: seq<T>, keep: T -> bool): (r: seq<T>)
    ensures |r| <= |s|
    ensures forall x :: x in r <==> x in s && keep(x)
  {
    if s == [] then []
    else (if keep(s[0]) then [s[0]] else []) + Filter(s[1..], keep)
  }
}
