/** Java primitive semantics used by the curve: the `long` range, `int`
    multiplication with wrap-around, the truncating `%`, and the exceptions
    the code can raise, turned into an error value. */
module JavaLang {
  import opened Arith

  /** A Java `long`. */
  type Long = x: int | -0x8000_0000_0000_0000 <= x <= 0x7fff_ffff_ffff_ffff

  /** A Java `int`. */
  type Int = x: int | -0x8000_0000 <= x <= 0x7fff_ffff

  datatype Option<T> = None | Some(value: T)

  /** The exceptions the modelled code can throw. */
  datatype Error =
    | IllegalArgument          // Preconditions.checkArgument failed
    | ArrayIndexOutOfBounds    // an array read or write outside its bounds
    | SigBetweenOutOfRange     // the RuntimeException thrown by split
    | NullPointer              // unboxing a null Long

  datatype Result<T> = Ok(value: T) | Err(error: Error)

  /** Java `int` multiplication: the exact product wrapped to 32 bits. */
  function MulInt(x: Int, y: Int): (r: Int)
    ensures -0x8000_0000 <= x * y <= 0x7fff_ffff ==> r == x * y
    ensures (r - x * y) % 0x1_0000_0000 == 0
  {
    (x * y + 0x8000_0000) % 0x1_0000_0000 - 0x8000_0000
  }

  /** Java `%` on integers: truncates toward zero, so the remainder takes
      the sign of the dividend (Dafny's `%` is Euclidean). */
  function Rem(a: int, n: int): (r: int)
    requires n > 0
    ensures a >= 0 ==> r == a % n
    ensures a < 0 ==> r <= 0
    ensures -n < r < n
    ensures (a - r) % n == 0
  {
    if a >= 0 then
      assert a - a % n == (a / n) * n;
      MultipleMod(a / n, n);
      a % n
    else
      assert a + (-a) % n == (-((-a) / n)) * n;
      MultipleMod(-((-a) / n), n);
      -((-a) % n)
  }
}
