/** The two bounds of C#'s 32-bit `int` that the program uses as sentinels. */
module Int32 {
  /** `int.MinValue`: written into dist[0] so that slot 0 of the heap acts as a -infinity guard. */
  const MinValue: int := -0x8000_0000

  /** `int.MaxValue`: the "not yet discovered" distance of a vertex. */
  const MaxValue: int := 0x7fff_ffff
}
