/** The process-wide constants of the mosaic builder (class `Config`) and the
    fixed shape of the perceptual signature. */
module Config {

  /** Edge length, in pixels, of a block of the target and of every tile. */
  const CorpSize: nat := 40

  /** How many candidates survive the coarse filter. */
  const FilterSize: nat := 20

  /** Number of blocks across the width of the resized target. */
  const Num: nat := 100

  /** Edge length of the grayscale thumbnail a signature is computed from. */
  const ThumbSide: nat := 8

  /** Length of every signature: one bit per thumbnail pixel. */
  const CodeLength: nat := 64
}
