/**
 How buffers grow: by doubling until what is needed fits.
 */
module Growth {

  /** `size` doubled until it is at least `need`. */
  function Doubled(size: nat, need: nat): (r: nat)
    requires size > 0
    ensures r >= size && r >= need && (r == size || r < 2 * need)
    decreases need - size
  {
    if size >= need then size else Doubled(2 * size, need)
  }
}
