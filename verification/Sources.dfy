/**
 The outside world that a tree or a reader pulls bytes from.
 */
module Sources {
  import opened Wire

  /**
   A stream delivering `remaining` in chunks of arbitrary size. A non-blocking source may also deliver
   nothing for now; a blocking one delivers nothing only at the end.
   */
  class Source {
    var remaining: Bytes
    const blocking: bool
    ghost var empties: nat    // reads so far that delivered nothing

    constructor (contents: Bytes, blocking: bool)
      ensures remaining == contents && this.blocking == blocking && empties == 0
    {
      remaining, empties := contents, 0;
      this.blocking := blocking;
    }

    /** Delivers some prefix of at most `max` bytes; how much is not up to the caller. */
    method Read(max: nat) returns (chunk: Bytes)
      requires max > 0
      modifies this
      ensures old(remaining) == chunk + remaining && |chunk| <= max
      ensures blocking && old(remaining) != [] ==> chunk != []
      ensures empties == old(empties) + if chunk == [] then 1 else 0
    {
      var n: int := *;
      if n < 0 { n := 0; }
      if n > max { n := max; }
      if n > |remaining| { n := |remaining|; }
      if n == 0 && blocking && remaining != [] { n := 1; }
      chunk := remaining[..n];
      remaining := remaining[n..];
      if chunk == [] { empties := empties + 1; }
    }
  }
}
