/** The source's only use of `Math.random()` is `Math.floor(Math.random() * n)`: a
    uniformly drawn integer in [0, n). Here the draws are a stream fixed in advance and
    every property is proved for every stream, so it holds whatever the draws are. */
module Randomness {

  /** The answer of the draw at position pos of a stream for `Math.floor(Math.random() * n)`:
      the stream's integer reduced into [0, n), or 0 past the end of the stream. */
  function Draw(stream: seq<nat>, pos: nat, n: nat): (k: nat)
    requires n > 0
    ensures k < n
    ensures pos < |stream| ==> k == stream[pos] % n
  {
    if pos < |stream| then stream[pos] % n else 0
  }

  class Random {
    /** The integers the random source yields, in order; the k-th call of `Below(n)`
        answers `stream[k] % n`. */
    var stream: seq<nat>
    /** How many draws have been made. */
    var pos: nat

    constructor (stream: seq<nat>)
      ensures this.stream == stream && pos == 0
    {
      this.stream := stream;
      pos := 0;
    }

    /** Draws left in the stream. */
    function Remaining(): nat
      reads this
    {
      if pos < |stream| then |stream| - pos else 0
    }

    /** `Math.floor(Math.random() * n)`: an integer in [0, n). Once the stream is used up
        every draw answers 0. */
    method Below(n: nat) returns (k: nat)
      requires n > 0
      modifies this
      ensures k < n && k == Draw(stream, old(pos), n)
      ensures stream == old(stream) && pos == old(pos) + 1
      ensures old(Remaining()) > 0 ==> Remaining() == old(Remaining()) - 1
    {
      k := Draw(stream, pos, n);
      pos := pos + 1;
    }
  }
}
