/** The pseudo-random engine that callers thread through the sampling routines.
    The engine is caller-owned and advanced in place. Its raw outputs are a
    caller-supplied stream; `Uniform` stands for std::uniform_int_distribution,
    reducing the next raw output into the closed range [lo, hi]. Every property
    proved about a sampler holds for any stream. */
module Random {

  class Engine {
    const stream: nat -> nat
    var pos: nat

    constructor (stream: nat -> nat)
      ensures this.stream == stream && pos == 0
    {
      this.stream := stream;
      pos := 0;
    }

    /** One draw of std::uniform_int_distribution<int>(lo, hi), which needs lo <= hi. */
    method Uniform(lo: int, hi: int) returns (d: int)
      requires lo <= hi
      modifies this
      ensures lo <= d <= hi
      ensures d == lo + stream(old(pos)) % (hi - lo + 1)
      ensures pos == old(pos) + 1
    {
      d := lo + stream(pos) % (hi - lo + 1);
      pos := pos + 1;
    }
  }

  /** std::shuffle over the whole array: a Fisher-Yates pass driven by the engine.
      Which permutation the library picks is its own business; the model promises
      only that the result is a permutation of the input. */
  method Shuffle(a: array<real>, rng: Engine)
    modifies a, rng
    ensures multiset(a[..]) == old(multiset(a[..]))
  {
    var i := a.Length;
    while i > 1
      invariant 0 <= i <= a.Length
      invariant multiset(a[..]) == old(multiset(a[..]))
    {
      var j := rng.Uniform(0, i - 1);
      a[i - 1], a[j] := a[j], a[i - 1];
      i := i - 1;
    }
  }
}
