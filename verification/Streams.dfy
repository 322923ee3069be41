/** The byte streams the copying loops work on. */
module Streams {
  import opened Base

  /** How much a read of at most `cap` bytes returns, given how the stream will be cut. */
  function ReadSize(cuts: seq<nat>, cap: nat, available: nat): (n: nat)
    ensures n <= cap && n <= available
    ensures cap > 0 ==> (n == 0 <==> available == 0)
  {
    Min(if cuts == [] then cap else Min(Max(1, cuts[0]), cap), available)
  }

  function Rest(cuts: seq<nat>): seq<nat> {
    if cuts == [] then [] else cuts[1..]
  }

  /**
   * A stream that hands its bytes out in pieces of its own choosing: `cuts` says in which, and claims
   * about readers are made for every `cuts`.
   */
  class Reader {
    var rest: seq<Byte>
    var cuts: seq<nat>

    constructor (bytes: seq<Byte>, cuts: seq<nat>)
      ensures rest == bytes && this.cuts == cuts
    {
      this.rest, this.cuts := bytes, cuts;
    }

    /** At least one and at most `cap` of the remaining bytes, or nothing at the end of the stream. */
    method Read(cap: nat) returns (piece: seq<Byte>)
      requires cap > 0
      modifies this
      ensures piece == old(rest)[..ReadSize(old(cuts), cap, |old(rest)|)]
      ensures rest == old(rest)[ReadSize(old(cuts), cap, |old(rest)|)..]
      ensures cuts == Rest(old(cuts))
      ensures old(rest) == piece + rest
    {
      var n := ReadSize(cuts, cap, |rest|);
      piece := rest[..n];
      rest := rest[n..];
      cuts := Rest(cuts);
    }
  }
}
