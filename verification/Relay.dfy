/** The rate-limited copying loop of core/src/relay.rs. */
module Relay {
  import opened Base
  import opened Streams
  import opened Limiter

  const RELAY_BUFFER_SIZE: nat := 64 * 1024

  /** `u64::saturating_add`. */
  function SaturatingAdd(a: nat, b: nat): nat {
    Min(a + b, USIZE_MODULUS - 1)
  }

  /**
   * `copy_with_limit`, whose limiter others may share: what is written is what was read, in order, however
   * the reads are cut, and at no time more than the burst plus the rate times the elapsed time. It comes to
   * the end of the stream unless others leave it nothing; `patience` bounds the rounds it waits for a chunk.
   */
  method CopyWithLimit(reader: Reader, limiter: BandwidthLimiter?, clock: Clock, patience: nat)
    returns (finished: bool, total: nat, written: seq<Byte>)
    requires clock.Valid() && (limiter != null ==> limiter.Valid(clock))
    modifies reader, clock, limiter
    ensures written <= old(reader.rest)
    ensures finished ==> written == old(reader.rest) && reader.rest == [] && total == Min(|written|, USIZE_MODULUS - 1)
    ensures limiter == null || (old(limiter.others) == [] && patience >= 2) ==> finished
    ensures limiter != null ==>
              AtMost(|written| as real, limiter.limits.burst as real, limiter.limits.rate as real,
                     clock.now - old(clock.now))
  {
    finished, total, written := true, 0, [];
    ghost var input := reader.rest;
    ghost var start := clock.now;
    while finished
      invariant clock.Valid() && (limiter != null ==> limiter.Valid(clock))
      invariant if finished then input == written + reader.rest else written <= input
      invariant finished ==> total == Min(|written|, USIZE_MODULUS - 1)
      invariant limiter != null ==> Booked(limiter, clock, start, |written|)
      invariant limiter == null || (old(limiter.others) == [] && patience >= 2) ==> finished
      invariant limiter != null && old(limiter.others) == [] ==> limiter.others == []
      decreases finished, |reader.rest|
    {
      var buffer := reader.Read(RELAY_BUFFER_SIZE);
      if buffer == [] {
        break;
      }
      var out;
      finished, out := WriteLimited(buffer, limiter, clock, patience, start, |written|);
      written := written + out;
      total := SaturatingAdd(total, |buffer|);
    }
    if limiter != null {
      Unbook(limiter, clock, start, |written|);
    }
  }

  /** What was written so far, with what the limiter still holds, is covered by the burst and the refills. */
  ghost predicate Booked(limiter: BandwidthLimiter, clock: Clock, start: real, written: nat)
    reads limiter, clock
  {
    AtMost(written as real + Level(limiter.limits, limiter.View(), clock.now), limiter.limits.burst as real,
           limiter.limits.rate as real, clock.now - start)
  }

  lemma {:induction false} Unbook(limiter: BandwidthLimiter, clock: Clock, start: real, written: nat)
    requires limiter.Valid(clock) && Booked(limiter, clock, start, written)
    ensures AtMost(written as real, limiter.limits.burst as real, limiter.limits.rate as real, clock.now - start)
  {
    LevelRange(limiter.limits, limiter.View(), clock.now);
  }

  /** The inner loop: write one buffer in the chunks the limiter grants. */
  method WriteLimited(buffer: seq<Byte>, limiter: BandwidthLimiter?, clock: Clock, patience: nat,
                      ghost start: real, ghost before: nat)
    returns (finished: bool, out: seq<Byte>)
    requires clock.Valid()
    requires limiter != null ==> limiter.Valid(clock) && Booked(limiter, clock, start, before)
    modifies clock, limiter
    ensures clock.Valid()
    ensures out <= buffer && (finished ==> out == buffer)
    ensures limiter != null ==> limiter.Valid(clock) && Booked(limiter, clock, start, before + |out|)
    ensures limiter != null && old(limiter.others) == [] ==> limiter.others == []
    ensures limiter == null || (old(limiter.others) == [] && patience >= 2) ==> finished
  {
    out := [];
    var written := 0;
    while written < |buffer|
      invariant written <= |buffer| && out == buffer[..written]
      invariant clock.Valid()
      invariant limiter != null ==> limiter.Valid(clock) && Booked(limiter, clock, start, before + written)
      invariant limiter != null && old(limiter.others) == [] ==> limiter.others == []
    {
      var chunk := |buffer| - written;
      if limiter != null {
        var granted := NextChunk(limiter, clock, |buffer| - written, patience, start, before + written);
        if granted.None? {
          return false, out;
        }
        chunk := granted.value;
      }
      out := out + buffer[written..written + chunk];
      written := written + chunk;
    }
    return true, out;
  }

  /** The next chunk, booked. */
  method NextChunk(limiter: BandwidthLimiter, clock: Clock, requested: nat, patience: nat,
                   ghost start: real, ghost before: nat)
    returns (granted: Option<nat>)
    requires limiter.Valid(clock) && Booked(limiter, clock, start, before) && requested > 0
    modifies clock, limiter
    ensures limiter.Valid(clock)
    ensures granted.Some? ==> 0 < granted.value <= requested
    ensures Booked(limiter, clock, start, before + if granted.Some? then granted.value else 0)
    ensures old(limiter.others) == [] ==> limiter.others == []
    ensures old(limiter.others) == [] && patience >= 2 ==> granted.Some?
  {
    ghost var asked := clock.now;
    ghost var level := Level(limiter.limits, limiter.View(), asked);
    granted := limiter.WaitForChunk(clock, requested, patience);
    ghost var chunk := if granted.Some? then granted.value else 0;
    Shift(chunk as real + Level(limiter.limits, limiter.View(), clock.now), level,
          limiter.limits.rate as real, clock.now - asked, before as real);
    Accumulate(before as real + level, limiter.limits.burst as real, limiter.limits.rate as real, asked - start,
               before as real + (chunk as real + Level(limiter.limits, limiter.View(), clock.now)), clock.now - asked);
  }
}
