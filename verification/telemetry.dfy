/**
 * Peak-memory reporting (lines 122-124): the overall peak is the max of the
 * three phase-local readings. The readings are taken as natural byte counts;
 * the scaling to GiB (division by 1024^3) and the allocator itself are not
 * modelled.
 */
module Telemetry {

  /** `max(peak_mem_conditioning, peak_mem_generation, peak_mem_decoding)`. */
  function OverallPeak(conditioning: nat, generation: nat, decoding: nat): (peak: nat)
    ensures conditioning <= peak && generation <= peak && decoding <= peak
    ensures peak == conditioning || peak == generation || peak == decoding
  {
    var first := if conditioning >= generation then conditioning else generation;
    if first >= decoding then first else decoding
  }

  /** The overall peak is the least bound of the three phases: any bound on all three bounds it. */
  lemma OverallPeakLeast(conditioning: nat, generation: nat, decoding: nat, bound: nat)
    requires conditioning <= bound && generation <= bound && decoding <= bound
    ensures OverallPeak(conditioning, generation, decoding) <= bound
  {
  }
}
