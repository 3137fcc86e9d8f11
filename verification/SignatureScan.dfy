// The search for the checksum signature in a bootloader image, which steps back
// after a failed match.
module SignatureScan {
  import opened Wrappers
  import opened Bits

  const CHECKSUM_LENGTH: nat := 128

  // The signature starts at `at` in the image.
  predicate MatchesAt(image: seq<Byte>, sign: seq<Byte>, at: nat) {
    at + |sign| <= |image| && image[at..at + |sign|] == sign
  }

  // The loop bound lets a match starting at s end in time; it is |sign| - 1 bytes short of the last
  // start that leaves room for the checksum.
  predicate InScan(image: seq<Byte>, sign: seq<Byte>, s: nat) {
    s + 2 * |sign| + CHECKSUM_LENGTH <= |image| + 1
  }

  // So an image of the minimum size accepted, a signature and room for a checksum, is never enrolled.
  lemma SmallestImageMissed(sign: seq<Byte>, checksum: seq<Byte>)
    requires |sign| > 1 && |checksum| == CHECKSUM_LENGTH
    ensures var image := sign + checksum;
            MatchesAt(image, sign, 0) && forall s: nat :: !(InScan(image, sign, s) && MatchesAt(image, sign, s))
  {
    assert (sign + checksum)[..|sign|] == sign;
  }

  // `enroll_config`: Some(p) is `checksum_loc`, the byte after the signature.
  method Find(image: seq<Byte>, sign: seq<Byte>) returns (r: Option<nat>)
    requires 0 < |sign| && |sign| + CHECKSUM_LENGTH <= |image|
    ensures r.Some? ==> |sign| <= r.value && MatchesAt(image, sign, r.value - |sign|)
                        && r.value + CHECKSUM_LENGTH <= |image|
                        && forall s: nat | s < r.value - |sign| :: !MatchesAt(image, sign, s)
    ensures r.Some? <==> exists s: nat :: InScan(image, sign, s) && MatchesAt(image, sign, s)
  {
    hide MatchesAt;
    var minSize := |sign| + CHECKSUM_LENGTH;
    var bound := |image| - minSize + 1;
    var i, checked := 0, 0;
    while i < bound
      invariant checked <= i <= bound && checked < |sign|
      invariant image[i - checked..i] == sign[..checked]
      invariant forall s: nat | s < i - checked :: !MatchesAt(image, sign, s)
      decreases bound - (i - checked), |sign| - checked
    {
      if image[i] != sign[checked] {
        NoMatch(image, sign, i - checked, checked);
        if checked > 0 {
          i := i - checked;
          checked := 0;
        }
        i := i + 1;
        continue;
      }
      OneMore(image, sign, i, checked);
      checked := checked + 1;
      if checked == |sign| {
        Matched(image, sign, i + 1 - checked);
        return Some(i + 1);
      }
      i := i + 1;
    }
    return None;
  }

  lemma OneMore(image: seq<Byte>, sign: seq<Byte>, i: nat, k: nat)
    requires k <= i < |image| && k < |sign| && image[i - k..i] == sign[..k] && image[i] == sign[k]
    ensures image[i - k..i + 1] == sign[..k + 1]
  {
    assert image[i - k..i + 1] == image[i - k..i] + [image[i]];
  }

  lemma Matched(image: seq<Byte>, sign: seq<Byte>, at: nat)
    requires at + |sign| <= |image| && image[at..at + |sign|] == sign[..|sign|]
    ensures MatchesAt(image, sign, at)
  {
    assert sign[..|sign|] == sign;
  }

  lemma NoMatch(image: seq<Byte>, sign: seq<Byte>, at: nat, k: nat)
    requires at + k < |image| && k < |sign| && image[at + k] != sign[k]
    ensures !MatchesAt(image, sign, at)
  {
    if at + |sign| <= |image| { assert image[at..at + |sign|][k] == image[at + k]; }
  }
}
