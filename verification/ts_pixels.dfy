/**
  Which pixels the TS estimator fits: `_get_mask` zeroes the exposure of
  pixels that have exposure but no background, and `_get_positions` lists the
  remaining exposed pixels of the image interior in row-major order.
 */
module TsPixels {
  import opened TsWindow

  /** The exposure `_get_mask` leaves at a pixel: zero where the background is
      zero and the exposure positive, the old exposure everywhere else. */
  function CorrectedExposure(exposure: real, background: real): (r: real)
    ensures r == exposure || r == 0.0
    ensures r > 0.0 <==> exposure > 0.0 && background != 0.0
  {
    if background == 0.0 && exposure > 0.0 then 0.0 else exposure
  }

  /** Correcting twice changes nothing more than correcting once. */
  lemma CorrectionIdempotent(exposure: real, background: real)
    ensures CorrectedExposure(CorrectedExposure(exposure, background), background) ==
            CorrectedExposure(exposure, background)
  {
  }

  /** `_get_mask`: zeroes, in place, the exposure of every pixel with zero
      background and positive exposure; reports whether there was any (the
      source logs a warning then); returns the mask of pixels whose exposure is
      still positive. */
  method GetMask(exposure: array2<real>, background: array2<real>) returns (mask: array2<bool>, warned: bool)
    requires background.Length0 == exposure.Length0 && background.Length1 == exposure.Length1
    modifies exposure
    ensures fresh(mask)
    ensures mask.Length0 == exposure.Length0 && mask.Length1 == exposure.Length1
    ensures forall j, i :: 0 <= j < exposure.Length0 && 0 <= i < exposure.Length1 ==>
              exposure[j, i] == CorrectedExposure(old(exposure[j, i]), old(background[j, i]))
    ensures forall j, i :: 0 <= j < exposure.Length0 && 0 <= i < exposure.Length1 ==>
              (mask[j, i] <==> exposure[j, i] > 0.0)
    ensures forall j, i :: 0 <= j < exposure.Length0 && 0 <= i < exposure.Length1 && mask[j, i] ==>
              old(background[j, i]) != 0.0
    ensures warned <==> (exists j, i :: 0 <= j < exposure.Length0 && 0 <= i < exposure.Length1 &&
                           old(background[j, i]) == 0.0 && old(exposure[j, i]) > 0.0)
  {
    var h, w := exposure.Length0, exposure.Length1;
    mask := new bool[h, w];
    warned := false;
    var j := 0;
    while j < h
      invariant 0 <= j <= h
      invariant forall y, x :: 0 <= y < h && 0 <= x < w ==> background[y, x] == old(background[y, x])
      invariant forall y, x :: 0 <= y < j && 0 <= x < w ==>
                  exposure[y, x] == CorrectedExposure(old(exposure[y, x]), old(background[y, x]))
      invariant forall y, x :: j <= y < h && 0 <= x < w ==> exposure[y, x] == old(exposure[y, x])
      invariant forall y, x :: 0 <= y < j && 0 <= x < w ==> (mask[y, x] <==> exposure[y, x] > 0.0)
      invariant warned <==> (exists y, x :: 0 <= y < j && 0 <= x < w &&
                               old(background[y, x]) == 0.0 && old(exposure[y, x]) > 0.0)
    {
      var i := 0;
      while i < w
        invariant 0 <= i <= w
        invariant forall y, x :: 0 <= y < h && 0 <= x < w ==> background[y, x] == old(background[y, x])
        invariant forall y, x :: (0 <= y < j && 0 <= x < w) || (y == j && 0 <= x < i) ==>
                    exposure[y, x] == CorrectedExposure(old(exposure[y, x]), old(background[y, x]))
        invariant forall y, x :: (j < y < h && 0 <= x < w) || (y == j && i <= x < w) ==>
                    exposure[y, x] == old(exposure[y, x])
        invariant forall y, x :: (0 <= y < j && 0 <= x < w) || (y == j && 0 <= x < i) ==>
                    (mask[y, x] <==> exposure[y, x] > 0.0)
        invariant warned <==> (exists y, x :: ((0 <= y < j && 0 <= x < w) || (y == j && 0 <= x < i)) &&
                                 old(background[y, x]) == 0.0 && old(exposure[y, x]) > 0.0)
      {
        if background[j, i] == 0.0 && exposure[j, i] > 0.0 {
          exposure[j, i] := 0.0;
          warned := true;
        }
        mask[j, i] := exposure[j, i] > 0.0;
        i := i + 1;
      }
      j := j + 1;
    }
  }

  /** (j, i) comes strictly before (y, x) in row-major order. */
  predicate RowMajorBefore(p: (int, int), q: (int, int)) {
    p.0 < q.0 || (p.0 == q.0 && p.1 < q.1)
  }

  /** `_get_positions`: the masked pixels of the interior left by a k0 x k1
      kernel, each once, in row-major order. */
  method GetPositions(mask: array2<bool>, k0: nat, k1: nat) returns (positions: seq<(int, int)>)
    ensures forall p :: p in positions <==>
              Interior(mask.Length0, mask.Length1, k0, k1, p.0, p.1) && mask[p.0, p.1]
    ensures forall a, b :: 0 <= a < b < |positions| ==> RowMajorBefore(positions[a], positions[b])
  {
    var yMin, yMax := k0 / 2, mask.Length0 - k0 / 2;
    var xMin, xMax := k1 / 2, mask.Length1 - k1 / 2;
    positions := [];
    var j := yMin;
    while j < yMax
      invariant yMin <= j && (yMin <= yMax ==> j <= yMax)
      invariant forall p :: p in positions <==>
                  Interior(mask.Length0, mask.Length1, k0, k1, p.0, p.1) && p.0 < j && mask[p.0, p.1]
      invariant forall a, b :: 0 <= a < b < |positions| ==> RowMajorBefore(positions[a], positions[b])
    {
      var i := xMin;
      while i < xMax
        invariant xMin <= i && (xMin <= xMax ==> i <= xMax)
        invariant forall p :: p in positions <==>
                    Interior(mask.Length0, mask.Length1, k0, k1, p.0, p.1) &&
                    (p.0 < j || (p.0 == j && p.1 < i)) && mask[p.0, p.1]
        invariant forall a, b :: 0 <= a < b < |positions| ==> RowMajorBefore(positions[a], positions[b])
      {
        if mask[j, i] {
          positions := positions + [(j, i)];
        }
        i := i + 1;
      }
      j := j + 1;
    }
  }
}
