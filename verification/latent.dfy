/**
 * Latent-size resolution (`to_latent_size`): each pixel dimension is rounded
 * up to a multiple of 16 and divided by the decoder's downscale factor 8; the
 * result is ordered (height, width) although the input is (width, height).
 *
 * Python's `//` with a positive divisor floors, which is what Dafny's `/`
 * does for a positive divisor, so the model holds for every integer input.
 */
module LatentSize {
  import opened Common

  /** `((d + 15) // 16) * 16`: the least multiple of 16 that is at least d. */
  function RoundUp16(d: int): (r: int)
    ensures r % 16 == 0 && d <= r < d + 16
  {
    ((d + 15) / 16) * 16
  }

  /**
   * What `to_latent_size` returns and prints: the latent size (height, width)
   * and, when the warning is printed, the corrected pixel size (width, height)
   * that it names.
   */
  datatype Resolution = Resolution(latent: (int, int), warning: Option<(int, int)>)

  /** `to_latent_size(image_size)` as written, with `image_size == (w, h)`. */
  function ToLatentSize(imageSize: (int, int)): (r: Resolution)
    ensures var (w, h) := imageSize;
            var lh := r.latent.0 * 8;
            var lw := r.latent.1 * 8;
            lh % 16 == 0 && h <= lh < h + 16 &&
            lw % 16 == 0 && w <= lw < w + 16
    ensures r.warning.Some? <==> (r.latent.0 * 8, r.latent.1 * 8) != imageSize
    ensures r.warning.Some? ==> r.warning.value == (r.latent.1 * 8, r.latent.0 * 8)
  {
    var (w, h) := imageSize;
    var h := RoundUp16(h);
    var w := RoundUp16(w);
    EighthOfMultiple(h);
    EighthOfMultiple(w);
    Resolution((h / 8, w / 8), if (h, w) != imageSize then Some((w, h)) else None)
  }

  /** A multiple of 16 divided by 8 is exact and even. */
  lemma EighthOfMultiple(r: int)
    requires r % 16 == 0
    ensures (r / 8) * 8 == r && (r / 8) % 2 == 0
  {
    var q := r / 16;
    assert r == 16 * q;
    assert r / 8 == 2 * q;
  }

  /** A multiple of 16 that is at least d is at least the multiple of 16 in [d, d + 16). */
  lemma LeastMultiple(d: int, r: int, m: int)
    requires r % 16 == 0 && d <= r < d + 16
    requires m % 16 == 0 && m >= d
    ensures m >= r
  {
    assert m == 16 * (m / 16);
    assert r == 16 * (r / 16);
  }

  /** No multiple of 16 that is at least the input dimension is below the resolved one. */
  lemma LatentIsLeast(imageSize: (int, int), m: int)
    requires m % 16 == 0
    ensures m >= imageSize.1 ==> m >= ToLatentSize(imageSize).latent.0 * 8
    ensures m >= imageSize.0 ==> m >= ToLatentSize(imageSize).latent.1 * 8
  {
    var r := ToLatentSize(imageSize);
    if m >= imageSize.1 {
      LeastMultiple(imageSize.1, r.latent.0 * 8, m);
    }
    if m >= imageSize.0 {
      LeastMultiple(imageSize.0, r.latent.1 * 8, m);
    }
  }

  /** For a positive size both latent components are positive and even (16 / 8 == 2). */
  lemma LatentPositiveEven(imageSize: (int, int))
    requires imageSize.0 > 0 && imageSize.1 > 0
    ensures var (lh, lw) := ToLatentSize(imageSize).latent;
            lh > 0 && lw > 0 && lh % 2 == 0 && lw % 2 == 0
  {
  }

  /** A size already divisible by 16 resolves to (h / 8, w / 8). */
  lemma LatentOfDivisible(imageSize: (int, int))
    requires imageSize.0 % 16 == 0 && imageSize.1 % 16 == 0
    ensures ToLatentSize(imageSize).latent == (imageSize.1 / 8, imageSize.0 / 8)
  {
    var (w, h) := imageSize;
    assert RoundUp16(h) == h by { RoundUp16Fixed(h); }
    assert RoundUp16(w) == w by { RoundUp16Fixed(w); }
  }

  /** Rounding leaves d alone exactly when d is already a multiple of 16. */
  lemma RoundUp16Fixed(d: int)
    ensures RoundUp16(d) == d <==> d % 16 == 0
  {
    if d % 16 == 0 {
      var r := RoundUp16(d);
      assert (r - d) % 16 == 0 && 0 <= r - d < 16;
    }
  }

  /**
   * The warning as written fires exactly when rounding changes a dimension OR
   * the size is not square: the coded comparison pairs the rounded height with
   * the input width.
   */
  lemma {:induction false} WarningAsWritten(imageSize: (int, int))
    ensures ToLatentSize(imageSize).warning.Some? <==>
            imageSize.0 % 16 != 0 || imageSize.1 % 16 != 0 || imageSize.0 != imageSize.1
  {
    var (w, h) := imageSize;
    RoundUp16Fixed(w);
    RoundUp16Fixed(h);
    if RoundUp16(h) == w && RoundUp16(w) == h {
      // w is a multiple of 16, so it rounds to itself, hence h == w.
      RoundUp16Fixed(RoundUp16(h));
    }
  }

  /** A non-square size that is already divisible by 16 still gets a warning, naming the unchanged size. */
  lemma SpuriousWarning(w: int, h: int)
    requires w % 16 == 0 && h % 16 == 0 && w != h
    ensures ToLatentSize((w, h)).warning == Some((w, h))
  {
    WarningAsWritten((w, h));
    RoundUp16Fixed(w);
    RoundUp16Fixed(h);
  }

  /**
   * The intended resolver: the same latent size, with the warning printed
   * exactly when rounding changed the (width, height) pair.
   */
  function ToLatentSizeIntended(imageSize: (int, int)): (r: Resolution)
    ensures r.latent == ToLatentSize(imageSize).latent
    ensures r.warning.Some? ==> r.warning.value == (r.latent.1 * 8, r.latent.0 * 8)
  {
    var (w, h) := imageSize;
    var h := RoundUp16(h);
    var w := RoundUp16(w);
    EighthOfMultiple(h);
    EighthOfMultiple(w);
    Resolution((h / 8, w / 8), if (w, h) != imageSize then Some((w, h)) else None)
  }

  /** The intended warning fires iff a dimension is not a multiple of 16. */
  lemma {:induction false} IntendedWarning(imageSize: (int, int))
    ensures ToLatentSizeIntended(imageSize).warning.Some? <==>
            imageSize.0 % 16 != 0 || imageSize.1 % 16 != 0
  {
    RoundUp16Fixed(imageSize.0);
    RoundUp16Fixed(imageSize.1);
  }
}
