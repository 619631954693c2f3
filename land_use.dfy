/** The land-use pixel rules of `MapSets` (nsi_grids.py): a pixel is classed as sea,
    other land or arable, recoloured by its class, and turned into an arable mask value. */
module LandUse {

  /** One 8-bit channel. */
  type Byte = x: int | 0 <= x < 256

  /** An RGBA pixel of the land-use image. */
  datatype Pixel = Pixel(r: Byte, g: Byte, b: Byte, a: Byte)

  /** The colour of arable land in the land-use image. */
  const Reference: Pixel := Pixel(129, 207, 56, 255)

  /** The L1 distance under which a pixel counts as arable (strict). */
  const ArableCutoff: int := 20

  /** The class codes returned by `pixel_class`. */
  const Sea: int := -1
  const OtherLand: int := 0
  const Arable: int := 1

  function Abs(x: int): nat
  {
    if x < 0 then -x else x
  }

  /** `abs(r-rr)+abs(g-gr)+abs(b-br)+abs(a-ar)` over unbounded integers. */
  function L1(p: Pixel, q: Pixel): nat
  {
    Abs(p.r - q.r) + Abs(p.g - q.g) + Abs(p.b - q.b) + Abs(p.a - q.a)
  }

  /** `pixel_class`: -1 for a transparent pixel (sea), 1 for a pixel within L1 distance 20
      of the arable colour, 0 otherwise, with the distance taken over the integers. */
  function PixelClass(p: Pixel): (c: int)
    ensures c == Sea || c == OtherLand || c == Arable
    ensures c == Sea <==> p.a == 0
  {
    if p.a == 0 then Sea
    else if L1(p, Reference) < ArableCutoff then Arable
    else OtherLand
  }

  /** The class is exactly one of the three codes: sea exactly when alpha is 0, whatever the
      colour, and otherwise arable exactly when the distance is below 20. */
  lemma PixelClassCases(p: Pixel)
    ensures PixelClass(p) == Sea || PixelClass(p) == OtherLand || PixelClass(p) == Arable
    ensures PixelClass(p) == Sea <==> p.a == 0
    ensures PixelClass(p) == Arable <==> p.a != 0 && L1(p, Reference) < ArableCutoff
    ensures PixelClass(p) == OtherLand <==> p.a != 0 && L1(p, Reference) >= ArableCutoff
  {
  }

  /** An arable pixel is close to the arable colour in every channel; in particular it is
      nearly opaque. */
  lemma ArableIsNearReference(p: Pixel)
    requires PixelClass(p) == Arable
    ensures 110 <= p.r <= 148 && 188 <= p.g <= 226 && 37 <= p.b <= 75 && 236 <= p.a
  {
  }

  /** The arable colour itself is arable, and a transparent copy of it is sea. */
  lemma ReferenceIsArable()
    ensures PixelClass(Reference) == Arable
    ensures PixelClass(Reference.(a := 0)) == Sea
  {
  }

  /** `arable_pixel_enhance`: sea is returned unchanged, arable becomes opaque white, and any
      other pixel is darkened to a quarter of each colour channel and made opaque. */
  function ArablePixelEnhance(p: Pixel, pixelClass: int): (q: Pixel)
    ensures pixelClass != Sea ==> q.a == 255
  {
    if pixelClass == Sea then p
    else if pixelClass == Arable then Pixel(255, 255, 255, 255)
    else Pixel(p.r / 4, p.g / 4, p.b / 4, 255)
  }

  /** The three recolourings: sea is unchanged, arable is white, and other land is darker,
      each colour channel being the floor of a quarter of the original. */
  lemma EnhanceCases(p: Pixel, pixelClass: int)
    ensures pixelClass == Sea ==> ArablePixelEnhance(p, pixelClass) == p
    ensures pixelClass == Arable ==> ArablePixelEnhance(p, pixelClass) == Pixel(255, 255, 255, 255)
    ensures pixelClass != Sea && pixelClass != Arable ==>
              var q := ArablePixelEnhance(p, pixelClass);
              4 * q.r <= p.r < 4 * q.r + 4 && 4 * q.g <= p.g < 4 * q.g + 4 && 4 * q.b <= p.b < 4 * q.b + 4 &&
              q.r <= p.r && q.g <= p.g && q.b <= p.b
  {
  }

  /** Recolouring a pixel by its own class never leaves an arable-looking pixel: sea stays sea
      and every land pixel, arable or not, is classed as other land afterwards. */
  lemma EnhancedNeverArable(p: Pixel)
    ensures PixelClass(ArablePixelEnhance(p, PixelClass(p))) == (if p.a == 0 then Sea else OtherLand)
  {
    var c := PixelClass(p);
    var q := ArablePixelEnhance(p, c);
    if c == OtherLand {
      assert q.r <= 63;
      assert L1(q, Reference) >= Abs(q.r - 129) >= 66;
    } else if c == Arable {
      assert L1(q, Reference) == 373;
    }
  }

  /** The arable mask cell: `235*(land_type==1)+20`. */
  function MaskValue(pixelClass: int): (m: Byte)
    ensures m == 255 || m == 20
  {
    235 * (if pixelClass == Arable then 1 else 0) + 20
  }

  /** The mask is 255 exactly for arable pixels, and a mask cell is at least 50 exactly when
      its pixel was arable: the threshold used by the composite map recovers the class. */
  lemma MaskArableIff(pixelClass: int)
    ensures MaskValue(pixelClass) == 255 <==> pixelClass == Arable
    ensures MaskValue(pixelClass) == 20 <==> pixelClass != Arable
    ensures MaskValue(pixelClass) >= 50 <==> pixelClass == Arable
  {
  }

  /** `pixel_class` as written, evaluated with NumPy's uint8 scalar arithmetic (NEP 50, NumPy
      2): each difference with a Python int stays uint8 and wraps modulo 256, `abs` of a uint8
      is the identity, and each partial sum wraps too. */
  function U8(x: int): Byte
  {
    x % 256
  }

  function WrappedDistance(p: Pixel): Byte
  {
    U8(U8(U8(U8(p.r - Reference.r) + U8(p.g - Reference.g)) + U8(p.b - Reference.b)) + U8(p.a - Reference.a))
  }

  function PixelClassAsWritten(p: Pixel): (c: int)
    ensures c == Sea || c == OtherLand || c == Arable
    ensures c == Sea <==> p.a == 0
    ensures c == Arable <==>
              p.a != 0 && (p.r - Reference.r + p.g - Reference.g + p.b - Reference.b + p.a - Reference.a) % 256 < ArableCutoff
  {
    WrappedDistanceIsModular(p);
    if p.a == 0 then Sea
    else if WrappedDistance(p) < ArableCutoff then Arable
    else OtherLand
  }

  /** The wrapped distance agrees with the true distance modulo 256, so the two classifiers
      agree exactly when the wrap-around does not change which side of 20 the sum falls. */
  lemma WrappedDistanceIsModular(p: Pixel)
    ensures WrappedDistance(p) == (p.r - Reference.r + p.g - Reference.g + p.b - Reference.b + p.a - Reference.a) % 256
  {
    var dr, dg, db, da := p.r - Reference.r, p.g - Reference.g, p.b - Reference.b, p.a - Reference.a;
    WrapAdd(dr, dg);
    WrapAdd(dr + dg, db);
    WrapAdd(dr + dg + db, da);
  }

  /** Adding the wrapped values of two integers wraps to the wrapped sum. */
  lemma WrapAdd(x: int, y: int)
    ensures U8(U8(x) + U8(y)) == U8(x + y)
  {
    var qx, qy := x / 256, y / 256;
    assert x == 256 * qx + U8(x);
    assert y == 256 * qy + U8(y);
    assert x + y == 256 * (qx + qy) + (U8(x) + U8(y));
  }

  /** A pixel one step from the arable colour is misclassed as other land: its red
      difference wraps to 255. */
  lemma AsWrittenMissesNearPixel()
    ensures L1(Pixel(128, 207, 56, 255), Reference) == 1
    ensures PixelClass(Pixel(128, 207, 56, 255)) == Arable
    ensures PixelClassAsWritten(Pixel(128, 207, 56, 255)) == OtherLand
  {
  }

  /** A pixel 256 away from the arable colour is misclassed as arable: its differences wrap
      to 128 + 128 = 256, which wraps to 0. */
  lemma AsWrittenAcceptsFarPixel()
    ensures L1(Pixel(1, 79, 56, 255), Reference) == 256
    ensures PixelClass(Pixel(1, 79, 56, 255)) == OtherLand
    ensures PixelClassAsWritten(Pixel(1, 79, 56, 255)) == Arable
  {
  }
}
