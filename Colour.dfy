/** The viewer's colour encoding: an RGB triple packed into one integer with
    blue in the high byte and red in the low byte (`rgb_to_bgr_hex`). */
module Colour {

  /** A `[r, g, b]` list from a feature's classification. The source does not
      range-check the channels, so they are unbounded here. */
  datatype Rgb = Rgb(r: int, g: int, b: int)

  /** The colour a feature without one is given. */
  const GREEN: Rgb := Rgb(0, 255, 0)

  predicate IsByteTriple(c: Rgb)
  {
    0 <= c.r < 0x100 && 0 <= c.g < 0x100 && 0 <= c.b < 0x100
  }

  /** `(b << 16) + (g << 8) + r`. A left shift of a Python int by k is a
      multiplication by 2^k, for negative values too, so the product form is
      exact for every channel value. */
  function PackBgr(c: Rgb): (packed: int)
    ensures IsByteTriple(c) ==> 0 <= packed < 0x100_0000
  {
    c.b * 0x1_0000 + c.g * 0x100 + c.r
  }

  /** Reads the three channels back out of a packed colour. */
  function UnpackBgr(packed: int): (c: Rgb)
    ensures 0 <= packed < 0x100_0000 ==> IsByteTriple(c)
  {
    Rgb(packed % 0x100, (packed / 0x100) % 0x100, packed / 0x1_0000)
  }

  /** Every channel can be recovered from the packed value. */
  lemma UnpackPack(c: Rgb)
    requires IsByteTriple(c)
    ensures UnpackBgr(PackBgr(c)) == c
  {
    var n := PackBgr(c);
    assert n == (c.b * 0x100 + c.g) * 0x100 + c.r;
    assert n % 0x100 == c.r && n / 0x100 == c.b * 0x100 + c.g;
    assert (c.b * 0x100 + c.g) % 0x100 == c.g;
    assert n / 0x1_0000 == c.b;
  }

  /** Packing is onto the 24-bit range: every value in it is some byte triple. */
  lemma PackUnpack(packed: int)
    requires 0 <= packed < 0x100_0000
    ensures PackBgr(UnpackBgr(packed)) == packed
  {
    var c := UnpackBgr(packed);
    var q := packed / 0x100;
    assert packed == q * 0x100 + c.r;
    assert q == (q / 0x100) * 0x100 + c.g;
    assert q / 0x100 == c.b by {
      DivDiv(packed);
    }
  }

  lemma DivDiv(n: int)
    requires n >= 0
    ensures (n / 0x100) / 0x100 == n / 0x1_0000
  {
  }

  /** The default green packs to 65280. */
  lemma GreenPacked()
    ensures PackBgr(GREEN) == 65280
  {
  }
}
