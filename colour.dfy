/** Colour samples, their packing into one 32-bit number, and the
    colour-distance test that the fuzzy searches use. */
module Colours {

  type u8 = x: int | 0 <= x < 0x100
  type u32 = x: int | 0 <= x < 0x1_0000_0000

  /** One RGBA sample: four bytes in the order red, green, blue, alpha. */
  datatype Rgba = Rgba(r: u8, g: u8, b: u8, a: u8)

  /** Packs a sample with red in bits 24-31, green in 16-23, blue in 8-15
      and alpha in 0-7. The four shifted bytes occupy disjoint bits, so the
      bitwise or of the source is the sum written here. */
  function Pack(c: Rgba): u32
  {
    c.r * 0x100_0000 + c.g * 0x1_0000 + c.b * 0x100 + c.a
  }

  /** Splits a packed colour back into its four bytes (shift, then mask). */
  function Unpack(n: u32): Rgba
  {
    Rgba((n / 0x100_0000) % 0x100, (n / 0x1_0000) % 0x100, (n / 0x100) % 0x100, n % 0x100)
  }

  // Euclidean division by each of the three shift amounts, stated once so
  // that the packing proofs only instantiate them.

  lemma DivMod8(n: int, q: int, r: int)
    requires n == q * 0x100 + r && 0 <= r < 0x100
    ensures n / 0x100 == q && n % 0x100 == r
  {
  }

  lemma DivMod16(n: int, q: int, r: int)
    requires n == q * 0x1_0000 + r && 0 <= r < 0x1_0000
    ensures n / 0x1_0000 == q
  {
  }

  lemma DivMod24(n: int, q: int, r: int)
    requires n == q * 0x100_0000 + r && 0 <= r < 0x100_0000
    ensures n / 0x100_0000 == q
  {
  }

  /** Unpacking a packed sample gives back the four bytes. */
  lemma UnpackPack(c: Rgba)
    ensures Unpack(Pack(c)) == c
  {
    var n := Pack(c);
    DivMod24(n, c.r, c.g * 0x1_0000 + c.b * 0x100 + c.a);
    DivMod16(n, c.r * 0x100 + c.g, c.b * 0x100 + c.a);
    DivMod8(n, c.r * 0x1_0000 + c.g * 0x100 + c.b, c.a);
    DivMod8(c.r, 0, c.r);
    DivMod8(c.r * 0x100 + c.g, c.r, c.g);
    DivMod8(c.r * 0x1_0000 + c.g * 0x100 + c.b, c.r * 0x100 + c.g, c.b);
  }

  /** Packing the unpacked bytes gives back the number. */
  lemma PackUnpack(n: u32)
    ensures Pack(Unpack(n)) == n
  {
    var q1, a := n / 0x100, n % 0x100;
    var q2, b := q1 / 0x100, q1 % 0x100;
    var r, g := q2 / 0x100, q2 % 0x100;
    assert n == ((r * 0x100 + g) * 0x100 + b) * 0x100 + a;
    DivMod16(n, q2, b * 0x100 + a);
    DivMod24(n, r, g * 0x1_0000 + b * 0x100 + a);
    DivMod8(r, 0, r);
  }

  /** Packing is one-to-one: two samples with the same number are equal. */
  lemma PackInjective(c1: Rgba, c2: Rgba)
    ensures Pack(c1) == Pack(c2) <==> c1 == c2
  {
    UnpackPack(c1);
    UnpackPack(c2);
  }

  /** d * d, defined by recursion on |d| so that a proof sees a square only
      when it unfolds one; `SquareIsProduct` connects it to the product. */
  function Square(d: int): nat
    decreases if d < 0 then 1 - 2 * d else 2 * d
  {
    if d < 0 then Square(-d) else if d == 0 then 0 else Square(d - 1) + 2 * d - 1
  }

  lemma {:induction false} SquareIsProduct(d: int)
    ensures Square(d) == d * d
    decreases if d < 0 then 1 - 2 * d else 2 * d
  {
    if d < 0 {
      SquareIsProduct(-d);
    } else if d > 0 {
      SquareIsProduct(d - 1);
    }
  }

  /** Squared Euclidean distance between two packed colours over all four
      channels. The source always includes alpha (its alpha-less branch is
      switched off by a constant `true`). */
  function SqDistance(c1: u32, c2: u32): nat
  {
    var p, q := Unpack(c1), Unpack(c2);
    Square(p.r - q.r) + Square(p.g - q.g) + Square(p.b - q.b) + Square(p.a - q.a)
  }

  /** The tolerance test `distance <= threshold`, stated without a square
      root: `tolSq` is the largest integer whose square root does not exceed
      the threshold, and is negative when the threshold is. */
  predicate Within(c1: u32, c2: u32, tolSq: int)
  {
    SqDistance(c1, c2) <= tolSq
  }

  /** With zero tolerance, "within tolerance" is exact equality. */
  lemma ZeroToleranceIsEquality(c1: u32, c2: u32)
    ensures Within(c1, c2, 0) <==> c1 == c2
  {
    var p, q := Unpack(c1), Unpack(c2);
    SquareIsProduct(p.r - q.r);
    SquareIsProduct(p.g - q.g);
    SquareIsProduct(p.b - q.b);
    SquareIsProduct(p.a - q.a);
    if Within(c1, c2, 0) {
      assert p == q;
      PackUnpack(c1);
      PackUnpack(c2);
    }
  }

  /** Any tolerance accepts identical colours, and a negative one accepts
      nothing. */
  lemma WithinReflexive(c: u32, tolSq: int)
    ensures Within(c, c, tolSq) <==> tolSq >= 0
  {
    assert SqDistance(c, c) == 0;
  }

  /** A colour test: does the pattern colour (first) accept the image colour
      (second)? The searches are stated for any test; `Tolerance` is the one
      the source applies. */
  type ColourTest = (u32, u32) -> bool

  /** The tolerance test of the fuzzy searches for threshold `tolSq`. */
  function Tolerance(tolSq: int): ColourTest
  {
    (c1: u32, c2: u32) => Within(c1, c2, tolSq)
  }

  /** A test that accepts every colour against itself. */
  predicate Reflexive(accepts: ColourTest)
  {
    forall c: u32 :: accepts(c, c)
  }

  /** The tolerance test is reflexive exactly when its threshold is not
      negative, and with threshold zero it is exact equality. */
  lemma ToleranceProperties(tolSq: int)
    ensures Reflexive(Tolerance(tolSq)) <==> tolSq >= 0
    ensures forall c1: u32, c2: u32 :: Tolerance(0)(c1, c2) <==> c1 == c2
  {
    if tolSq < 0 {
      WithinReflexive(0, tolSq);
      assert !Tolerance(tolSq)(0, 0);
    } else {
      forall c: u32 ensures Tolerance(tolSq)(c, c) {
        WithinReflexive(c, tolSq);
      }
    }
    forall c1: u32, c2: u32 ensures Tolerance(0)(c1, c2) <==> c1 == c2 {
      ZeroToleranceIsEquality(c1, c2);
    }
  }
}
