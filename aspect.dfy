/**
 The aspect-ratio lock. The ratio is kept exactly, as the pair (ratioWidth,
 ratioHeight) of the original image's dimensions, and the paired dimension is the
 truncating quotient of the exact ratio.
 */
module Aspect {

  /** The height paired with an edited width: `int(width / (ratioWidth / ratioHeight))`. */
  function DeriveHeight(width: int, ratioWidth: int, ratioHeight: int): (h: int)
    requires width > 0 && ratioWidth > 0 && ratioHeight > 0
    ensures h >= 0
    ensures h * ratioWidth <= width * ratioHeight < (h + 1) * ratioWidth
  {
    (width * ratioHeight) / ratioWidth
  }

  /** The width paired with an edited height: `int(height * (ratioWidth / ratioHeight))`. */
  function DeriveWidth(height: int, ratioWidth: int, ratioHeight: int): (w: int)
    requires height > 0 && ratioWidth > 0 && ratioHeight > 0
    ensures w >= 0
    ensures w * ratioHeight <= height * ratioWidth < (w + 1) * ratioHeight
  {
    (height * ratioWidth) / ratioHeight
  }

  /** The quotient is the only integer within one step of the exact value. */
  lemma {:induction false} FloorUnique(q: int, a: int, b: int, c: int)
    requires b > 0
    requires q * b <= a < (q + 1) * b
    requires c * b <= a < (c + 1) * b
    ensures q == c
  {
    if q < c {
      assert (q + 1) * b <= c * b by {
        assert q + 1 <= c;
        MulMono(q + 1, c, b);
      }
    } else if c < q {
      assert (c + 1) * b <= q * b by {
        assert c + 1 <= q;
        MulMono(c + 1, q, b);
      }
    }
  }

  lemma MulMono(x: int, y: int, b: int)
    requires x <= y && b > 0
    ensures x * b <= y * b
  {
    assert y * b - x * b == (y - x) * b;
  }

  /** Editing a dimension back to the original's value derives the original's other dimension. */
  lemma {:induction false} DeriveAtAnchor(ratioWidth: int, ratioHeight: int)
    requires ratioWidth > 0 && ratioHeight > 0
    ensures DeriveHeight(ratioWidth, ratioWidth, ratioHeight) == ratioHeight
    ensures DeriveWidth(ratioHeight, ratioWidth, ratioHeight) == ratioWidth
  {
    var h := DeriveHeight(ratioWidth, ratioWidth, ratioHeight);
    assert ratioHeight * ratioWidth <= ratioWidth * ratioHeight < (ratioHeight + 1) * ratioWidth;
    FloorUnique(h, ratioWidth * ratioHeight, ratioWidth, ratioHeight);
    var w := DeriveWidth(ratioHeight, ratioWidth, ratioHeight);
    assert ratioWidth * ratioHeight <= ratioHeight * ratioWidth < (ratioWidth + 1) * ratioHeight;
    FloorUnique(w, ratioHeight * ratioWidth, ratioHeight, ratioWidth);
  }

  /**
   The derived value escapes the positivity check of the edited value: it is 0
   exactly when the exact paired value is below 1.
   */
  lemma {:induction false} DerivedZero(edited: int, ratioWidth: int, ratioHeight: int)
    requires edited > 0 && ratioWidth > 0 && ratioHeight > 0
    ensures DeriveHeight(edited, ratioWidth, ratioHeight) == 0 <==> edited * ratioHeight < ratioWidth
    ensures DeriveWidth(edited, ratioWidth, ratioHeight) == 0 <==> edited * ratioWidth < ratioHeight
  {
    var h := DeriveHeight(edited, ratioWidth, ratioHeight);
    if h > 0 {
      MulMono(1, h, ratioWidth);
    }
    var w := DeriveWidth(edited, ratioWidth, ratioHeight);
    if w > 0 {
      MulMono(1, w, ratioHeight);
    }
  }

  /** A larger edited width never derives a smaller height. */
  lemma {:induction false} DeriveHeightMonotone(w1: int, w2: int, ratioWidth: int, ratioHeight: int)
    requires 0 < w1 <= w2 && ratioWidth > 0 && ratioHeight > 0
    ensures DeriveHeight(w1, ratioWidth, ratioHeight) <= DeriveHeight(w2, ratioWidth, ratioHeight)
  {
    var h1, h2 := DeriveHeight(w1, ratioWidth, ratioHeight), DeriveHeight(w2, ratioWidth, ratioHeight);
    MulMono(w1, w2, ratioHeight);
    if h2 < h1 {
      MulMono(h2 + 1, h1, ratioWidth);
    }
  }

  /**
   Deriving a height from a width and the width back from that height never
   overshoots the edited width, and gives it back exactly when the first quotient
   had no remainder.
   */
  lemma {:induction false} DeriveBack(width: int, ratioWidth: int, ratioHeight: int)
    requires width > 0 && ratioWidth > 0 && ratioHeight > 0
    requires DeriveHeight(width, ratioWidth, ratioHeight) > 0
    ensures DeriveWidth(DeriveHeight(width, ratioWidth, ratioHeight), ratioWidth, ratioHeight) <= width
    ensures (width * ratioHeight) % ratioWidth == 0 ==>
              DeriveWidth(DeriveHeight(width, ratioWidth, ratioHeight), ratioWidth, ratioHeight) == width
  {
    var h := DeriveHeight(width, ratioWidth, ratioHeight);
    var w := DeriveWidth(h, ratioWidth, ratioHeight);
    // w * rh <= h * rw <= width * rh, hence w <= width
    assert w * ratioHeight <= width * ratioHeight;
    if w > width {
      MulMono(width + 1, w, ratioHeight);
    }
    if (width * ratioHeight) % ratioWidth == 0 {
      assert h * ratioWidth == width * ratioHeight;
      assert width * ratioHeight <= h * ratioWidth < (width + 1) * ratioHeight;
      FloorUnique(w, h * ratioWidth, ratioHeight, width);
    }
  }
}
