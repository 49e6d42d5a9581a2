/** Rectangles and regions.  A region is modelled as the finite set of
    integer pixel positions it covers; the server's rectangle-list
    representation (rfb/Region, not part of this model) is a normal form of
    such a set.  Rect follows rfb/Rect.h (also not part of this model):
    top-left inclusive, bottom-right exclusive. */
module Region {

  type Point = (int, int)

  type Region = set<Point>

  datatype Rect = Rect(tlx: int, tly: int, brx: int, bry: int) {
    function Width(): int {
      brx - tlx
    }

    function Height(): int {
      bry - tly
    }

    predicate IsEmpty() {
      tlx >= brx || tly >= bry
    }

    predicate EnclosedBy(o: Rect) {
      tlx >= o.tlx && tly >= o.tly && brx <= o.brx && bry <= o.bry
    }

    /** Rect::intersect: the clipped rectangle, collapsed to zero size when the
        two do not overlap. */
    function Intersect(o: Rect): (r: Rect)
      ensures Points(r) == Points(this) * Points(o)
    {
      var x0 := Max(tlx, o.tlx);
      var y0 := Max(tly, o.tly);
      var r := Rect(x0, y0, Max(Min(brx, o.brx), x0), Max(Min(bry, o.bry), y0));
      assert Points(r) == Points(this) * Points(o) by {
        forall p | p in Points(this) * Points(o) ensures p in Points(r) {
          InPoints(this, p.0, p.1);
          InPoints(o, p.0, p.1);
          InPoints(r, p.0, p.1);
        }
        forall p | p in Points(r) ensures p in Points(this) * Points(o) {
          InPoints(this, p.0, p.1);
          InPoints(o, p.0, p.1);
        }
      }
      r
    }
  }

  function Max(a: int, b: int): int {
    if a >= b then a else b
  }

  function Min(a: int, b: int): int {
    if a <= b then a else b
  }

  /** Rect::setXYWH. */
  function XYWH(x: int, y: int, w: int, h: int): Rect {
    Rect(x, y, x + w, y + h)
  }

  /** The pixels a rectangle covers. */
  function Points(r: Rect): Region {
    set x: int, y: int | r.tlx <= x < r.brx && r.tly <= y < r.bry :: (x, y)
  }

  lemma InPoints(r: Rect, x: int, y: int)
    ensures (x, y) in Points(r) <==> r.tlx <= x < r.brx && r.tly <= y < r.bry
  {
  }

  /** An empty rectangle covers no pixel, and a non-empty one covers its corner. */
  lemma EmptyPoints(r: Rect)
    ensures r.IsEmpty() <==> Points(r) == {}
  {
    if !r.IsEmpty() {
      assert (r.tlx, r.tly) in Points(r);
    }
  }

  /** Enclosure of a non-empty rectangle is inclusion of its pixels. */
  lemma EnclosedPoints(a: Rect, b: Rect)
    requires !a.IsEmpty()
    ensures a.EnclosedBy(b) <==> Points(a) <= Points(b)
  {
    if Points(a) <= Points(b) {
      InPoints(a, a.tlx, a.tly);
      InPoints(b, a.tlx, a.tly);
      InPoints(a, a.brx - 1, a.bry - 1);
      InPoints(b, a.brx - 1, a.bry - 1);
    }
  }

  /** Region::translate. */
  function Translate(s: Region, dx: int, dy: int): Region {
    set p | p in s :: (p.0 + dx, p.1 + dy)
  }

  /** A pixel is in the translated region exactly when the pixel it came
      from is in the original. */
  lemma InTranslate(s: Region, dx: int, dy: int, x: int, y: int)
    ensures (x, y) in Translate(s, dx, dy) <==> (x - dx, y - dy) in s
  {
    if (x - dx, y - dy) in s {
      assert (x - dx + dx, y - dy + dy) in Translate(s, dx, dy);
    }
  }
}
