/** The segment test the crossing removal calls: `java.awt.geom.Line2D.linesIntersect`, whose
    library code is not part of this model. It is written here as the orientation test that
    library performs (`relativeCCW`), over exact integers. The library computes in doubles;
    the two agree while every coordinate difference stays below 2^26 in magnitude, since every
    product it forms is then exact in a double. */
module Geometry {

  /** `relativeCCW`: on which side of the directed segment (x1,y1)->(x2,y2) the point (px,py)
      lies: 1 counter-clockwise, -1 clockwise; for a collinear point, -1 before the segment,
      1 beyond it and 0 on it. */
  function RelativeCcw(x1: int, y1: int, x2: int, y2: int, px: int, py: int): (r: int)
    ensures -1 <= r <= 1
    ensures (px, py) == (x1, y1) ==> r == 0
    ensures (px, py) == (x2, y2) ==> r == 0
  {
    var dx, dy := x2 - x1, y2 - y1;
    var qx, qy := px - x1, py - y1;
    var cross := qx * dy - qy * dx;
    var ccw :=
      if cross != 0 then cross
      else
        var dot := qx * dx + qy * dy;
        if dot <= 0 then dot
        else
          var beyond := (qx - dx) * dx + (qy - dy) * dy;
          if beyond < 0 then 0 else beyond;
    if ccw < 0 then -1 else if ccw > 0 then 1 else 0
  }

  /** `linesIntersect`: the segments (x1,y1)-(x2,y2) and (x3,y3)-(x4,y4) meet, touching and
      overlapping included. */
  predicate LinesIntersect(x1: int, y1: int, x2: int, y2: int,
                           x3: int, y3: int, x4: int, y4: int)
  {
    && RelativeCcw(x1, y1, x2, y2, x3, y3) * RelativeCcw(x1, y1, x2, y2, x4, y4) <= 0
    && RelativeCcw(x3, y3, x4, y4, x1, y1) * RelativeCcw(x3, y3, x4, y4, x2, y2) <= 0
  }

  /** Segments that share an endpoint count as intersecting. */
  lemma SharedEndpointIntersects(x1: int, y1: int, x2: int, y2: int, x3: int, y3: int)
    ensures LinesIntersect(x1, y1, x2, y2, x2, y2, x3, y3)
  {
  }
}
