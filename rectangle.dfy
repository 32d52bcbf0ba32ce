/**
 * An axis-aligned integer rectangle with the inverted-height convention:
 * it spans [x, x + width] horizontally and [y - height, y] vertically, so
 * `y` is the top edge and the bottom edge lies `height` below it.
 *
 * The Java class is never mutated after construction, so a rectangle is a
 * value here. Integers are mathematical; Java's 32-bit wrap-around in
 * `width * height` and `x + width` is not modelled.
 */
module Rectangles {
  import opened Wrappers

  datatype Rect = Rect(x: int, y: int, width: int, height: int)
  {
    /** All four fields strictly positive: what the general constructor admits. */
    predicate IsValid() {
      AllPositive(x, y, width, height)
    }

    predicate IsSquare() {
      height == width
    }
  }

  /** The rectangle whose fields kept their default value 0. */
  const Zero := Rect(0, 0, 0, 0)

  predicate AllPositive(x: int, y: int, width: int, height: int) {
    x > 0 && y > 0 && width > 0 && height > 0
  }

  /** The general constructor prints "Invalid Input" exactly when it rejects its arguments. */
  predicate PrintsInvalidInput(x: int, y: int, width: int, height: int) {
    !AllPositive(x, y, width, height)
  }

  // ---------------------------------------------------------------------------
  // Construction

  /**
   * The validating constructor: the arguments are stored only when all four
   * are strictly positive; otherwise every field keeps its default 0.
   */
  function MkRect(x: int, y: int, width: int, height: int): (r: Rect)
    ensures r.IsValid() <==> AllPositive(x, y, width, height)
    ensures r.IsValid() ==> r.x == x && r.y == y && r.width == width && r.height == height
    ensures !r.IsValid() ==> r == Zero
    ensures PrintsInvalidInput(x, y, width, height) <==> r == Zero
  {
    if AllPositive(x, y, width, height) then Rect(x, y, width, height) else Zero
  }

  /** The square constructor, which stores its arguments without any check. */
  function MkSquare(x: int, y: int, side: int): (r: Rect)
    ensures r.IsSquare()
    ensures r.x == x && r.y == y && r.width == side
  {
    Rect(x, y, side, side)
  }

  /** `copy` re-runs the validating constructor on the fields of its argument. */
  function Copy(r: Rect): (c: Rect)
    ensures c.IsValid() || c == Zero
  {
    MkRect(r.x, r.y, r.width, r.height)
  }

  /** A copy equals the original exactly when the original is valid or the zero rectangle. */
  lemma CopyIsIdentityIff(r: Rect)
    ensures Copy(r) == r <==> r.IsValid() || r == Zero
  {
  }

  /** Copying twice is copying once. */
  lemma CopyIdempotent(r: Rect)
    ensures Copy(Copy(r)) == Copy(r)
  {
  }

  /**
   * The two constructors disagree: copying a square re-validates it, so a
   * square with a non-positive coordinate or side is zeroed by `copy`.
   */
  lemma CopyOfSquare(x: int, y: int, side: int)
    ensures Copy(MkSquare(x, y, side)) ==
            if x > 0 && y > 0 && side > 0 then MkSquare(x, y, side) else Zero
  {
  }

  // ---------------------------------------------------------------------------
  // Queries

  function Area(r: Rect): (a: int)
    ensures r.width > 0 && r.height > 0 ==> a > 0
    ensures r.width == 0 || r.height == 0 ==> a == 0
  {
    r.width * r.height
  }

  /** A constructed rectangle has the product of its arguments as area, or 0 when they were rejected. */
  lemma AreaOfMkRect(x: int, y: int, width: int, height: int)
    ensures Area(MkRect(x, y, width, height)) ==
            if AllPositive(x, y, width, height) then width * height else 0
    ensures Area(MkRect(x, y, width, height)) >= 0
  {
  }

  /** An unvalidated square has the square of its side as area, even for a negative side. */
  lemma AreaOfSquare(x: int, y: int, side: int)
    ensures Area(MkSquare(x, y, side)) == side * side
    ensures Area(MkSquare(x, y, side)) >= 0
  {
  }

  /** Every rectangle of `s` has equal width and height. */
  predicate AllSquares(s: seq<Rect>)
    decreases |s|
  {
    |s| == 0 || (s[0].IsSquare() && AllSquares(s[1..]))
  }

  lemma {:induction false} AllSquaresIff(s: seq<Rect>)
    ensures AllSquares(s) <==> forall i :: 0 <= i < |s| ==> s[i].IsSquare()
    decreases |s|
  {
    if |s| > 0 {
      AllSquaresIff(s[1..]);
      assert forall i :: 1 <= i < |s| ==> s[i] == s[1..][i - 1];
    }
  }

  /** `areSquares`: an index loop that stops at the first rectangle that is not a square. */
  method AreSquares(rs: array<Rect>) returns (b: bool)
    ensures b == AllSquares(rs[..])
    ensures b <==> forall i :: 0 <= i < rs.Length ==> rs[i].height == rs[i].width
  {
    AllSquaresIff(rs[..]);
    for i := 0 to rs.Length
      invariant forall j :: 0 <= j < i ==> rs[j].IsSquare()
    {
      if rs[i].height != rs[i].width {
        return false;
      }
    }
    return true;
  }

  // ---------------------------------------------------------------------------
  // Pairwise intersection

  /** The width `intersectTest` computes: nearest right edge minus rightmost left edge. */
  function OverlapWidth(a: Rect, b: Rect): int {
    Min(a.x + a.width, b.x + b.width) - Max(a.x, b.x)
  }

  /** The height `intersectTest` computes, exactly as written in the Java code. */
  function OverlapHeight(a: Rect, b: Rect): int {
    Min(b.height - (b.y - a.y), a.height - (a.y - b.y))
  }

  function Max(a: int, b: int): int { if a >= b then a else b }
  function Min(a: int, b: int): int { if a <= b then a else b }

  /**
   * `intersectTest`: no result when the computed width or height is not
   * positive, otherwise the validating constructor applied to the left edge
   * max(x), the top edge min(y) and the computed extents.
   */
  function IntersectTest(a: Rect, b: Rect): (r: Option<Rect>)
    ensures r.None? <==> OverlapWidth(a, b) <= 0 || OverlapHeight(a, b) <= 0
    ensures r.Some? ==> r.value.IsValid() || r.value == Zero
    ensures r.Some? && r.value.IsValid() ==>
              r.value == Rect(Max(a.x, b.x), Min(a.y, b.y), OverlapWidth(a, b), OverlapHeight(a, b))
  {
    var x := Max(a.x, b.x);
    var y := Min(a.y, b.y);
    var width := OverlapWidth(a, b);
    var height := OverlapHeight(a, b);
    if height <= 0 || width <= 0 then None
    else Some(MkRect(x, y, width, height))
  }

  /** Every term is a min or max of swapped operands, so the operation is symmetric. */
  lemma IntersectTestSymmetric(a: Rect, b: Rect)
    ensures IntersectTest(a, b) == IntersectTest(b, a)
  {
  }

  /**
   * When the larger left edge and both top edges are positive, a result keeps
   * exactly the computed fields and is valid; otherwise the validating
   * constructor zeroes it even though an overlap was found.
   */
  lemma IntersectTestFields(a: Rect, b: Rect)
    ensures IntersectTest(a, b).Some? && Max(a.x, b.x) > 0 && Min(a.y, b.y) > 0 ==>
              IntersectTest(a, b).value.IsValid() &&
              IntersectTest(a, b).value ==
                Rect(Max(a.x, b.x), Min(a.y, b.y), OverlapWidth(a, b), OverlapHeight(a, b))
    ensures IntersectTest(a, b).Some? && (Max(a.x, b.x) <= 0 || Min(a.y, b.y) <= 0) ==>
              IntersectTest(a, b).value == Zero
  {
  }

  /**
   * `v` lies horizontally within `r`, and its top coordinate `y` is no larger
   * than that of `r`. (Nothing is said of the bottom edge: the height formula
   * does not keep the result within the operands vertically.)
   */
  predicate WithinHorizontallyAndBelowTop(v: Rect, r: Rect) {
    r.x <= v.x && v.x + v.width <= r.x + r.width && v.y <= r.y
  }

  /**
   * A pairwise result of valid operands is valid and lies horizontally within
   * both, no higher than either top.
   */
  lemma IntersectTestHorizontallyWithin(a: Rect, b: Rect)
    requires a.IsValid() && b.IsValid()
    ensures IntersectTest(a, b).Some? ==>
              IntersectTest(a, b).value.IsValid() &&
              WithinHorizontallyAndBelowTop(IntersectTest(a, b).value, a) &&
              WithinHorizontallyAndBelowTop(IntersectTest(a, b).value, b)
  {
  }

  // ---------------------------------------------------------------------------
  // N-ary intersection

  /** The left fold of `intersectTest` over `rest`, starting from `acc`, stopping at the first None. */
  function FoldIntersect(acc: Rect, rest: seq<Rect>): Option<Rect>
    decreases |rest|
  {
    if rest == [] then Some(acc)
    else match IntersectTest(acc, rest[0])
      case None => None
      case Some(v) => FoldIntersect(v, rest[1..])
  }

  /**
   * `intersection`: starts from the first rectangle, intersects the running
   * result with each further one and returns None as soon as a step does.
   */
  method Intersection(rs: array<Rect>) returns (res: Option<Rect>)
    requires rs.Length > 0
    ensures res == FoldIntersect(rs[0], rs[1..])
    ensures rs.Length == 1 ==> res == Some(rs[0])
  {
    var intersect := Some(rs[0]);
    var i := 1;
    while i < rs.Length
      invariant 1 <= i <= rs.Length
      invariant intersect.Some?
      invariant FoldIntersect(rs[0], rs[1..]) == FoldIntersect(intersect.value, rs[i..])
    {
      assert rs[i..][0] == rs[i] && rs[i..][1..] == rs[i + 1..];
      intersect := IntersectTest(intersect.value, rs[i]);
      if intersect.None? {
        return None;
      }
      i := i + 1;
    }
    assert rs[i..] == [];
    return intersect;
  }

  /**
   * Folding over a concatenation folds over the first part and, unless that
   * already produced None, continues from its result over the second part.
   */
  lemma {:induction false} FoldIntersectAppend(acc: Rect, s: seq<Rect>, t: seq<Rect>)
    ensures FoldIntersect(acc, s + t) ==
            match FoldIntersect(acc, s)
            case None => None
            case Some(v) => FoldIntersect(v, t)
    decreases |s|
  {
    if s == [] {
      assert s + t == t;
    } else {
      assert (s + t)[0] == s[0] && (s + t)[1..] == s[1..] + t;
      match IntersectTest(acc, s[0])
      case None =>
      case Some(v) => FoldIntersectAppend(v, s[1..], t);
    }
  }

  /** Once a prefix has no intersection, nothing appended can bring one back. */
  lemma FoldIntersectShortCircuits(acc: Rect, s: seq<Rect>, t: seq<Rect>)
    requires FoldIntersect(acc, s) == None
    ensures FoldIntersect(acc, s + t) == None
  {
    FoldIntersectAppend(acc, s, t);
  }

  /** The fold over two rectangles is their pairwise intersection, and so is symmetric. */
  lemma FoldIntersectPair(a: Rect, b: Rect)
    ensures FoldIntersect(a, [b]) == IntersectTest(a, b)
    ensures FoldIntersect(a, [b]) == FoldIntersect(b, [a])
  {
    IntersectTestSymmetric(a, b);
  }

  /**
   * The intersection of three rectangles is the pairwise intersection of the
   * first two, intersected again with the third.
   */
  lemma FoldIntersectTriple(a: Rect, b: Rect, c: Rect)
    ensures FoldIntersect(a, [b, c]) ==
            match IntersectTest(a, b)
            case None => None
            case Some(v) => IntersectTest(v, c)
  {
    FoldIntersectAppend(a, [b], [c]);
    assert [b] + [c] == [b, c];
    FoldIntersectPair(a, b);
    match IntersectTest(a, b)
    case None =>
    case Some(v) => FoldIntersectPair(v, c);
  }

  /**
   * Over valid rectangles a result of the fold is valid, lies horizontally
   * within every operand and has its top edge at or below each operand's
   * top coordinate.
   */
  lemma {:induction false} FoldIntersectHorizontallyWithin(acc: Rect, rest: seq<Rect>)
    requires acc.IsValid()
    requires forall i :: 0 <= i < |rest| ==> rest[i].IsValid()
    ensures FoldIntersect(acc, rest).Some? ==>
              var v := FoldIntersect(acc, rest).value;
              v.IsValid() && WithinHorizontallyAndBelowTop(v, acc) &&
              forall i :: 0 <= i < |rest| ==> WithinHorizontallyAndBelowTop(v, rest[i])
    decreases |rest|
  {
    if rest != [] {
      IntersectTestHorizontallyWithin(acc, rest[0]);
      match IntersectTest(acc, rest[0])
      case None =>
      case Some(w) =>
        FoldIntersectHorizontallyWithin(w, rest[1..]);
        if FoldIntersect(w, rest[1..]).Some? {
          var v := FoldIntersect(w, rest[1..]).value;
          forall i | 0 <= i < |rest|
            ensures WithinHorizontallyAndBelowTop(v, rest[i])
          {
            if i > 0 {
              assert rest[i] == rest[1..][i - 1];
            }
          }
        }
    }
  }

  /** The largest left edge among `acc` and the left edges of `rest`. */
  function MaxLeft(acc: int, rest: seq<Rect>): int
    decreases |rest|
  {
    if rest == [] then acc else MaxLeft(Max(acc, rest[0].x), rest[1..])
  }

  /** The smallest right edge among `acc` and the right edges of `rest`. */
  function MinRight(acc: int, rest: seq<Rect>): int
    decreases |rest|
  {
    if rest == [] then acc else MinRight(Min(acc, rest[0].x + rest[0].width), rest[1..])
  }

  /** The smallest top coordinate among `acc` and the tops of `rest`. */
  function MinTop(acc: int, rest: seq<Rect>): int
    decreases |rest|
  {
    if rest == [] then acc else MinTop(Min(acc, rest[0].y), rest[1..])
  }

  /**
   * Over valid rectangles a result of the fold has as left edge the largest
   * left edge, as right edge the smallest right edge and as top coordinate
   * the smallest top coordinate of all operands.
   */
  lemma {:induction false} FoldIntersectEdges(acc: Rect, rest: seq<Rect>)
    requires acc.IsValid()
    requires forall i :: 0 <= i < |rest| ==> rest[i].IsValid()
    ensures FoldIntersect(acc, rest).Some? ==>
              var v := FoldIntersect(acc, rest).value;
              v.x == MaxLeft(acc.x, rest) &&
              v.x + v.width == MinRight(acc.x + acc.width, rest) &&
              v.y == MinTop(acc.y, rest)
    decreases |rest|
  {
    if rest != [] {
      IntersectTestHorizontallyWithin(acc, rest[0]);
      IntersectTestFields(acc, rest[0]);
      match IntersectTest(acc, rest[0])
      case None =>
      case Some(w) =>
        FoldIntersectEdges(w, rest[1..]);
    }
  }

  /**
   * With three or more operands the order matters, even for whether there
   * is an intersection at all: the height formula lets a result be taller
   * than one of its operands, and that extra height depends on which
   * rectangles were folded in before.
   */
  lemma FoldIntersectOrderMatters()
    ensures FoldIntersect(Rect(1, 10, 1, 10), [Rect(1, 5, 1, 1), Rect(1, 2, 1, 1)]) == Some(Rect(1, 2, 1, 2))
    ensures FoldIntersect(Rect(1, 5, 1, 1), [Rect(1, 2, 1, 1), Rect(1, 10, 1, 10)]) == None
  {
  }

  // ---------------------------------------------------------------------------
  // Display

  /**
   * The corners `toString` lists, in its order: top-left, top-right,
   * bottom-left, bottom-right, with the bottom edge at y - height.
   */
  function Corners(r: Rect): (c: seq<(int, int)>)
    ensures |c| == 4
    ensures c[0] == (r.x, r.y)
    ensures c[0].1 == c[1].1 && c[2].1 == c[3].1
    ensures c[0].0 == c[2].0 && c[1].0 == c[3].0
    ensures c[1].0 - c[0].0 == r.width && c[0].1 - c[2].1 == r.height
  {
    [(r.x, r.y), (r.x + r.width, r.y), (r.x, r.y - r.height), (r.x + r.width, r.y - r.height)]
  }

  /** Reads a rectangle back from the corner list: the top-left corner and the two extents. */
  function FromCorners(c: seq<(int, int)>): Rect
    requires |c| == 4
  {
    Rect(c[0].0, c[0].1, c[1].0 - c[0].0, c[0].1 - c[2].1)
  }

  /** The four corners determine the rectangle. */
  lemma CornersRoundTrip(r: Rect)
    ensures FromCorners(Corners(r)) == r
  {
  }

  lemma CornersInjective(r: Rect, s: Rect)
    ensures Corners(r) == Corners(s) <==> r == s
  {
    if Corners(r) == Corners(s) {
      CornersRoundTrip(r);
      CornersRoundTrip(s);
    }
  }

  // ---------------------------------------------------------------------------
  // Worked examples

  /** The fold the demonstration program performs, and the corners of its result. */
  lemma DemoFold()
    ensures FoldIntersect(Rect(1, 4, 2, 3), [Rect(2, 5, 3, 3), Rect(1, 4, 2, 3)]) == Some(Rect(2, 4, 1, 2))
    ensures Corners(Rect(2, 4, 1, 2)) == [(2, 4), (3, 4), (2, 2), (3, 2)]
  {
  }

  /** The rectangles of the demonstration program and the result it prints. */
  method Demo() returns (corners: Option<seq<(int, int)>>)
    ensures corners == Some([(2, 4), (3, 4), (2, 2), (3, 2)])
  {
    var rs := new Rect[3];
    rs[0], rs[1], rs[2] := MkRect(1, 4, 2, 3), MkRect(2, 5, 3, 3), MkRect(1, 4, 2, 3);
    assert rs[0] == Rect(1, 4, 2, 3) && rs[1..] == [Rect(2, 5, 3, 3), Rect(1, 4, 2, 3)];
    var res := Intersection(rs);
    DemoFold();
    corners := Some(Corners(res.value));
  }

  /** Rectangles far apart have no intersection. */
  lemma DisjointExample()
    ensures IntersectTest(MkRect(1, 1, 1, 1), MkRect(100, 100, 1, 1)) == None
  {
  }

  /**
   * The height formula is not the overlap of the vertical extents: here the
   * second rectangle spans [4, 5] vertically, yet the result has height 5.
   */
  lemma HeightFormulaExample()
    ensures IntersectTest(Rect(1, 10, 1, 10), Rect(1, 5, 1, 1)) == Some(Rect(1, 5, 1, 5))
  {
  }
}
