# Rectangle

A Dafny model of `Rectangle`, an axis-aligned integer rectangle with fields
`x`, `y`, `width` and `height`. It uses an inverted-height convention: the
rectangle spans `[x, x + width]` horizontally and `[y - height, y]`
vertically, so `y` is the top edge.

The model covers these parts of the class:

- the validating general constructor (`MkRect`);
- the unvalidated square constructor (`MkSquare`);
- `copy` (`Copy`) and `area` (`Area`);
- `areSquares`, as a method over an array with the Java index loop and its early exit;
- the pairwise rule `intersectTest` (`IntersectTest`), which may return no rectangle;
- the N-ary `intersection`, as a method with the Java loop that exits on the first failing step;
- the corner list of `toString` (`Corners`).

A rectangle is never mutated after construction, so it is the value type
`Rect`, and the getters are its field selectors. Java's `null` result is
`Option<Rect>` (module `Wrappers`).

`areSquares` is proved equal to the recursive predicate `AllSquares`.
`intersection` is proved equal to the left fold `FoldIntersect`. The
properties of the fold are then proved as lemmas:

- the fold short-circuits on the first `None`;
- folding over two rectangles is symmetric, but with three or more the order matters, even for whether any intersection is found (`FoldIntersectOrderMatters`);
- over valid operands, a result has the largest left edge, the smallest right edge and the smallest top coordinate of all the operands.

The height formula of `intersectTest` is reproduced exactly as written. It
is not the overlap of the vertical extents (`HeightFormulaExample` shows a
result taller than one of its operands). So nothing is claimed about the
bottom edge of an intersection.

## Model

| member | source | states |
|---|---|---|
| `Rectangles.MkRect` | src/Rectangle.java:22-31 | the result is valid (all fields positive) iff all four arguments are positive, and then it holds exactly the arguments; otherwise it is the zero rectangle, which is exactly when "Invalid Input" is printed |
| `Rectangles.MkSquare` | src/Rectangle.java:41-46 | no validation: x and y are stored as given and width == height == side, for any side |
| `Rectangles.Copy` | src/Rectangle.java:54-56 | a copy is always either valid or the zero rectangle |
| `Rectangles.CopyIsIdentityIff` | src/Rectangle.java:54-56 | copy(r) == r iff r is valid or the zero rectangle |
| `Rectangles.CopyIdempotent` | src/Rectangle.java:54-56 | copying a copy changes nothing |
| `Rectangles.CopyOfSquare` | src/Rectangle.java:41-56 | copying a square gives the square when x, y and side are positive, and the zero rectangle otherwise |
| `Rectangles.Area` | src/Rectangle.java:114-116 | the area is positive when width and height are, and 0 when either is 0 |
| `Rectangles.AreaOfMkRect` | src/Rectangle.java:114-116 | a constructed rectangle has area width * height of its arguments, or 0 when they were rejected, and never a negative area |
| `Rectangles.AreaOfSquare` | src/Rectangle.java:114-116 | an unvalidated square has area side * side, which is not negative even for a negative side |
| `Rectangles.AllSquaresIff` | src/Rectangle.java:100-107 | the recursive AllSquares holds iff every element has height == width |
| `Rectangles.AreSquares` | src/Rectangle.java:100-107 | returns true iff every element of the array has height == width (true for an empty array), and the array is not modified |
| `Rectangles.IntersectTest` | src/Rectangle.java:143-155 | returns None iff the computed width or height is not positive; a result is valid or the zero rectangle, and a valid result has x = max of the x's, y = min of the y's and the computed width and height |
| `Rectangles.IntersectTestSymmetric` | src/Rectangle.java:144-148 | intersectTest(a, b) == intersectTest(b, a) for all a, b |
| `Rectangles.IntersectTestFields` | src/Rectangle.java:150-154 | with max x > 0 and min y > 0 a result is valid and holds exactly the computed fields; otherwise a result is the zero rectangle |
| `Rectangles.IntersectTestHorizontallyWithin` | src/Rectangle.java:143-155 | for valid operands a result is valid, lies horizontally within both operands, and its top coordinate is no larger than either operand's top |
| `Rectangles.Intersection` | src/Rectangle.java:124-134 | for a non-empty array, returns the left fold of intersectTest over r[1..] from r[0], which is None as soon as a step is None; with one element it returns that element |
| `Rectangles.FoldIntersectAppend` | src/Rectangle.java:127-132 | folding over s + t folds over s, then continues over t from its result unless that result is None |
| `Rectangles.FoldIntersectShortCircuits` | src/Rectangle.java:128-131 | once a prefix has folded to None, the fold over any extension is None |
| `Rectangles.FoldIntersectPair` | src/Rectangle.java:124-134 | intersection of two rectangles is their intersectTest and does not depend on their order |
| `Rectangles.FoldIntersectHorizontallyWithin` | src/Rectangle.java:124-155 | over valid operands a result is valid and lies horizontally within every operand, no higher than any operand's top |
| `Rectangles.FoldIntersectTriple` | src/Rectangle.java:124-134 | the intersection of three rectangles is the pairwise intersection of the first two, intersected again with the third, or None when the first step is None |
| `Rectangles.FoldIntersectOrderMatters` | src/Rectangle.java:124-148 | with three operands, one order gives a rectangle and another order gives None |
| `Rectangles.FoldIntersectEdges` | src/Rectangle.java:124-155 | over valid operands a result's left edge is the largest left edge, its right edge is the smallest right edge and its y is the smallest top coordinate of all operands |
| `Rectangles.Corners` | src/Rectangle.java:171-177 | four corners in the order top-left (x, y), top-right, bottom-left, bottom-right; the top and bottom pairs share a y, the left and right pairs share an x, and they lie width apart and height below y |
| `Rectangles.CornersRoundTrip` | src/Rectangle.java:171-177 | the rectangle can be read back from its corner list |
| `Rectangles.CornersInjective` | src/Rectangle.java:171-177 | two rectangles have the same corners iff they are equal |
| `Rectangles.Demo` | src/Rectangle.java:162-164 | the demonstration's three rectangles intersect to (2, 4, 1, 2), whose corners are (2,4), (3,4), (2,2), (3,2) |
| `Rectangles.DemoFold` | src/Rectangle.java:162-164 | the fold over the demonstration's rectangles gives (2, 4, 1, 2), with corners (2,4), (3,4), (2,2), (3,2) |
| `Rectangles.DisjointExample` | src/Rectangle.java:143-155 | rectangles at (1,1) and (100,100) with side 1 do not intersect |
| `Rectangles.HeightFormulaExample` | src/Rectangle.java:148 | the height formula yields 5 for an operand of height 1, so it is not the vertical overlap |

## Left out

- Console output: the "Invalid Input" line of the general constructor is the predicate `PrintsInvalidInput`, not an I/O effect.
- `main` prints the demonstration result; `Demo` computes that result's corners instead of printing it.
- String formatting in `toString`: `Corners` gives the four corners as integer pairs in the printed order; the decimal rendering and the `"(x | y)"`, `", "` punctuation are not modelled.
- Java's 32-bit `int` overflow in `width * height`, `x + width`, `y - height` and the subtractions of `intersectTest` is not modelled: all arithmetic is on mathematical integers.
- Null rectangles and `NullPointerException`: rectangles are values, so an array element cannot be null.
- `Intersection` requires a non-empty array: the Java code reads `r[0]` unconditionally and throws on an empty argument list; that exception is not modelled.
- The unused `java.lang.annotation.Documented` import.
- The vertical (bottom-edge) correctness of an intersection: the height formula is reproduced as written and is not the geometric overlap, so no containment is claimed below the top edge.
