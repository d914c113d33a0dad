/** Feature extraction of UserIdentification.py: a single detected face's 68
    landmarks become 171 normalised pair distances and 5 angles.

    The landmark detector (dlib) is abstract: `detector` lists the faces in
    the preprocessed image and `predictor` gives a face's 68 points. */
module Features {
  import opened Wrappers
  import opened Numerics

  const LandmarkCount: nat := 68

  /** The largest side `preprocess_image` lets through unscaled. */
  const MaxDimension: nat := 800

  datatype Point = Point(x: int, y: int)

  /** The 68 points of dlib's shape predictor, numbered 0 to 67. */
  type Landmarks = s: seq<Point> | |s| == 68 witness seq(68, i => Point(0, 0))

  /** A detection rectangle. */
  datatype Face = Face(left: int, top: int, right: int, bottom: int)

  /** A captured BGR frame. */
  datatype Frame = Frame(height: nat, width: nat, pixels: seq<bv8>)

  /** The greyscale image `preprocess_image` makes from `source`, at the
      given size. */
  datatype Gray = Gray(height: nat, width: nat, source: Frame)

  /** NoFaceDetectedException and MultipleFacesDetectedException. */
  datatype FaceError = NoFaceDetected | MultipleFacesDetected {
    function Message(): string {
      match this
      case NoFaceDetected => "No faces detected."
      case MultipleFacesDetected => "Multiple faces detected."
    }
  }

  /** The detector, the shape predictor, numpy's square root and
      `np.degrees(np.arccos(.))`, and `cv2.circle(frame, point, 2, green, -1)`
      as the frame it leaves. */
  datatype Identifier = Identifier(
    detector: Gray -> seq<Face>,
    predictor: (Gray, Face) -> Landmarks,
    sqrt: real -> real,
    arccosDegrees: real -> real,
    circle: (Frame, Point) -> Frame)

  /** cv2.circle paints pixels and keeps the frame's size. */
  ghost predicate CircleLaws(ui: Identifier) {
    forall frame, p :: ui.circle(frame, p).height == frame.height && ui.circle(frame, p).width == frame.width
  }

  /** Jawline 1-5, eye corners 36 39 42 45, nose width 31 35, mouth corners
      48 54, lower lip 57, chin 8, eyebrow ends 17 26, eyebrow centres 19 24:
      19 points, in this order. */
  const SelectedPoints: seq<nat> := [1, 2, 3, 4, 5, 36, 39, 42, 45, 31, 35, 48, 54, 57, 8, 17, 26, 19, 24]

  /** Outer eye corners; their distance is the reference length. */
  const LeftEye: nat := 36
  const RightEye: nat := 45

  /** (A, B, C) with the angle measured at B: left eye, right eye, nose,
      mouth, chin. */
  const AngleTriplets: seq<(nat, nat, nat)> := [(36, 39, 42), (42, 45, 36), (31, 30, 35), (48, 51, 54), (0, 8, 16)]

  function Max(a: nat, b: nat): nat {
    if a < b then b else a
  }

  /** The size rule of preprocess_image: an image whose larger side exceeds
      800 is scaled by 800 / max(height, width) (exact arithmetic, truncated
      as `int()` does); a smaller one keeps its size. */
  function PreprocessImage(image: Frame): (g: Gray)
    ensures g.source == image
    ensures Max(image.height, image.width) <= MaxDimension ==> g.height == image.height && g.width == image.width
    ensures Max(image.height, image.width) > MaxDimension ==> Max(g.height, g.width) == MaxDimension
    ensures Max(g.height, g.width) <= MaxDimension
    ensures g.height <= image.height && g.width <= image.width
  {
    var m := Max(image.height, image.width);
    if m > MaxDimension then
      ScaledSide(image.height, m);
      ScaledSide(image.width, m);
      Gray(MaxDimension * image.height / m, MaxDimension * image.width / m, image)
    else
      Gray(image.height, image.width, image)
  }

  /** `int(side * (800 / m))` for a side no longer than m > 800. */
  lemma ScaledSide(side: nat, m: nat)
    requires side <= m && MaxDimension < m
    ensures MaxDimension * side / m <= MaxDimension
    ensures MaxDimension * side / m <= side
    ensures side == m ==> MaxDimension * side / m == MaxDimension
  {
    var a := MaxDimension * side;
    DivUpper(a, MaxDimension, m);
    DivUpper(a, side, m);
    if side == m {
      DivLower(a, MaxDimension, m);
    }
  }

  lemma MulAtLeast(d: int, m: int)
    requires 0 < m
    ensures d >= 1 ==> d * m >= m
  {
    assert d * m - m == (d - 1) * m;
  }

  lemma MulStrict(x: int, y: int, m: int)
    requires 0 < m
    ensures x > y ==> x * m >= y * m + m
  {
    assert (x - y) * m == x * m - y * m;
    MulAtLeast(x - y, m);
  }

  /** a <= c * m bounds the quotient a / m by c. */
  lemma DivUpper(a: nat, c: nat, m: nat)
    requires 0 < m && a <= c * m
    ensures a / m <= c
  {
    var q := a / m;
    assert q * m <= a;
    MulStrict(q, c, m);
  }

  /** c * m <= a bounds the quotient a / m from below by c. */
  lemma DivLower(a: nat, c: nat, m: nat)
    requires 0 < m && c * m <= a
    ensures c <= a / m
  {
    var q := a / m;
    assert a < q * m + m;
    MulStrict(c, q, m);
  }

  function Faces(ui: Identifier, image: Frame): seq<Face> {
    ui.detector(PreprocessImage(image))
  }

  /** The face-count check shared by extract_feature_vector and
      draw_landmarks: exactly one face passes. */
  function SingleFace(faces: seq<Face>): (r: Result<Face, FaceError>)
    ensures r == Err(NoFaceDetected) <==> |faces| == 0
    ensures r == Err(MultipleFacesDetected) <==> |faces| > 1
    ensures r.Ok? <==> |faces| == 1
    ensures r.Ok? ==> r.value == faces[0]
  {
    if |faces| == 0 then Err(NoFaceDetected)
    else if |faces| > 1 then Err(MultipleFacesDetected)
    else Ok(faces[0])
  }

  /** The landmarks of the one face in the image, when there is one. */
  function LandmarksOf(ui: Identifier, image: Frame): Option<Landmarks> {
    match SingleFace(Faces(ui, image))
    case Err(_) => None
    case Ok(face) => Some(ui.predictor(PreprocessImage(image), face))
  }

  /** `combinations(s, 2)`: every pair of positions i < j, in lexicographic
      order of positions. */
  function Pairs<T>(s: seq<T>): (r: seq<(T, T)>)
    ensures |r| == Choose2(|s|)
  {
    if |s| < 2 then []
    else seq(|s| - 1, i requires 0 <= i < |s| - 1 => (s[0], s[i + 1])) + Pairs(s[1..])
  }

  /** Both halves of every pair come from the input. */
  lemma {:induction false} PairsFrom<T>(s: seq<T>)
    ensures forall k :: 0 <= k < |Pairs(s)| ==> Pairs(s)[k].0 in s && Pairs(s)[k].1 in s
  {
    if |s| >= 2 {
      PairsFrom(s[1..]);
      var head := seq(|s| - 1, i requires 0 <= i < |s| - 1 => (s[0], s[i + 1]));
      assert Pairs(s) == head + Pairs(s[1..]);
      forall k | 0 <= k < |Pairs(s)|
        ensures Pairs(s)[k].0 in s && Pairs(s)[k].1 in s
      {
        if k < |head| {
          assert Pairs(s)[k] == (s[0], s[k + 1]);
        } else {
          var p := Pairs(s[1..])[k - |head|];
          assert Pairs(s)[k] == p;
          assert p.0 in s[1..] && p.1 in s[1..];
        }
      }
    }
  }

  /** The number of pairs of n items. */
  function Choose2(n: nat): nat {
    if n == 0 then 0 else (n - 1) + Choose2(n - 1)
  }

  lemma {:induction false} Choose2Closed(n: nat)
    ensures Choose2(n) == n * (n - 1) / 2
  {
    if n > 0 {
      Choose2Closed(n - 1);
      assert n * (n - 1) == (n - 1) * (n - 2) + 2 * (n - 1);
    }
  }

  /** The position of the pair of positions (i, j) in `combinations` order. */
  function PairIndex(n: nat, i: nat, j: nat): nat
    requires i < j < n
  {
    if i == 0 then j - 1 else (n - 1) + PairIndex(n - 1, i - 1, j - 1)
  }

  /** The pair of positions i < j sits at PairIndex, first element first. */
  lemma {:induction false} PairsAt<T>(s: seq<T>, i: nat, j: nat)
    requires i < j < |s|
    ensures PairIndex(|s|, i, j) < |Pairs(s)|
    ensures Pairs(s)[PairIndex(|s|, i, j)] == (s[i], s[j])
  {
    var head := seq(|s| - 1, k requires 0 <= k < |s| - 1 => (s[0], s[k + 1]));
    assert Pairs(s) == head + Pairs(s[1..]);
    if i > 0 {
      PairsAt(s[1..], i - 1, j - 1);
    }
  }

  /** Squared length of (dx, dy). */
  function SquaredNorm(dx: int, dy: int): nat {
    dx * dx + dy * dy
  }

  /** The vector from q to p, `np.array(p) - np.array(q)`. */
  function Minus(p: Point, q: Point): (v: Point)
    ensures v == Point(0, 0) <==> p == q
  {
    Point(p.x - q.x, p.y - q.y)
  }

  /** `np.linalg.norm(v)` */
  function Norm(sqrt: real -> real, v: Point): real {
    sqrt(SquaredNorm(v.x, v.y) as real)
  }

  lemma NormFacts(sqrt: real -> real, v: Point)
    requires IsSqrt(sqrt)
    ensures 0.0 <= Norm(sqrt, v)
    ensures v != Point(0, 0) ==> 0.0 < Norm(sqrt, v)
  {
    var n := SquaredNorm(v.x, v.y);
    if v != Point(0, 0) {
      assert 0 < n;
      SqrtPositive(sqrt, n as real);
    }
  }

  /** euclidean_distance: `np.linalg.norm(p - q)`, the same measured from
      either end. */
  function EuclideanDistance(sqrt: real -> real, p: Point, q: Point): (r: real)
    ensures r == Norm(sqrt, Minus(q, p))
  {
    Norm(sqrt, Minus(p, q))
  }

  lemma DistanceFacts(sqrt: real -> real, p: Point, q: Point)
    requires IsSqrt(sqrt)
    ensures 0.0 <= EuclideanDistance(sqrt, p, q)
    ensures p != q ==> 0.0 < EuclideanDistance(sqrt, p, q)
  {
    NormFacts(sqrt, Minus(p, q));
  }

  /** calculate_angle: the angle at B between BA and BC, in degrees; A and C
      play the same part. */
  function CalculateAngle(ui: Identifier, a: Point, b: Point, c: Point): (r: real)
    requires IsSqrt(ui.sqrt) && a != b && c != b
    ensures r == AngleBetween(ui, Minus(c, b), Minus(a, b))
  {
    AngleBetween(ui, Minus(a, b), Minus(c, b))
  }

  /** `np.degrees(np.arccos(np.dot(ba, bc) / (|ba| * |bc|)))` */
  function AngleBetween(ui: Identifier, ba: Point, bc: Point): real
    requires IsSqrt(ui.sqrt) && ba != Point(0, 0) && bc != Point(0, 0)
  {
    ui.arccosDegrees(Cosine(ui.sqrt, ba, bc))
  }

  /** `np.dot(ba, bc) / (np.linalg.norm(ba) * np.linalg.norm(bc))` */
  function Cosine(sqrt: real -> real, ba: Point, bc: Point): real
    requires IsSqrt(sqrt) && ba != Point(0, 0) && bc != Point(0, 0)
  {
    NormFacts(sqrt, ba);
    NormFacts(sqrt, bc);
    Quotient(Dot(ba, bc) as real, Norm(sqrt, ba), Norm(sqrt, bc))
  }

  /** d / (a * c), for positive a and c. */
  function Quotient(d: real, a: real, c: real): real
    requires 0.0 < a && 0.0 < c
  {
    PositiveProduct(a, c);
    d / (a * c)
  }

  /** `np.dot(ba, bc)` */
  function Dot(ba: Point, bc: Point): int {
    ba.x * bc.x + ba.y * bc.y
  }

  lemma RatioNonNegative(x: real, y: real)
    requires 0.0 <= x && 0.0 < y
    ensures 0.0 <= x / y
  {
  }

  /** A positive length over itself is 1. */
  lemma SelfRatio(x: real)
    requires 0.0 < x
    ensures x / x == 1.0
  {
  }

  /** Pairs drawn from landmark indices name landmarks. */
  lemma {:induction false} PairsWithinOf(s: seq<nat>)
    requires PointsWithin(s)
    ensures PairsWithin(Pairs(s))
  {
    PairsFrom(s);
    forall x | x in s
      ensures x < LandmarkCount
    {
      var k :| 0 <= k < |s| && s[k] == x;
    }
  }

  /** Every selected pair names two of the 68 landmarks. */
  lemma PairsInRange()
    ensures PointsWithin(SelectedPoints)
    ensures PairsWithin(Pairs(SelectedPoints))
  {
    SelectedPointsInRange();
    PairsWithinOf(SelectedPoints);
  }

  lemma SelectedPointsInRange()
    ensures PointsWithin(SelectedPoints)
  {
    assert forall x :: x in SelectedPoints ==> x < LandmarkCount;
    forall k | 0 <= k < |SelectedPoints|
      ensures SelectedPoints[k] < LandmarkCount
    {
      assert SelectedPoints[k] in SelectedPoints;
    }
  }

  /** No division by zero: the outer eye corners differ, and each angle's
      vertex differs from its two ends. */
  predicate NonDegenerate(lm: Landmarks) {
    && lm[LeftEye] != lm[RightEye]
    && forall t :: 0 <= t < |AngleTriplets| ==>
         lm[AngleTriplets[t].0] != lm[AngleTriplets[t].1] && lm[AngleTriplets[t].2] != lm[AngleTriplets[t].1]
  }

  function ReferenceDistance(ui: Identifier, lm: Landmarks): real {
    EuclideanDistance(ui.sqrt, lm[LeftEye], lm[RightEye])
  }

  /** The distance of a selected pair divided by the reference distance. */
  function NormalizedDistance(ui: Identifier, lm: Landmarks, pair: (nat, nat)): real
    requires IsSqrt(ui.sqrt) && NonDegenerate(lm)
    requires pair.0 < LandmarkCount && pair.1 < LandmarkCount
  {
    DistanceFacts(ui.sqrt, lm[LeftEye], lm[RightEye]);
    EuclideanDistance(ui.sqrt, lm[pair.0], lm[pair.1]) / ReferenceDistance(ui, lm)
  }

  /** True when every entry names one of the 68 landmarks. */
  predicate PointsWithin(s: seq<nat>) {
    forall k :: 0 <= k < |s| ==> s[k] < LandmarkCount
  }

  /** True when every pair names two of the 68 landmarks. */
  predicate PairsWithin(ps: seq<(nat, nat)>) {
    forall k :: 0 <= k < |ps| ==> ps[k].0 < LandmarkCount && ps[k].1 < LandmarkCount
  }

  function PairDistances(ui: Identifier, lm: Landmarks, ps: seq<(nat, nat)>): seq<real>
    requires IsSqrt(ui.sqrt) && NonDegenerate(lm) && PairsWithin(ps)
  {
    seq(|ps|, k requires 0 <= k < |ps| => NormalizedDistance(ui, lm, ps[k]))
  }

  function TripletAngle(ui: Identifier, lm: Landmarks, t: nat): real
    requires IsSqrt(ui.sqrt) && NonDegenerate(lm) && t < |AngleTriplets|
  {
    var (a, b, c) := AngleTriplets[t];
    CalculateAngle(ui, lm[a], lm[b], lm[c])
  }

  function Angles(ui: Identifier, lm: Landmarks): seq<real>
    requires IsSqrt(ui.sqrt) && NonDegenerate(lm)
  {
    seq(|AngleTriplets|, t requires 0 <= t < |AngleTriplets| => TripletAngle(ui, lm, t))
  }

  /** The vector extract_feature_vector builds from a list of points: pair
      distances in `combinations` order, then the five angles. */
  function FeatureVectorOf(ui: Identifier, lm: Landmarks, points: seq<nat>): seq<real>
    requires IsSqrt(ui.sqrt) && NonDegenerate(lm) && PointsWithin(points)
  {
    PairsWithinOf(points);
    PairDistances(ui, lm, Pairs(points)) + Angles(ui, lm)
  }

  /** The vector of the 19 selected points. */
  function FeatureVector(ui: Identifier, lm: Landmarks): seq<real>
    requires IsSqrt(ui.sqrt) && NonDegenerate(lm)
  {
    FeatureVectorOf(ui, lm, SelectedPoints)
  }

  /** n points give Choose2(n) distances, then the 5 angles. */
  lemma FeatureVectorOfLength(ui: Identifier, lm: Landmarks, points: seq<nat>)
    requires IsSqrt(ui.sqrt) && NonDegenerate(lm) && PointsWithin(points)
    ensures |FeatureVectorOf(ui, lm, points)| == |points| * (|points| - 1) / 2 + |AngleTriplets|
  {
    Choose2Closed(|points|);
  }

  /** 19 points give 171 pairs, and with the 5 angles 176 entries. */
  lemma FeatureVectorLength(ui: Identifier, lm: Landmarks)
    requires IsSqrt(ui.sqrt) && NonDegenerate(lm)
    ensures |FeatureVector(ui, lm)| == 176
  {
    FeatureVectorOfLength(ui, lm, SelectedPoints);
  }

  /** Pair (i, j) of the point list sits at PairIndex and holds the
      normalised distance between those two landmarks. */
  lemma FeatureEntryOfPair(ui: Identifier, lm: Landmarks, points: seq<nat>, i: nat, j: nat)
    requires IsSqrt(ui.sqrt) && NonDegenerate(lm) && PointsWithin(points)
    requires i < j < |points|
    ensures PairIndex(|points|, i, j) < |FeatureVectorOf(ui, lm, points)|
    ensures FeatureVectorOf(ui, lm, points)[PairIndex(|points|, i, j)]
         == NormalizedDistance(ui, lm, (points[i], points[j]))
  {
    PairsWithinOf(points);
    PairsAt(points, i, j);
  }

  /** The entry of the outer-eye pair is the reference distance over
      itself, exactly 1. */
  lemma ReferenceEntryIsOne(ui: Identifier, lm: Landmarks, points: seq<nat>, i: nat, j: nat)
    requires IsSqrt(ui.sqrt) && NonDegenerate(lm) && PointsWithin(points)
    requires i < j < |points| && points[i] == LeftEye && points[j] == RightEye
    ensures PairIndex(|points|, i, j) < |FeatureVectorOf(ui, lm, points)|
    ensures FeatureVectorOf(ui, lm, points)[PairIndex(|points|, i, j)] == 1.0
  {
    FeatureEntryOfPair(ui, lm, points, i, j);
    DistanceFacts(ui.sqrt, lm[LeftEye], lm[RightEye]);
    SelfRatio(ReferenceDistance(ui, lm));
  }

  /** Entry 82 of the selected points' vector is the pair (36, 45). */
  lemma EyeEntryIsOne(ui: Identifier, lm: Landmarks)
    requires IsSqrt(ui.sqrt) && NonDegenerate(lm)
    ensures |FeatureVector(ui, lm)| == 176
    ensures FeatureVector(ui, lm)[82] == 1.0
  {
    assert PairIndex(19, 5, 8) == 82;
    SelectedPointsInRange();
    ReferenceEntryIsOne(ui, lm, SelectedPoints, 5, 8);
    FeatureVectorLength(ui, lm);
  }

  /** After the distances, entry Choose2(n) + t is the angle of triplet t. */
  lemma FeatureEntryOfAngle(ui: Identifier, lm: Landmarks, points: seq<nat>, t: nat)
    requires IsSqrt(ui.sqrt) && NonDegenerate(lm) && PointsWithin(points) && t < |AngleTriplets|
    ensures Choose2(|points|) + t < |FeatureVectorOf(ui, lm, points)|
    ensures FeatureVectorOf(ui, lm, points)[Choose2(|points|) + t] == TripletAngle(ui, lm, t)
  {
  }

  /** Every distance entry is non-negative. */
  lemma {:induction false} PairDistancesNonNegative(ui: Identifier, lm: Landmarks, ps: seq<(nat, nat)>)
    requires IsSqrt(ui.sqrt) && NonDegenerate(lm) && PairsWithin(ps)
    ensures forall k :: 0 <= k < |ps| ==> 0.0 <= PairDistances(ui, lm, ps)[k]
  {
    DistanceFacts(ui.sqrt, lm[LeftEye], lm[RightEye]);
    forall k | 0 <= k < |ps|
      ensures 0.0 <= PairDistances(ui, lm, ps)[k]
    {
      var pair := ps[k];
      DistanceFacts(ui.sqrt, lm[pair.0], lm[pair.1]);
      RatioNonNegative(EuclideanDistance(ui.sqrt, lm[pair.0], lm[pair.1]), ReferenceDistance(ui, lm));
    }
  }

  lemma DistanceEntriesNonNegative(ui: Identifier, lm: Landmarks, points: seq<nat>)
    requires IsSqrt(ui.sqrt) && NonDegenerate(lm) && PointsWithin(points)
    ensures Choose2(|points|) <= |FeatureVectorOf(ui, lm, points)|
    ensures forall k :: 0 <= k < Choose2(|points|) ==> 0.0 <= FeatureVectorOf(ui, lm, points)[k]
  {
    PairsWithinOf(points);
    PairDistancesNonNegative(ui, lm, Pairs(points));
  }

  /** All 68 landmarks moved by (dx, dy). */
  function Translate(lm: Landmarks, dx: int, dy: int): Landmarks {
    seq(68, n requires 0 <= n < 68 => Point(lm[n].x + dx, lm[n].y + dy))
  }

  /** Moving the face changes no difference between two landmarks. */
  lemma TranslateDifferences(lm: Landmarks, dx: int, dy: int)
    ensures forall p, q :: 0 <= p < LandmarkCount && 0 <= q < LandmarkCount ==>
      Translate(lm, dx, dy)[p].x - Translate(lm, dx, dy)[q].x == lm[p].x - lm[q].x &&
      Translate(lm, dx, dy)[p].y - Translate(lm, dx, dy)[q].y == lm[p].y - lm[q].y
  {
  }

  lemma TranslateDistance(sqrt: real -> real, lm: Landmarks, dx: int, dy: int, p: nat, q: nat)
    requires p < LandmarkCount && q < LandmarkCount
    ensures EuclideanDistance(sqrt, Translate(lm, dx, dy)[p], Translate(lm, dx, dy)[q])
         == EuclideanDistance(sqrt, lm[p], lm[q])
  {
    TranslateDifferences(lm, dx, dy);
  }

  lemma TranslateNonDegenerate(lm: Landmarks, dx: int, dy: int)
    requires NonDegenerate(lm)
    ensures NonDegenerate(Translate(lm, dx, dy))
  {
    TranslateDifferences(lm, dx, dy);
  }

  lemma {:induction false} TranslatePairDistances(ui: Identifier, lm: Landmarks, dx: int, dy: int, ps: seq<(nat, nat)>)
    requires IsSqrt(ui.sqrt) && NonDegenerate(lm) && PairsWithin(ps)
    ensures NonDegenerate(Translate(lm, dx, dy))
    ensures PairDistances(ui, Translate(lm, dx, dy), ps) == PairDistances(ui, lm, ps)
  {
    TranslateNonDegenerate(lm, dx, dy);
    TranslateDistance(ui.sqrt, lm, dx, dy, LeftEye, RightEye);
    forall k | 0 <= k < |ps|
      ensures PairDistances(ui, Translate(lm, dx, dy), ps)[k] == PairDistances(ui, lm, ps)[k]
    {
      TranslateDistance(ui.sqrt, lm, dx, dy, ps[k].0, ps[k].1);
    }
  }

  /** The angle depends only on the two differences BA and BC. */
  lemma AngleOfDifferences(ui: Identifier, a: Point, b: Point, c: Point, a': Point, b': Point, c': Point)
    requires IsSqrt(ui.sqrt) && a != b && c != b
    requires Minus(a, b) == Minus(a', b') && Minus(c, b) == Minus(c', b')
    ensures a' != b' && c' != b'
    ensures CalculateAngle(ui, a, b, c) == CalculateAngle(ui, a', b', c')
  {
  }

  lemma {:induction false} TranslateAngles(ui: Identifier, lm: Landmarks, dx: int, dy: int)
    requires IsSqrt(ui.sqrt) && NonDegenerate(lm)
    ensures NonDegenerate(Translate(lm, dx, dy))
    ensures Angles(ui, Translate(lm, dx, dy)) == Angles(ui, lm)
  {
    TranslateNonDegenerate(lm, dx, dy);
    TranslateDifferences(lm, dx, dy);
    var lm' := Translate(lm, dx, dy);
    forall t | 0 <= t < |AngleTriplets|
      ensures TripletAngle(ui, lm', t) == TripletAngle(ui, lm, t)
    {
      var (a, b, c) := AngleTriplets[t];
      AngleOfDifferences(ui, lm'[a], lm'[b], lm'[c], lm[a], lm[b], lm[c]);
    }
  }

  /** Moving the face leaves every distance and angle, hence every feature,
      alone. */
  lemma TranslationInvariant(ui: Identifier, lm: Landmarks, dx: int, dy: int, points: seq<nat>)
    requires IsSqrt(ui.sqrt) && NonDegenerate(lm) && PointsWithin(points)
    ensures NonDegenerate(Translate(lm, dx, dy))
    ensures FeatureVectorOf(ui, Translate(lm, dx, dy), points) == FeatureVectorOf(ui, lm, points)
  {
    PairsWithinOf(points);
    TranslatePairDistances(ui, lm, dx, dy, Pairs(points));
    TranslateAngles(ui, lm, dx, dy);
  }

  /** Every coordinate of the 68 landmarks multiplied by k: the same face,
      k times as large. */
  function Scale(lm: Landmarks, k: nat): Landmarks {
    ScaledPrefix(lm, k, LandmarkCount)
  }

  /** The first n landmarks, each k times as far from the origin. */
  function ScaledPrefix(lm: Landmarks, k: nat, n: nat): (r: seq<Point>)
    requires n <= LandmarkCount
    ensures |r| == n
  {
    if n == 0 then [] else ScaledPrefix(lm, k, n - 1) + [Stretch(lm[n - 1], k)]
  }

  lemma {:induction false} ScaledPrefixAt(lm: Landmarks, k: nat, n: nat, p: nat)
    requires p < n <= LandmarkCount
    ensures ScaledPrefix(lm, k, n)[p] == Stretch(lm[p], k)
  {
    if p < n - 1 {
      ScaledPrefixAt(lm, k, n - 1, p);
    }
  }

  /** The point k times as far from the origin. */
  function Stretch(v: Point, k: nat): Point {
    Point(k * v.x, k * v.y)
  }

  /** Between scaled landmarks, the difference is scaled too. */
  lemma ScaleDifference(lm: Landmarks, k: nat, p: nat, q: nat)
    requires p < LandmarkCount && q < LandmarkCount
    ensures Minus(Scale(lm, k)[p], Scale(lm, k)[q]) == Stretch(Minus(lm[p], lm[q]), k)
  {
    ScaledPrefixAt(lm, k, LandmarkCount, p);
    ScaledPrefixAt(lm, k, LandmarkCount, q);
    assert k * lm[p].x - k * lm[q].x == k * (lm[p].x - lm[q].x);
    assert k * lm[p].y - k * lm[q].y == k * (lm[p].y - lm[q].y);
  }

  /** A vector k times as long has k times the norm. */
  lemma ScaleNorm(sqrt: real -> real, v: Point, k: nat)
    requires IsSqrt(sqrt) && 0 < k
    ensures Norm(sqrt, Stretch(v, k)) == k as real * Norm(sqrt, v)
  {
    var m, n := SquaredNorm(k * v.x, k * v.y), SquaredNorm(v.x, v.y);
    SquaredNormScaled(v.x, v.y, k);
    CastScaled(m, n, k);
    RootOfScaled(sqrt, m, n, k);
  }

  /** The root of k*k*n is k times the root of n. */
  lemma RootOfScaled(sqrt: real -> real, m: nat, n: nat, k: nat)
    requires IsSqrt(sqrt) && 0 < k && m as real == k as real * k as real * n as real
    ensures sqrt(m as real) == k as real * sqrt(n as real)
  {
    SqrtScale(sqrt, n as real, k as real);
  }

  lemma SquaredNormScaled(x: int, y: int, k: int)
    ensures SquaredNorm(k * x, k * y) == (k * k) * SquaredNorm(x, y)
  {
    assert (k * x) * (k * x) == (k * k) * (x * x);
    assert (k * y) * (k * y) == (k * k) * (y * y);
  }

  lemma CastScaled(m: int, n: int, k: int)
    requires m == (k * k) * n
    ensures m as real == k as real * k as real * n as real
  {
    var kk := k * k;
    assert (kk * n) as real == kk as real * n as real;
    assert kk as real == k as real * k as real;
  }

  lemma ScaleDistance(sqrt: real -> real, lm: Landmarks, k: nat, p: nat, q: nat)
    requires IsSqrt(sqrt) && 0 < k && p < LandmarkCount && q < LandmarkCount
    ensures EuclideanDistance(sqrt, Scale(lm, k)[p], Scale(lm, k)[q]) == k as real * EuclideanDistance(sqrt, lm[p], lm[q])
  {
    ScaleDifference(lm, k, p, q);
    ScaleNorm(sqrt, Minus(lm[p], lm[q]), k);
  }

  lemma ScaleNonDegenerate(lm: Landmarks, k: nat)
    requires NonDegenerate(lm) && 0 < k
    ensures NonDegenerate(Scale(lm, k))
  {
    forall p, q | 0 <= p < LandmarkCount && 0 <= q < LandmarkCount && lm[p] != lm[q]
      ensures Scale(lm, k)[p] != Scale(lm, k)[q]
    {
      if lm[p].x != lm[q].x {
        ScaleDifference(lm, k, p, q);
        assert k * (lm[p].x - lm[q].x) != 0;
      } else {
        ScaleDifference(lm, k, p, q);
        assert k * (lm[p].y - lm[q].y) != 0;
      }
    }
  }

  /** A common positive factor cancels from a ratio. */
  lemma RatioCancel(x: real, y: real, k: real)
    requires 0.0 < y && 0.0 < k
    ensures (k * x) / (k * y) == x / y
  {
    assert (k * x) / (k * y) * (k * y) == k * x;
    assert x / y * (k * y) == k * x;
  }

  lemma {:induction false} ScalePairDistances(ui: Identifier, lm: Landmarks, k: nat, ps: seq<(nat, nat)>)
    requires IsSqrt(ui.sqrt) && NonDegenerate(lm) && PairsWithin(ps) && 0 < k
    ensures NonDegenerate(Scale(lm, k))
    ensures PairDistances(ui, Scale(lm, k), ps) == PairDistances(ui, lm, ps)
  {
    ScaleNonDegenerate(lm, k);
    forall n | 0 <= n < |ps|
      ensures PairDistances(ui, Scale(lm, k), ps)[n] == PairDistances(ui, lm, ps)[n]
    {
      ScaleNormalizedDistance(ui, lm, k, ps[n]);
    }
  }

  lemma ScaleNormalizedDistance(ui: Identifier, lm: Landmarks, k: nat, pair: (nat, nat))
    requires IsSqrt(ui.sqrt) && NonDegenerate(lm) && pair.0 < LandmarkCount && pair.1 < LandmarkCount && 0 < k
    ensures NonDegenerate(Scale(lm, k))
    ensures NormalizedDistance(ui, Scale(lm, k), pair) == NormalizedDistance(ui, lm, pair)
  {
    ScaleNonDegenerate(lm, k);
    ScaleDistance(ui.sqrt, lm, k, LeftEye, RightEye);
    ScaleDistance(ui.sqrt, lm, k, pair.0, pair.1);
    SimilarNormalizedDistance(ui, lm, Scale(lm, k), k as real, pair);
  }

  /** Landmarks whose distances are all c times those of others have the
      same normalised distances. */
  lemma SimilarNormalizedDistance(ui: Identifier, lm: Landmarks, lm': Landmarks, c: real, pair: (nat, nat))
    requires IsSqrt(ui.sqrt) && NonDegenerate(lm) && NonDegenerate(lm') && pair.0 < LandmarkCount && pair.1 < LandmarkCount && 0.0 < c
    requires EuclideanDistance(ui.sqrt, lm'[LeftEye], lm'[RightEye]) == c * EuclideanDistance(ui.sqrt, lm[LeftEye], lm[RightEye])
    requires EuclideanDistance(ui.sqrt, lm'[pair.0], lm'[pair.1]) == c * EuclideanDistance(ui.sqrt, lm[pair.0], lm[pair.1])
    ensures NormalizedDistance(ui, lm', pair) == NormalizedDistance(ui, lm, pair)
  {
    DistanceFacts(ui.sqrt, lm[LeftEye], lm[RightEye]);
    ScaledRatio(EuclideanDistance(ui.sqrt, lm'[pair.0], lm'[pair.1]), ReferenceDistance(ui, lm'),
                EuclideanDistance(ui.sqrt, lm[pair.0], lm[pair.1]), ReferenceDistance(ui, lm), c);
  }

  /** x' / y' is x / y when both are k times as large. */
  lemma ScaledRatio(x': real, y': real, x: real, y: real, k: real)
    requires 0.0 < y && 0.0 < k && x' == k * x && y' == k * y
    ensures x' / y' == x / y
  {
    RatioCancel(x, y, k);
  }

  /** The angle between two vectors does not change when both grow k
      times: the dot product grows k*k times, and so does the product of
      the norms. */
  lemma ScaleAngleBetween(ui: Identifier, ba: Point, bc: Point, k: nat)
    requires IsSqrt(ui.sqrt) && ba != Point(0, 0) && bc != Point(0, 0) && 0 < k
    ensures Stretch(ba, k) != Point(0, 0) && Stretch(bc, k) != Point(0, 0)
    ensures AngleBetween(ui, Stretch(ba, k), Stretch(bc, k)) == AngleBetween(ui, ba, bc)
  {
    ScaledNonZero(ba, k);
    ScaledNonZero(bc, k);
    ScaleCosine(ui.sqrt, ba, bc, k);
  }

  lemma ScaleCosine(sqrt: real -> real, ba: Point, bc: Point, k: nat)
    requires IsSqrt(sqrt) && ba != Point(0, 0) && bc != Point(0, 0) && 0 < k
    ensures Stretch(ba, k) != Point(0, 0) && Stretch(bc, k) != Point(0, 0)
    ensures Cosine(sqrt, Stretch(ba, k), Stretch(bc, k)) == Cosine(sqrt, ba, bc)
  {
    StretchEnlarges(sqrt, ba, k);
    StretchEnlarges(sqrt, bc, k);
    StretchDotScaled(ba, bc, k);
    CosineOfScaled(sqrt, ba, bc, Stretch(ba, k), Stretch(bc, k), k as real);
  }

  /** v' is a non-zero vector k times as long as the non-zero vector v. */
  ghost predicate Enlarged(sqrt: real -> real, v: Point, v': Point, k: real) {
    v != Point(0, 0) && v' != Point(0, 0) && Norm(sqrt, v') == k * Norm(sqrt, v)
  }

  lemma StretchEnlarges(sqrt: real -> real, v: Point, k: nat)
    requires IsSqrt(sqrt) && v != Point(0, 0) && 0 < k
    ensures Enlarged(sqrt, v, Stretch(v, k), k as real)
  {
    ScaledNonZero(v, k);
    ScaleNorm(sqrt, v, k);
  }

  /** Vectors whose norms are k times, and whose dot product is k*k times,
      those of two others make the same cosine. */
  lemma CosineOfScaled(sqrt: real -> real, ba: Point, bc: Point, ba': Point, bc': Point, k: real)
    requires IsSqrt(sqrt) && 0.0 < k && Enlarged(sqrt, ba, ba', k) && Enlarged(sqrt, bc, bc', k)
    requires DotScaled(ba, bc, ba', bc', k)
    ensures Cosine(sqrt, ba', bc') == Cosine(sqrt, ba, bc)
  {
    NormFacts(sqrt, ba);
    NormFacts(sqrt, bc);
    QuotientOfScaled(Dot(ba', bc') as real, Norm(sqrt, ba'), Norm(sqrt, bc'),
                     Dot(ba, bc) as real, Norm(sqrt, ba), Norm(sqrt, bc), k);
  }

  lemma QuotientOfScaled(d': real, n1: real, n2: real, d: real, a: real, c: real, k: real)
    requires 0.0 < a && 0.0 < c && 0.0 < k
    requires d' == (k * k) * d && n1 == k * a && n2 == k * c
    ensures 0.0 < n1 && 0.0 < n2 && Quotient(d', n1, n2) == Quotient(d, a, c)
  {
    PositiveProduct(k, a);
    PositiveProduct(k, c);
    ScaledQuotient(d, a, c, k);
  }

  /** ((k*k)*d) / ((k*a)*(k*c)) is d / (a*c): cancel k twice. */
  lemma ScaledQuotient(d: real, a: real, c: real, k: real)
    requires 0.0 < a && 0.0 < c && 0.0 < k
    ensures ((k * k) * d) / ((k * a) * (k * c)) == d / (a * c)
  {
    var ac, kc := a * c, k * c;
    PositiveProduct(a, c);
    PositiveProduct(k, c);
    var akc := a * kc;
    PositiveProduct(a, kc);
    assert (k * k) * d == k * (k * d);
    assert (k * a) * (k * c) == k * akc;
    RatioCancel(k * d, akc, k);
    assert akc == k * ac;
    RatioCancel(d, ac, k);
  }

  lemma PositiveProduct(a: real, b: real)
    requires 0.0 < a && 0.0 < b
    ensures 0.0 < a * b
  {
  }

  lemma ScaledNonZero(v: Point, k: nat)
    requires v != Point(0, 0) && 0 < k
    ensures Stretch(v, k) != Point(0, 0)
  {
    if v.x != 0 {
      assert k * v.x != 0;
    } else {
      assert k * v.y != 0;
    }
  }

  /** Both vectors k times as long: the dot product is k*k times as large. */
  /** The dot product of ba' and bc' is k*k times that of ba and bc. */
  ghost predicate DotScaled(ba: Point, bc: Point, ba': Point, bc': Point, k: real) {
    Dot(ba', bc') as real == (k * k) * Dot(ba, bc) as real
  }

  lemma StretchDotScaled(ba: Point, bc: Point, k: nat)
    ensures DotScaled(ba, bc, Stretch(ba, k), Stretch(bc, k), k as real)
  {
    ScaleDot(ba, bc, k);
  }

  lemma ScaleDot(ba: Point, bc: Point, k: nat)
    ensures (Dot(Stretch(ba, k), Stretch(bc, k)) as real) == (k as real * k as real) * (Dot(ba, bc) as real)
  {
    assert (k * ba.x) * (k * bc.x) == (k * k) * (ba.x * bc.x);
    assert (k * ba.y) * (k * bc.y) == (k * k) * (ba.y * bc.y);
    assert Dot(Stretch(ba, k), Stretch(bc, k)) == (k * k) * Dot(ba, bc);
    assert ((k * k) * Dot(ba, bc)) as real == (k * k) as real * Dot(ba, bc) as real;
  }

  lemma {:induction false} ScaleAngles(ui: Identifier, lm: Landmarks, k: nat)
    requires IsSqrt(ui.sqrt) && NonDegenerate(lm) && 0 < k
    ensures NonDegenerate(Scale(lm, k))
    ensures Angles(ui, Scale(lm, k)) == Angles(ui, lm)
  {
    ScaleNonDegenerate(lm, k);
    var lm' := Scale(lm, k);
    forall t | 0 <= t < |AngleTriplets|
      ensures TripletAngle(ui, lm', t) == TripletAngle(ui, lm, t)
    {
      var (a, b, c) := AngleTriplets[t];
      ScaleDifference(lm, k, a, b);
      ScaleDifference(lm, k, c, b);
      ScaleAngleBetween(ui, Minus(lm[a], lm[b]), Minus(lm[c], lm[b]), k);
    }
  }

  /** Dividing by the eye distance makes the vector scale-invariant: the
      same face k times as large gives the same features. */
  lemma ScaleInvariant(ui: Identifier, lm: Landmarks, k: nat, points: seq<nat>)
    requires IsSqrt(ui.sqrt) && NonDegenerate(lm) && PointsWithin(points) && 0 < k
    ensures NonDegenerate(Scale(lm, k))
    ensures FeatureVectorOf(ui, Scale(lm, k), points) == FeatureVectorOf(ui, lm, points)
  {
    PairsWithinOf(points);
    ScalePairDistances(ui, lm, k, Pairs(points));
    ScaleAngles(ui, lm, k);
  }

  /** An image the extractor can handle: the single face, if there is one,
      has non-degenerate landmarks. */
  ghost predicate Extractable(ui: Identifier, image: Frame) {
    IsSqrt(ui.sqrt) && (LandmarksOf(ui, image).Some? ==> NonDegenerate(LandmarksOf(ui, image).value))
  }

  /** The two loops of extract_feature_vector, over the list of pairs: for
      each pair, in order, the distance between its two landmarks divided by
      the eye distance; then, for each triplet, its angle. */
  method VectorFromLandmarks(ui: Identifier, lm: Landmarks, pairs: seq<(nat, nat)>) returns (fv: seq<real>)
    requires IsSqrt(ui.sqrt) && NonDegenerate(lm) && PairsWithin(pairs)
    ensures fv == PairDistances(ui, lm, pairs) + Angles(ui, lm)
  {
    DistanceFacts(ui.sqrt, lm[LeftEye], lm[RightEye]);
    var reference := EuclideanDistance(ui.sqrt, lm[LeftEye], lm[RightEye]);
    fv := [];
    for k := 0 to |pairs|
      invariant |fv| == k
      invariant forall t :: 0 <= t < k ==> fv[t] == NormalizedDistance(ui, lm, pairs[t])
    {
      var (i, j) := pairs[k];
      var distance := EuclideanDistance(ui.sqrt, lm[i], lm[j]);
      fv := fv + [distance / reference];
    }
    assert fv == PairDistances(ui, lm, pairs);
    for t := 0 to |AngleTriplets|
      invariant |fv| == |pairs| + t
      invariant fv[..|pairs|] == PairDistances(ui, lm, pairs)
      invariant forall u :: 0 <= u < t ==> fv[|pairs| + u] == TripletAngle(ui, lm, u)
    {
      var (a, b, c) := AngleTriplets[t];
      var angle := CalculateAngle(ui, lm[a], lm[b], lm[c]);
      fv := fv + [angle];
    }
  }

  /** What extract_feature_vector returns, or the exception it raises. */
  function Extracted(ui: Identifier, image: Frame): (r: Result<seq<real>, FaceError>)
    requires Extractable(ui, image)
    ensures r.Err? <==> |Faces(ui, image)| != 1
    ensures r.Ok? ==> |r.value| == 176
  {
    match SingleFace(Faces(ui, image))
    case Err(e) => Err(e)
    case Ok(face) =>
      var lm := ui.predictor(PreprocessImage(image), face);
      FeatureVectorLength(ui, lm);
      Ok(FeatureVector(ui, lm))
  }

  /** extract_feature_vector: reject zero or several faces, otherwise append
      the normalised pair distances and then the angles. */
  method ExtractFeatureVector(ui: Identifier, image: Frame) returns (r: Result<seq<real>, FaceError>)
    requires Extractable(ui, image)
    ensures r == Err(NoFaceDetected) <==> |Faces(ui, image)| == 0
    ensures r == Err(MultipleFacesDetected) <==> |Faces(ui, image)| > 1
    ensures r.Ok? <==> LandmarksOf(ui, image).Some?
    ensures r.Ok? ==> r.value == FeatureVector(ui, LandmarksOf(ui, image).value)
    ensures r == Extracted(ui, image)
  {
    var gray := PreprocessImage(image);
    var faces := ui.detector(gray);
    if |faces| == 0 {
      return Err(NoFaceDetected);
    } else if |faces| > 1 {
      return Err(MultipleFacesDetected);
    }
    var lm := ui.predictor(gray, faces[0]);
    assert LandmarksOf(ui, image) == Some(lm);
    PairsInRange();
    var fv := VectorFromLandmarks(ui, lm, Pairs(SelectedPoints));
    return Ok(fv);
  }

  /** The frame after a circle at each of `points`, drawn in order. */
  function DrawnOn(circle: (Frame, Point) -> Frame, frame: Frame, points: seq<Point>): Frame {
    if points == [] then frame
    else circle(DrawnOn(circle, frame, points[..|points| - 1]), points[|points| - 1])
  }

  /** Drawing circles keeps the frame's size, so the image the thread later
      extracts from has the size of the captured one. */
  lemma {:induction false} DrawnOnKeepsSize(ui: Identifier, frame: Frame, points: seq<Point>)
    requires CircleLaws(ui)
    ensures DrawnOn(ui.circle, frame, points).height == frame.height
    ensures DrawnOn(ui.circle, frame, points).width == frame.width
  {
    if points != [] {
      DrawnOnKeepsSize(ui, frame, points[..|points| - 1]);
    }
  }

  /** What draw_landmarks returns or raises. */
  function Drawn(ui: Identifier, frame: Frame): (r: Result<Frame, FaceError>)
    ensures r == Err(NoFaceDetected) <==> |Faces(ui, frame)| == 0
    ensures r == Err(MultipleFacesDetected) <==> |Faces(ui, frame)| > 1
    ensures r.Ok? <==> LandmarksOf(ui, frame).Some?
  {
    match SingleFace(Faces(ui, frame))
    case Err(e) => Err(e)
    case Ok(face) => Ok(DrawnOn(ui.circle, frame, ui.predictor(PreprocessImage(frame), face)))
  }

  /** Marking a face keeps the frame's size. */
  lemma DrawnKeepsSize(ui: Identifier, frame: Frame)
    requires CircleLaws(ui)
    ensures Drawn(ui, frame).Ok? ==>
      Drawn(ui, frame).value.height == frame.height && Drawn(ui, frame).value.width == frame.width
  {
    if LandmarksOf(ui, frame).Some? {
      DrawnOnKeepsSize(ui, frame, LandmarksOf(ui, frame).value);
    }
  }

  /** draw_landmarks: the same face-count check; on one face, a circle at
      each of the 68 landmarks, in order, on the frame it then returns. */
  method DrawLandmarks(ui: Identifier, frame: Frame) returns (r: Result<Frame, FaceError>)
    ensures r == Drawn(ui, frame)
    ensures r.Ok? ==> r.value == DrawnOn(ui.circle, frame, LandmarksOf(ui, frame).value)
  {
    var gray := PreprocessImage(frame);
    var faces := ui.detector(gray);
    if |faces| == 0 {
      return Err(NoFaceDetected);
    } else if |faces| > 1 {
      return Err(MultipleFacesDetected);
    }
    var landmarks := ui.predictor(gray, faces[0]);
    var drawn := frame;
    for n := 0 to LandmarkCount
      invariant drawn == DrawnOn(ui.circle, frame, landmarks[..n])
    {
      assert landmarks[..n + 1][..n] == landmarks[..n];
      drawn := ui.circle(drawn, landmarks[n]);
    }
    assert landmarks[..LandmarkCount] == landmarks;
    return Ok(drawn);
  }
}
