/**
 * Post-processing of the motion detector (`find_bird_position`): the choice
 * of the largest contour and the integer centre of its bounding rectangle.
 * The image operations that produce the contours are not modelled: each
 * contour is a record of the area and the bounding rectangle that OpenCV
 * reports for it.
 */
module Detection {
  import opened Wrappers

  /** A pixel coordinate `(x, y)`. */
  type Position = (int, int)

  /** An axis-aligned bounding rectangle `(x, y, w, h)`. */
  datatype Rect = Rect(x: int, y: int, w: int, h: int)

  /** One external contour of the motion mask: its enclosed area and its bounding rectangle. */
  datatype Contour = Contour(area: real, box: Rect)

  /** `k` is the first index of a contour of largest area. */
  ghost predicate IsFirstMax(cs: seq<Contour>, k: int)
  {
    0 <= k < |cs| &&
    (forall j :: 0 <= j < |cs| ==> cs[j].area <= cs[k].area) &&
    (forall j :: 0 <= j < k ==> cs[j].area < cs[k].area)
  }

  /**
   * The index Python's `max(contours, key=cv2.contourArea)` picks: the
   * contours are scanned from the front and the best so far is replaced only
   * by a strictly larger area, so the first of several equal maxima wins.
   */
  function MaxAreaIndex(cs: seq<Contour>): (k: nat)
    requires |cs| > 0
    ensures k < |cs|
    ensures forall j :: 0 <= j < |cs| ==> cs[j].area <= cs[k].area
    ensures forall j :: 0 <= j < k ==> cs[j].area < cs[k].area
    decreases |cs|
  {
    if |cs| == 1 then 0
    else
      var best := MaxAreaIndex(cs[..|cs| - 1]);
      if cs[|cs| - 1].area > cs[best].area then |cs| - 1 else best
  }

  /** Every index that is a first maximum is the one `MaxAreaIndex` picks. */
  lemma MaxAreaIndexUnique(cs: seq<Contour>, k: int)
    requires |cs| > 0
    ensures IsFirstMax(cs, k) <==> k == MaxAreaIndex(cs)
  {
  }

  /**
   * The centre `(x + w // 2, y + h // 2)` of a rectangle. Python's floor
   * division by 2 and Dafny's Euclidean division by 2 agree on every integer,
   * so `/` below is exactly the source's `//`.
   */
  function Centroid(b: Rect): (c: Position)
    ensures 2 * (c.0 - b.x) <= b.w < 2 * (c.0 - b.x) + 2
    ensures 2 * (c.1 - b.y) <= b.h < 2 * (c.1 - b.y) + 2
  {
    (b.x + b.w / 2, b.y + b.h / 2)
  }

  /** The centre of a rectangle of non-negative size lies inside it. */
  lemma CentroidInside(b: Rect)
    requires b.w >= 0 && b.h >= 0
    ensures b.x <= Centroid(b).0 <= b.x + b.w
    ensures b.y <= Centroid(b).1 <= b.y + b.h
  {
  }

  /**
   * The result of `find_bird_position` once the contours are known: the
   * centre and the rectangle of the largest contour, or `(None, None)` when
   * there is no contour.
   */
  function Locate(cs: seq<Contour>): (r: (Option<Position>, Option<Rect>))
    ensures r.0.Some? <==> r.1.Some?
    ensures r.0.None? <==> cs == []
    ensures r.1.Some? ==> exists k :: IsFirstMax(cs, k) && r.1.value == cs[k].box
    ensures r.1.Some? ==> r.0 == Some(Centroid(r.1.value))
  {
    if cs == [] then (None, None)
    else
      var k := MaxAreaIndex(cs);
      assert IsFirstMax(cs, k);
      var box := cs[k].box;
      (Some(Centroid(box)), Some(box))
  }

  /** The rectangle `Locate` reports is that of the contour `MaxAreaIndex` picks, and no other contour is larger. */
  lemma LocateChoosesLargest(cs: seq<Contour>)
    requires cs != []
    ensures Locate(cs).1 == Some(cs[MaxAreaIndex(cs)].box)
    ensures forall j :: 0 <= j < |cs| ==> cs[j].area <= cs[MaxAreaIndex(cs)].area
  {
  }

  /** Of two contours of different areas, the rectangle of the larger one is reported. */
  lemma LocateStrictlyLarger(a: Contour, b: Contour)
    requires a.area != b.area
    ensures Locate([a, b]).1 == Some(if a.area > b.area then a.box else b.box)
  {
  }

  /** Of two contours of equal area, the first one is reported. */
  lemma LocateTieKeepsFirst(a: Contour, b: Contour)
    requires a.area == b.area
    ensures Locate([a, b]).1 == Some(a.box)
  {
  }
}
