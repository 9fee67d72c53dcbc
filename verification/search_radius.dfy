/** The search-radius policy of `getSearchRadius`: the ground length of the
    bottom edge of the visible extent, rounded up and clamped to the
    admissible range. The length itself comes from the geometry library and
    is an input here. */
module SearchRadius {

  /** Smallest radius sent to the geosearch service, in meters. */
  const MinSearchRadius: int := 10
  /** Largest radius sent to the geosearch service, in meters. */
  const MaxSearchRadius: int := 10000

  /** `Math.floor` on a finite number. */
  function Floor(x: real): (r: int)
    ensures r as real <= x < r as real + 1.0
  {
    x.Floor
  }

  /** `Math.ceil` on a finite number. */
  function Ceil(x: real): (r: int)
    ensures r as real - 1.0 < x <= r as real
  {
    if x.Floor as real == x then x.Floor else x.Floor + 1
  }

  /** `clamp(value, min, max)`, that is `Math.min(Math.max(value, min), max)`.
      `clamp` does not require `min <= max`; when it does not hold the
      result is `max`. */
  function Clamp(value: real, min: real, max: real): (r: real)
    ensures min <= max ==> min <= r <= max
    ensures min <= value <= max ==> r == value
    ensures value < min ==> r == (if min <= max then min else max)
    ensures max < value ==> r == max
  {
    if value < min then (if min < max then min else max)
    else if value < max then value
    else max
  }

  /** `getSearchRadius`, given the measured length of the extent's bottom
      edge: `floor(clamp(ceil(distance), 10, 10000))`. */
  function GetSearchRadius(distance: real): (r: int)
    ensures MinSearchRadius <= r <= MaxSearchRadius
  {
    Floor(Clamp(Ceil(distance) as real, MinSearchRadius as real, MaxSearchRadius as real))
  }

  /** The radius is the least admissible whole number of meters covering the
      measured distance; a distance beyond the range gets the largest radius. */
  lemma GetSearchRadiusIsLeastCover(distance: real)
    ensures var r := GetSearchRadius(distance);
      && (distance <= MaxSearchRadius as real ==>
            distance <= r as real && (r == MinSearchRadius || (r - 1) as real < distance))
      && (MaxSearchRadius as real < distance ==> r == MaxSearchRadius)
  {
    var c := Ceil(distance);
    var k := Clamp(c as real, MinSearchRadius as real, MaxSearchRadius as real);
    if c < MinSearchRadius {
      assert k == MinSearchRadius as real;
    } else if c <= MaxSearchRadius {
      assert k == c as real;
    } else {
      assert k == MaxSearchRadius as real;
    }
  }

  /** Zero-width (degenerate) extents get the minimum radius. */
  lemma DegenerateExtentGetsMinimum()
    ensures GetSearchRadius(0.0) == MinSearchRadius
  {
    assert Ceil(0.0) == 0;
  }

  /** Inside the admissible range the radius is exactly the rounded-up distance. */
  lemma GetSearchRadiusInRange(distance: real)
    requires MinSearchRadius <= Ceil(distance) <= MaxSearchRadius
    ensures GetSearchRadius(distance) == Ceil(distance)
  {
    var c := Ceil(distance);
    assert Clamp(c as real, MinSearchRadius as real, MaxSearchRadius as real) == c as real;
  }

  lemma CeilMonotone(x: real, y: real)
    requires x <= y
    ensures Ceil(x) <= Ceil(y)
  {
  }

  /** A wider extent never yields a smaller radius. */
  lemma GetSearchRadiusMonotone(d1: real, d2: real)
    requires d1 <= d2
    ensures GetSearchRadius(d1) <= GetSearchRadius(d2)
  {
    CeilMonotone(d1, d2);
    var c1, c2 := Ceil(d1), Ceil(d2);
    var lo, hi := MinSearchRadius as real, MaxSearchRadius as real;
    assert Clamp(c1 as real, lo, hi) <= Clamp(c2 as real, lo, hi);
  }

  /** Every admissible radius is a fixed point, so applying the policy to its
      own output changes nothing. */
  lemma GetSearchRadiusIdempotent(distance: real)
    ensures GetSearchRadius(GetSearchRadius(distance) as real) == GetSearchRadius(distance)
  {
    var r := GetSearchRadius(distance);
    assert Ceil(r as real) == r;
    GetSearchRadiusInRange(r as real);
  }
}
