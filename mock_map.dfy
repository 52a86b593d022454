/**
 * The mock map: where the marker of the `index`-th request of a district is
 * drawn, as CSS percentages.
 */
module MockMap {
  import opened Optional

  datatype Position = Position(top: string, left: string)

  const Central := "Центральный"

  /** The marker slots of each known district. */
  const Positions: map<string, seq<Position>> := map[
    "Центральный" := [Position("45%", "50%"), Position("48%", "52%"), Position("42%", "48%")],
    "Северный" := [Position("30%", "50%"), Position("28%", "52%"), Position("32%", "48%")],
    "Южный" := [Position("70%", "50%"), Position("72%", "52%"), Position("68%", "48%")],
    "Восточный" := [Position("45%", "65%"), Position("48%", "67%"), Position("42%", "63%")],
    "Западный" := [Position("45%", "35%"), Position("48%", "37%"), Position("42%", "33%")]
  ]

  /** Every district of the table has three slots, and the central district is in it. */
  lemma PositionsHaveThreeSlots()
    ensures Central in Positions
    ensures forall d :: d in Positions ==> |Positions[d]| == 3
  {
  }

  /**
   * JavaScript's `a % n` for a positive `n`: the remainder takes the sign of
   * the dividend, so it is negative for a negative `a` not divisible by `n`.
   */
  function JsRem(a: int, n: int): (r: int)
    requires n > 0
    ensures a >= 0 ==> r == a % n
    ensures -n < r < n
    ensures r < 0 <==> a < 0 && a % n != 0
  {
    if a >= 0 then a % n
    else
      var q := (-a) / n;
      var m := (-a) % n;
      if m == 0 then
        EuclideanRemainder(a, n, -q, 0);
        0
      else
        EuclideanRemainder(a, n, -q - 1, n - m);
        -m
  }

  /** Dafny's `%` is the unique remainder in `[0, n)`. */
  lemma EuclideanRemainder(a: int, n: int, q: int, r: int)
    requires n > 0 && 0 <= r < n && a == q * n + r
    ensures a % n == r
  {
    var d := q - a / n;
    assert d * n == a % n - r;
  }

  /** `positions[district] || positions['Центральный']` */
  function DistrictPositions(district: string): (ps: seq<Position>)
    ensures |ps| == 3
    ensures district in Positions ==> ps == Positions[district]
    ensures district !in Positions ==> ps == Positions[Central]
  {
    PositionsHaveThreeSlots();
    if district in Positions then Positions[district] else Positions[Central]
  }

  /**
   * `getMarkerPosition(district, index)`: the slot at `index % 3`; None is
   * the `undefined` a negative remainder indexes.
   */
  function MarkerPosition(district: string, index: int): (p: Option<Position>)
    ensures p.Some? ==> p.value in DistrictPositions(district)
    ensures p.None? <==> index < 0 && index % 3 != 0
  {
    var ps := DistrictPositions(district);
    var i := JsRem(index, |ps|);
    if 0 <= i then Some(ps[i]) else None
  }

  /**
   * A district outside the table is drawn like the central district.
   */
  lemma UnknownDistrictIsCentral(district: string, index: int)
    requires district !in Positions
    ensures MarkerPosition(district, index) == MarkerPosition(Central, index)
  {
  }

  /**
   * Any non-negative index (the `map` index the markers are drawn with) gets
   * the slot at `index % 3`, a slot of its district.
   */
  lemma MarkerIsDistrictSlot(district: string, index: int)
    requires index >= 0
    ensures MarkerPosition(district, index) == Some(DistrictPositions(district)[index % 3])
    ensures MarkerPosition(district, index).value in DistrictPositions(district)
  {
  }

  /** For non-negative indices the markers repeat every three requests. */
  lemma MarkersRepeatEveryThree(district: string, index: int)
    requires index >= 0
    ensures MarkerPosition(district, index + 3) == MarkerPosition(district, index)
  {
    MarkerIsDistrictSlot(district, index);
    MarkerIsDistrictSlot(district, index + 3);
  }

  /** A negative index has a position exactly when it is a multiple of three. */
  lemma NegativeIndexDefinedOnMultiples(district: string, index: int)
    requires index < 0
    ensures MarkerPosition(district, index).Some? <==> index % 3 == 0
  {
  }
}
