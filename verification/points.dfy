/**
 * The favorites-to-points step function of the roll command
 * (`calculatePoints` in src/index.js).
 */
module Points {

  /** Every value the step function can award. */
  const PointValues: set<int> := {1, 2, 5, 10, 25, 50, 100, 250}

  /**
   * Points awarded for a character with `favorites` favorites. The source
   * compares with `=== 0` first and then with `<`, so a negative count
   * (which the catalog never reports) falls into the `< 10` tier.
   */
  function CalculatePoints(favorites: int): (points: int)
    ensures points in PointValues
    ensures favorites == 0 <==> points == 1
    ensures points == 2 <==> favorites != 0 && favorites < 10
    ensures points == 250 <==> favorites >= 5000
  {
    if favorites == 0 then 1
    else if favorites < 10 then 2
    else if favorites < 50 then 5
    else if favorites < 100 then 10
    else if favorites < 500 then 25
    else if favorites < 1000 then 50
    else if favorites < 5000 then 100
    else 250
  }

  /** The tier table for non-negative counts, as half-open favorites ranges. */
  lemma PointTiers(favorites: nat)
    ensures favorites == 0 ==> CalculatePoints(favorites) == 1
    ensures 1 <= favorites < 10 ==> CalculatePoints(favorites) == 2
    ensures 10 <= favorites < 50 ==> CalculatePoints(favorites) == 5
    ensures 50 <= favorites < 100 ==> CalculatePoints(favorites) == 10
    ensures 100 <= favorites < 500 ==> CalculatePoints(favorites) == 25
    ensures 500 <= favorites < 1000 ==> CalculatePoints(favorites) == 50
    ensures 1000 <= favorites < 5000 ==> CalculatePoints(favorites) == 100
    ensures 5000 <= favorites ==> CalculatePoints(favorites) == 250
  {
  }

  /** More favorites never earn fewer points. */
  lemma PointsMonotone(a: nat, b: nat)
    requires a <= b
    ensures CalculatePoints(a) <= CalculatePoints(b)
  {
  }
}
