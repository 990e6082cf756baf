// The five-star rating display (frontend/src/components/Rating.jsx): each
// of the five slots shows a full, a half or an empty star depending on the
// value, and an optional caption follows.
module Rating {
  import opened Results

  datatype Star = Full | Half | Empty

  /** Slot `i` (1 to 5): full from `i` on, half from `i - 0.5` on, empty below. */
  function Slot(value: real, i: int): Star {
    if value >= i as real then Full
    else if value >= i as real - 0.5 then Half
    else Empty
  }

  /** The five slots, left to right. */
  function Stars(value: real): (r: seq<Star>)
    ensures |r| == 5
    ensures forall k :: 0 <= k < 5 ==>
      && (r[k] == Full <==> value >= (k + 1) as real)
      && (r[k] == Half <==> (k + 1) as real - 0.5 <= value < (k + 1) as real)
      && (r[k] == Empty <==> value < (k + 1) as real - 0.5)
  {
    [Slot(value, 1), Slot(value, 2), Slot(value, 3), Slot(value, 4), Slot(value, 5)]
  }

  /** Full stars come first, then at most one half star, then empty ones. */
  function Rank(s: Star): int {
    match s
    case Full => 2
    case Half => 1
    case Empty => 0
  }

  lemma StarsOrdered(value: real)
    ensures var r := Stars(value);
      && (forall i, j :: 0 <= i < j < 5 ==> Rank(r[i]) >= Rank(r[j]))
      && (forall i, j :: 0 <= i < j < 5 ==> !(r[i] == Half && r[j] == Half))
  {
  }

  lemma StarsExtremes(value: real)
    ensures value >= 5.0 ==> Stars(value) == [Full, Full, Full, Full, Full]
    ensures value < 0.5 ==> Stars(value) == [Empty, Empty, Empty, Empty, Empty]
  {
  }

  function CountFull(r: seq<Star>): (n: nat)
    ensures n <= |r|
  {
    if r == [] then 0 else CountFull(r[..|r| - 1]) + if r[|r| - 1] == Full then 1 else 0
  }

  function Clamp(x: int, lo: int, hi: int): int {
    if x < lo then lo else if x > hi then hi else x
  }

  /** The number of full stars is the value rounded down, clamped to 0..5. */
  lemma FullStarsAreFloor(value: real)
    ensures CountFull(Stars(value)) == Clamp(value.Floor, 0, 5)
  {
    var r := Stars(value);
    var f := value.Floor;
    assert f as real <= value < f as real + 1.0;
    assert forall k :: 0 <= k < 5 ==> (r[k] == Full <==> k + 1 <= f);
    CountFullStep(r, 0);
    CountFullStep(r, 1);
    CountFullStep(r, 2);
    CountFullStep(r, 3);
    CountFullStep(r, 4);
    assert r[..5] == r;
  }

  lemma CountFullStep(r: seq<Star>, k: nat)
    requires k < |r|
    ensures CountFull(r[..k + 1]) == CountFull(r[..k]) + if r[k] == Full then 1 else 0
  {
    assert r[..k + 1][..k] == r[..k];
  }

  /** A half star shows exactly when the value is below 5 and its fraction is at least one half, from 0.5 on. */
  lemma HalfStarIff(value: real)
    ensures (exists k :: 0 <= k < 5 && Stars(value)[k] == Half) <==>
      0.5 <= value < 5.0 && value - value.Floor as real >= 0.5
  {
    var r := Stars(value);
    var f := value.Floor;
    assert f as real <= value < f as real + 1.0;
    if 0.5 <= value < 5.0 && value - f as real >= 0.5 {
      assert 0 <= f < 5;
      assert r[f] == Half;
    }
  }

  /** The caption is rendered only for a non-empty text. */
  function Caption(text: Option<string>): (c: Option<string>)
    ensures c.Some? <==> text.Some? && text.value != []
    ensures c.Some? ==> c.value == text.value
  {
    if text.Some? && text.value != [] then text else None
  }
}
