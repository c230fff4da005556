/**
 * Per-frame finger counting (components/SmartGestureModal.tsx, inside `predictWebcam`).
 * A hand is the landmark list produced by the hand detector; only the first
 * detected hand of a frame is examined.
 */
module FingerCount {

  /** One normalised landmark point; the counting rules use only x and y. */
  datatype Landmark = Landmark(x: real, y: real, z: real)

  type Hand = seq<Landmark>

  /** The detector yields 21 landmarks per hand. */
  const NumLandmarks: nat := 21

  const Wrist: nat := 0
  const ThumbIp: nat := 3
  const ThumbTip: nat := 4
  const IndexPip: nat := 6
  const IndexTip: nat := 8
  const MiddlePip: nat := 10
  const MiddleTip: nat := 12
  const RingPip: nat := 14
  const RingTip: nat := 16
  const PinkyPip: nat := 18
  const PinkyTip: nat := 20

  /** A hand as the detector delivers it: at least the 21 indexed points. */
  predicate WellFormed(hand: Hand) {
    NumLandmarks <= |hand|
  }

  datatype Finger = Thumb | Index | Middle | Ring | Pinky

  const AllFingers: set<Finger> := {Thumb, Index, Middle, Ring, Pinky}

  /** The (tip, PIP joint) landmark pair tested for a non-thumb finger. */
  function TipAndPip(f: Finger): (nat, nat)
    requires f != Thumb
  {
    match f
    case Index => (IndexTip, IndexPip)
    case Middle => (MiddleTip, MiddlePip)
    case Ring => (RingTip, RingPip)
    case Pinky => (PinkyTip, PinkyPip)
  }

  /** Squared planar distance between two landmarks. */
  function SquaredDistance(a: Landmark, b: Landmark): (d: real)
    ensures d >= 0.0
  {
    (a.x - b.x) * (a.x - b.x) + (a.y - b.y) * (a.y - b.y)
  }

  /**
   * `isFingerExtended(tip, pip)`: the tip is more than 1.1 times as far from the
   * wrist as the PIP joint, compared on squared distances (1.1 * 1.1 = 1.21).
   */
  predicate IsFingerExtended(hand: Hand, tip: nat, pip: nat)
    requires tip < |hand| && pip < |hand|
  {
    SquaredDistance(hand[tip], hand[Wrist]) > 1.21 * SquaredDistance(hand[pip], hand[Wrist])
  }

  /** The thumb rule: the tip lies above the IP joint (y grows downwards). */
  predicate IsThumbExtended(hand: Hand)
    requires WellFormed(hand)
  {
    hand[ThumbTip].y < hand[ThumbIp].y
  }

  /** Whether one finger of a hand counts as extended. */
  predicate Extended(hand: Hand, f: Finger)
    requires WellFormed(hand)
  {
    if f == Thumb then IsThumbExtended(hand)
    else IsFingerExtended(hand, TipAndPip(f).0, TipAndPip(f).1)
  }

  /** The set of fingers of a hand that count as extended. */
  function ExtendedFingers(hand: Hand): (s: set<Finger>)
    requires WellFormed(hand)
    ensures s <= AllFingers
  {
    set f | f in AllFingers && Extended(hand, f)
  }

  function Bit(b: bool): nat { if b then 1 else 0 }

  /**
   * The counter as the component runs it: start at 0 and add one for the
   * thumb, then for index (8 vs 6), middle (12 vs 10), ring (16 vs 14) and
   * pinky (20 vs 18).
   */
  function CountFingers(hand: Hand): (n: nat)
    requires WellFormed(hand)
    ensures n <= 5
    ensures n == |ExtendedFingers(hand)|
  {
    var n := Bit(IsThumbExtended(hand))
      + Bit(IsFingerExtended(hand, IndexTip, IndexPip))
      + Bit(IsFingerExtended(hand, MiddleTip, MiddlePip))
      + Bit(IsFingerExtended(hand, RingTip, RingPip))
      + Bit(IsFingerExtended(hand, PinkyTip, PinkyPip));
    CountIsCardinality(hand);
    n
  }

  /** Number of fingers in `fs` that are extended, one finger at a time. */
  function CountAmong(hand: Hand, fs: seq<Finger>): nat
    requires WellFormed(hand)
  {
    if fs == [] then 0 else Bit(Extended(hand, fs[0])) + CountAmong(hand, fs[1..])
  }

  /** Counting a list of distinct fingers one by one gives the size of the extended subset. */
  lemma {:induction false} CountAmongIsCardinality(hand: Hand, fs: seq<Finger>)
    requires WellFormed(hand)
    requires forall i, j :: 0 <= i < j < |fs| ==> fs[i] != fs[j]
    ensures CountAmong(hand, fs) == |set f | f in fs && Extended(hand, f)|
  {
    if fs != [] {
      var rest := set f | f in fs[1..] && Extended(hand, f);
      CountAmongIsCardinality(hand, fs[1..]);
      assert fs[0] !in rest;
      if Extended(hand, fs[0]) {
        assert (set f | f in fs && Extended(hand, f)) == {fs[0]} + rest;
      } else {
        assert (set f | f in fs && Extended(hand, f)) == rest;
      }
    }
  }

  /** The straight-line counter equals the number of extended fingers. */
  lemma CountIsCardinality(hand: Hand)
    requires WellFormed(hand)
    ensures Bit(IsThumbExtended(hand))
      + Bit(IsFingerExtended(hand, IndexTip, IndexPip))
      + Bit(IsFingerExtended(hand, MiddleTip, MiddlePip))
      + Bit(IsFingerExtended(hand, RingTip, RingPip))
      + Bit(IsFingerExtended(hand, PinkyTip, PinkyPip))
      == |ExtendedFingers(hand)|
  {
    var fs := [Thumb, Index, Middle, Ring, Pinky];
    CountAmongIsCardinality(hand, fs);
    CountAmongAllFingers(hand);
    assert (set f | f in fs && Extended(hand, f)) == ExtendedFingers(hand);
  }

  lemma CountAmongAllFingers(hand: Hand)
    requires WellFormed(hand)
    ensures CountAmong(hand, [Thumb, Index, Middle, Ring, Pinky])
      == Bit(IsThumbExtended(hand))
      + Bit(IsFingerExtended(hand, IndexTip, IndexPip))
      + Bit(IsFingerExtended(hand, MiddleTip, MiddlePip))
      + Bit(IsFingerExtended(hand, RingTip, RingPip))
      + Bit(IsFingerExtended(hand, PinkyTip, PinkyPip))
  {
    var fs := [Thumb, Index, Middle, Ring, Pinky];
    assert fs[1..] == [Index, Middle, Ring, Pinky];
    assert fs[1..][1..] == [Middle, Ring, Pinky];
    assert fs[1..][1..][1..] == [Ring, Pinky];
    assert fs[1..][1..][1..][1..] == [Pinky];
    assert CountAmong(hand, [Pinky]) == Bit(Extended(hand, Pinky)) + CountAmong(hand, []);
    assert CountAmong(hand, [Ring, Pinky]) == Bit(Extended(hand, Ring)) + CountAmong(hand, [Pinky]);
    assert CountAmong(hand, [Middle, Ring, Pinky]) == Bit(Extended(hand, Middle)) + CountAmong(hand, [Ring, Pinky]);
    assert CountAmong(hand, [Index, Middle, Ring, Pinky]) == Bit(Extended(hand, Index)) + CountAmong(hand, [Middle, Ring, Pinky]);
    assert CountAmong(hand, fs) == Bit(Extended(hand, Thumb)) + CountAmong(hand, [Index, Middle, Ring, Pinky]);
    assert [Pinky][1..] == [];
  }

  /**
   * The count for one frame: the first detected hand's count, or 0 when no
   * hand was detected (the detector is configured with `numHands: 1`).
   */
  function FrameFingers(hands: seq<Hand>): (n: nat)
    requires |hands| > 0 ==> WellFormed(hands[0])
    ensures n <= 5
    ensures |hands| == 0 ==> n == 0
    ensures |hands| > 0 ==> n == |ExtendedFingers(hands[0])|
  {
    if |hands| > 0 then CountFingers(hands[0]) else 0
  }

  /**
   * The squared test agrees with the component's `Math.hypot` comparison
   * `distTip > distPip * 1.1` whenever the two distances are the
   * non-negative roots of the squared distances.
   */
  lemma {:induction false} SquaredTestMatchesDistanceTest(hand: Hand, tip: nat, pip: nat, distTip: real, distPip: real)
    requires tip < |hand| && pip < |hand| && Wrist < |hand|
    requires distTip >= 0.0 && distPip >= 0.0
    requires distTip * distTip == SquaredDistance(hand[tip], hand[Wrist])
    requires distPip * distPip == SquaredDistance(hand[pip], hand[Wrist])
    ensures IsFingerExtended(hand, tip, pip) <==> distTip > distPip * 1.1
  {
    var b := distPip * 1.1;
    assert b * b == 1.21 * (distPip * distPip);
    if distTip > b {
      SquareStrictlyMonotone(b, distTip);
    } else if distTip < b {
      SquareStrictlyMonotone(distTip, b);
    }
  }

  lemma ProductOfPositives(a: real, b: real)
    requires a > 0.0 && b > 0.0
    ensures a * b > 0.0
  {
  }

  lemma SquareStrictlyMonotone(lo: real, hi: real)
    requires 0.0 <= lo < hi
    ensures lo * lo < hi * hi
  {
    assert hi * hi - lo * lo == (hi - lo) * (hi + lo);
    ProductOfPositives(hi - lo, hi + lo);
  }
}
