/**
 * The finger-state extractor of gesture-control/main.py: `count_fingers`
 * compares five tip landmarks with a joint of the same finger and counts
 * the fingers it finds extended.
 */
module HandFingers {

  /** One hand landmark in normalised image coordinates (z is never read). */
  datatype Landmark = Landmark(x: real, y: real)

  datatype Finger = Thumb | Index | Middle | Ring | Pinky

  /** The hand topology indexes 21 landmarks; the highest index read is 20. */
  const HandSize: nat := 21

  /** The five fingers in the order the source tests them. */
  const AllFingers: seq<Finger> := [Thumb, Index, Middle, Ring, Pinky]

  /** The landmark index of each finger's tip. */
  function Tip(f: Finger): (i: nat)
    ensures i < HandSize
  {
    match f
    case Thumb => 4
    case Index => 8
    case Middle => 12
    case Ring => 16
    case Pinky => 20
  }

  /** The joint each tip is compared with: the thumb's IP joint, the other fingers' PIP joints. */
  function Joint(f: Finger): (i: nat)
    ensures i < Tip(f)
  {
    match f
    case Thumb => 3
    case Index => 6
    case Middle => 10
    case Ring => 14
    case Pinky => 18
  }

  /**
   * The extension test for one finger. The thumb is tested along x in both
   * directions (one branch "for the right hand", one "for the left hand");
   * the other fingers count when the tip is higher on the image (smaller y)
   * than the joint.
   */
  predicate IsExtended(hand: seq<Landmark>, f: Finger)
    requires |hand| >= HandSize
    ensures f == Thumb ==> (IsExtended(hand, f) <==> hand[Tip(f)].x != hand[Joint(f)].x)
    ensures IsExtended(hand, f) ==> hand[Tip(f)] != hand[Joint(f)]
  {
    if f == Thumb then
      hand[Tip(f)].x < hand[Joint(f)].x || hand[Tip(f)].x > hand[Joint(f)].x
    else
      hand[Tip(f)].y < hand[Joint(f)].y
  }

  /** The fingers of `fs` that are extended, in the order of `fs`. */
  function ExtendedAmong(hand: seq<Landmark>, fs: seq<Finger>): (r: seq<Finger>)
    requires |hand| >= HandSize
    ensures |r| <= |fs|
    ensures forall f :: f in r <==> f in fs && IsExtended(hand, f)
  {
    if fs == [] then []
    else (if IsExtended(hand, fs[0]) then [fs[0]] else []) + ExtendedAmong(hand, fs[1..])
  }

  /** The extended fingers of a hand, each listed once, thumb first. */
  function ExtendedFingers(hand: seq<Landmark>): seq<Finger>
    requires |hand| >= HandSize
  {
    ExtendedAmong(hand, AllFingers)
  }

  /** One for a finger that is extended, zero otherwise. */
  function Point(hand: seq<Landmark>, f: Finger): nat
    requires |hand| >= HandSize
  {
    if IsExtended(hand, f) then 1 else 0
  }

  /** The extended fingers, counted finger by finger. */
  lemma ExtendedCount(hand: seq<Landmark>)
    requires |hand| >= HandSize
    ensures |ExtendedFingers(hand)|
      == Point(hand, Thumb) + Point(hand, Index) + Point(hand, Middle) + Point(hand, Ring) + Point(hand, Pinky)
  {
    assert |ExtendedAmong(hand, [Pinky])| == Point(hand, Pinky) by {
      assert [Pinky][1..] == [];
    }
    assert |ExtendedAmong(hand, [Ring, Pinky])| == Point(hand, Ring) + Point(hand, Pinky) by {
      assert [Ring, Pinky][1..] == [Pinky];
    }
    assert |ExtendedAmong(hand, [Middle, Ring, Pinky])| == Point(hand, Middle) + Point(hand, Ring) + Point(hand, Pinky) by {
      assert [Middle, Ring, Pinky][1..] == [Ring, Pinky];
    }
    assert |ExtendedAmong(hand, [Index, Middle, Ring, Pinky])|
      == Point(hand, Index) + Point(hand, Middle) + Point(hand, Ring) + Point(hand, Pinky) by {
      assert [Index, Middle, Ring, Pinky][1..] == [Middle, Ring, Pinky];
    }
    assert AllFingers[1..] == [Index, Middle, Ring, Pinky];
  }

  /**
   * `count_fingers`: one point for the thumb, then one each for index,
   * middle, ring and pinky. The count is the number of extended fingers,
   * so it lies in [0, 5]; the thumb's two branches together amount to
   * "the tip's x differs from the joint's x".
   */
  function CountFingers(hand: seq<Landmark>): (n: nat)
    requires |hand| >= HandSize
    ensures n <= 5
    ensures n == |ExtendedFingers(hand)|
    ensures Thumb in ExtendedFingers(hand) <==> hand[4].x != hand[3].x
    ensures Index in ExtendedFingers(hand) <==> hand[8].y < hand[6].y
    ensures Middle in ExtendedFingers(hand) <==> hand[12].y < hand[10].y
    ensures Ring in ExtendedFingers(hand) <==> hand[16].y < hand[14].y
    ensures Pinky in ExtendedFingers(hand) <==> hand[20].y < hand[18].y
  {
    var thumb := if hand[4].x < hand[3].x then 1 else if hand[4].x > hand[3].x then 1 else 0;
    var index := if hand[8].y < hand[6].y then 1 else 0;
    var middle := if hand[12].y < hand[10].y then 1 else 0;
    var ring := if hand[16].y < hand[14].y then 1 else 0;
    var pinky := if hand[20].y < hand[18].y then 1 else 0;
    ExtendedCount(hand);
    thumb + index + middle + ring + pinky
  }
}
