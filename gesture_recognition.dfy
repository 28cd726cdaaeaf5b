/**
 * Finger states from hand landmarks, and the gesture named by a vector of
 * finger states. Landmark coordinates are abstracted to integers: only their
 * order matters.
 */
module GestureRecognition {

  /** One hand landmark; smaller `y` is higher in the image. */
  datatype Point = Point(x: int, y: int)

  /** Landmarks of the tips of the index, middle, ring and little fingers. */
  const FingerTips: seq<nat> := [8, 12, 16, 20]

  /** Landmarks of the PIP joints of the same fingers. */
  const FingerPips: seq<nat> := [6, 10, 14, 18]

  /** Thumb tip and thumb IP joint. */
  const ThumbTip: nat := 4
  const ThumbIp: nat := 3

  /**
   * Whether finger `k` (0 thumb, 1 index, 2 middle, 3 ring, 4 little) counts
   * as extended. The thumb is judged horizontally, to the left of its IP
   * joint for a hand labelled exactly "Right" and to the right of it for any
   * other label; the others are extended when the tip is strictly above the
   * PIP joint.
   */
  predicate Extended(landmarks: seq<Point>, handedness: string, k: nat)
    requires |landmarks| >= 21 && k < 5
  {
    if k == 0 then
      if handedness == "Right" then landmarks[ThumbTip].x < landmarks[ThumbIp].x
      else landmarks[ThumbTip].x > landmarks[ThumbIp].x
    else landmarks[FingerTips[k - 1]].y < landmarks[FingerPips[k - 1]].y
  }

  /**
   * `count_fingers`: the thumb's state, then one state per tip/PIP pair,
   * appended in order.
   */
  method CountFingers(landmarks: seq<Point>, handedness: string) returns (fingers: seq<bool>)
    requires |landmarks| >= 21
    ensures |fingers| == 5
    ensures forall k :: 0 <= k < 5 ==> fingers[k] == Extended(landmarks, handedness, k)
  {
    fingers := [];
    if handedness == "Right" {
      fingers := fingers + [landmarks[ThumbTip].x < landmarks[ThumbIp].x];
    } else {
      fingers := fingers + [landmarks[ThumbTip].x > landmarks[ThumbIp].x];
    }
    var i := 0;
    while i < |FingerTips|
      invariant 0 <= i <= |FingerTips|
      invariant |fingers| == i + 1
      invariant forall k :: 0 <= k <= i ==> fingers[k] == Extended(landmarks, handedness, k)
    {
      fingers := fingers + [landmarks[FingerTips[i]].y < landmarks[FingerPips[i]].y];
      i := i + 1;
    }
  }

  /** A finger whose tip is level with its PIP joint counts as folded, and so does a level thumb. */
  lemma LevelMeansFolded(landmarks: seq<Point>, handedness: string, k: nat)
    requires |landmarks| >= 21 && k < 5
    requires k == 0 ==> landmarks[ThumbTip].x == landmarks[ThumbIp].x
    requires k > 0 ==> landmarks[FingerTips[k - 1]].y == landmarks[FingerPips[k - 1]].y
    ensures !Extended(landmarks, handedness, k)
  {
  }

  /** The landmarks mirrored left to right. */
  function Mirror(landmarks: seq<Point>): (m: seq<Point>)
    ensures |m| == |landmarks|
    ensures forall i :: 0 <= i < |m| ==> m[i] == Point(-landmarks[i].x, landmarks[i].y)
  {
    seq(|landmarks|, i requires 0 <= i < |landmarks| => Point(-landmarks[i].x, landmarks[i].y))
  }

  /**
   * The handedness label only flips the thumb test: a hand labelled "Right"
   * has the same finger states as its mirror image labelled otherwise.
   */
  lemma HandednessIsMirroring(landmarks: seq<Point>, other: string, k: nat)
    requires |landmarks| >= 21 && k < 5 && other != "Right"
    ensures Extended(landmarks, "Right", k) == Extended(Mirror(landmarks), other, k)
  {
  }

  /** The gestures `recognize_gesture` names. */
  datatype Gesture = Fist | ThumbsUp | Pointing | PeaceSign | OpenHand | RockOn | Fingers(count: nat)

  /** `sum(fingers)`: how many entries are `True`. */
  function CountUp(fingers: seq<bool>): (n: nat)
    ensures n <= |fingers|
  {
    if fingers == [] then 0 else (if fingers[0] then 1 else 0) + CountUp(fingers[1..])
  }

  /** The ordered rule table of `recognize_gesture`: the first rule that applies wins. */
  function Classify(fingers: seq<bool>): (g: Gesture)
    ensures g.Fingers? ==> g.count == CountUp(fingers) && 1 <= g.count <= |fingers|
  {
    var total := CountUp(fingers);
    if total == 0 then Fist
    else if fingers == [true, false, false, false, false] then ThumbsUp
    else if fingers == [false, true, false, false, false] then Pointing
    else if fingers == [false, true, true, false, false] then PeaceSign
    else if total == 5 then OpenHand
    else if fingers == [false, true, false, false, true] then RockOn
    else Fingers(total)
  }

  /** The decimal digits of `n`, as `str(n)` writes them. */
  function Decimal(n: nat): (s: string)
    ensures |s| > 0
    ensures n < 10 ==> s == [('0' as int + n) as char]
  {
    if n < 10 then [('0' as int + n) as char] else Decimal(n / 10) + Decimal(n % 10)
  }

  /** The text shown for a gesture. */
  function Label(g: Gesture): string {
    match g
    case Fist => "Fist"
    case ThumbsUp => "Thumbs Up"
    case Pointing => "Pointing"
    case PeaceSign => "Peace Sign"
    case OpenHand => "Open Hand"
    case RockOn => "Rock On"
    case Fingers(n) => Decimal(n) + " Fingers"
  }

  /** `recognize_gesture`. */
  function RecognizeGesture(fingers: seq<bool>): string {
    Label(Classify(fingers))
  }

  /** No finger is up exactly when every entry is `False`. */
  lemma {:induction false} CountUpZero(fingers: seq<bool>)
    ensures CountUp(fingers) == 0 <==> forall i :: 0 <= i < |fingers| ==> !fingers[i]
  {
    if fingers != [] {
      CountUpZero(fingers[1..]);
      assert forall i :: 1 <= i < |fingers| ==> fingers[i] == fingers[1..][i - 1];
    }
  }

  /** Every finger is up exactly when every entry is `True`. */
  lemma {:induction false} CountUpAll(fingers: seq<bool>)
    ensures CountUp(fingers) == |fingers| <==> forall i :: 0 <= i < |fingers| ==> fingers[i]
  {
    if fingers != [] {
      CountUpAll(fingers[1..]);
      assert forall i :: 1 <= i < |fingers| ==> fingers[i] == fingers[1..][i - 1];
    }
  }

  const AllDown: seq<bool> := [false, false, false, false, false]
  const AllUp: seq<bool> := [true, true, true, true, true]

  /** For a five-finger vector: "Fist" for all down and "Open Hand" for all up, and only for those. */
  lemma FistAndOpenHand(fingers: seq<bool>)
    requires |fingers| == 5
    ensures Classify(fingers) == Fist <==> fingers == AllDown
    ensures Classify(fingers) == OpenHand <==> fingers == AllUp
  {
    CountUpZero(fingers);
    CountUpAll(fingers);
    if forall i :: 0 <= i < 5 ==> !fingers[i] {
      assert fingers == AllDown;
    }
    if forall i :: 0 <= i < 5 ==> fingers[i] {
      assert fingers == AllUp;
    }
  }

  /** Each exact-match rule fires for its own vector and for no other. */
  lemma ExactRules(fingers: seq<bool>)
    requires |fingers| == 5
    ensures Classify(fingers) == ThumbsUp <==> fingers == [true, false, false, false, false]
    ensures Classify(fingers) == Pointing <==> fingers == [false, true, false, false, false]
    ensures Classify(fingers) == PeaceSign <==> fingers == [false, true, true, false, false]
    ensures Classify(fingers) == RockOn <==> fingers == [false, true, false, false, true]
  {
    CountUpZero(fingers);
    assert CountUp([false, true, false, false, true]) == 2;
  }

  /**
   * Every five-finger vector not named by a rule falls back to "n Fingers",
   * with n its number of raised fingers, between 1 and 4.
   */
  lemma FallbackCountsFingers(fingers: seq<bool>)
    requires |fingers| == 5
    ensures Classify(fingers).Fingers? <==>
              fingers !in {AllDown, AllUp, [true, false, false, false, false], [false, true, false, false, false],
                           [false, true, true, false, false], [false, true, false, false, true]}
    ensures Classify(fingers).Fingers? ==>
              Classify(fingers).count == CountUp(fingers) && 1 <= CountUp(fingers) <= 4
  {
    FistAndOpenHand(fingers);
    ExactRules(fingers);
  }

  /** The fallback label for a count below ten is the digit, a space and "Fingers". */
  lemma FallbackLabel(fingers: seq<bool>)
    requires |fingers| == 5 && Classify(fingers).Fingers?
    ensures |RecognizeGesture(fingers)| == 9
    ensures RecognizeGesture(fingers) == [('0' as int + CountUp(fingers)) as char] + " Fingers"
  {
    FallbackCountsFingers(fingers);
  }

  /** Different gestures of a five-finger vector never share a label. */
  lemma LabelsDistinct(f: seq<bool>, g: seq<bool>)
    requires |f| == 5 && |g| == 5
    ensures RecognizeGesture(f) == RecognizeGesture(g) <==> Classify(f) == Classify(g)
  {
    var a, b := Classify(f), Classify(g);
    if a.Fingers? { FallbackCountsFingers(f); }
    if b.Fingers? { FallbackCountsFingers(g); }
    if Label(a) == Label(b) {
      var x, y := Label(a)[0], Label(b)[0];
      assert x == y;
      assert a.Fingers? <==> '0' <= x <= '9';
      assert b.Fingers? <==> '0' <= y <= '9';
    }
  }

  /** The all-down, thumb-only and all-up vectors the rule table names. */
  lemma RecognizeExamples()
    ensures RecognizeGesture(AllDown) == "Fist"
    ensures RecognizeGesture([true, false, false, false, false]) == "Thumbs Up"
    ensures RecognizeGesture(AllUp) == "Open Hand"
  {
    assert CountUp(AllUp) == 5;
  }

  /** Two vectors whose count decides the rule: "Rock On" and the "3 Fingers" fallback. */
  lemma RecognizeCountedExamples()
    ensures RecognizeGesture([false, true, true, true, false]) == "3 Fingers"
    ensures RecognizeGesture([false, true, false, false, true]) == "Rock On"
  {
    assert CountUp([false, true, true, true, false]) == 3;
    assert CountUp([false, true, false, false, true]) == 2;
  }
}
