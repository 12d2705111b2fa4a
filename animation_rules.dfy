/** The value-level rules of the animation engine: the animation data read from JSON, which
    frames a direction selects, the per-direction draw order, the sprite sizes and the key-frame
    schedule a part's timeline is built from. */
module AnimationRules {
  import opened Common

  /** One frame of an action: where the sprite is drawn, for how long, which numbered sprite
      it shows. `depth` and `broadcastMessage` are read from JSON but never used to draw. */
  datatype Frame = Frame(offsetX: int, offsetY: int, duration: real, targetFrame: int,
                         depth: int, broadcastMessage: Option<int>)

  /** One action of one part: a frame sequence per direction, each possibly absent. */
  datatype ActionFrames = ActionFrames(east: Option<seq<Frame>>, north: Option<seq<Frame>>,
                                       south: Option<seq<Frame>>)

  /** The JSON animation data: body part -> action name -> frames. A part that is absent
      stands for a null field. */
  type AnimationLibrary = map<string, map<string, ActionFrames>>

  /** The frames an action shows facing `direction`; any direction other than north and
      east reads the south frames. */
  function SelectFrames(action: ActionFrames, direction: string): Option<seq<Frame>>
  {
    if direction == "north" then action.north
    else if direction == "east" then action.east
    else action.south
  }

  // ----- Draw order -----

  const SouthOrder: seq<string> := [
    "held_item", "sleeve_left", "base_arm_left", "tool", "tool_effect", "sleeve_right", "base_arm_right",
    "head_gear", "face_gear", "hair_front", "eyes", "hair_mid", "face", "facial_hair", "base_head",
    "waist", "feet", "legs", "base_legs", "torso", "base_chest", "back_gear", "hair_back",
    "head_gear_back", "base_effect"
  ]

  const EastOrder: seq<string> := [
    "sleeve_left", "base_arm_left", "held_item", "tool", "tool_effect", "head_gear", "face_gear",
    "hair_front", "eyes", "hair_mid", "face", "facial_hair", "base_head", "waist", "feet", "legs",
    "base_legs", "torso", "base_chest", "sleeve_right", "base_arm_right", "hair_back", "back_gear",
    "head_gear_back", "base_effect"
  ]

  const NorthOrder: seq<string> := [
    "head_gear", "hair_back", "back_gear", "sleeve_left", "base_arm_left", "sleeve_right", "base_arm_right",
    "hair_front", "hair_mid", "face_gear", "eyes", "face", "facial_hair", "base_head", "head_gear_back",
    "waist", "feet", "legs", "base_legs", "torso", "base_chest", "held_item", "tool", "tool_effect",
    "base_effect"
  ]

  /** The draw order for a direction; an unknown direction uses the south order. */
  function RenderOrderFor(direction: string): seq<string>
  {
    if direction == "north" then NorthOrder
    else if direction == "east" then EastOrder
    else SouthOrder
  }

  /** A direction that is neither north nor east is drawn as south in both respects: its
      frames and its draw order. */
  lemma UnknownDirectionActsAsSouth(action: ActionFrames, direction: string)
    requires direction != "north" && direction != "east"
    ensures SelectFrames(action, direction) == SelectFrames(action, "south") == action.south
    ensures RenderOrderFor(direction) == RenderOrderFor("south")
  {
  }

  predicate Distinct(order: seq<string>)
  {
    forall i, j | 0 <= i < j < |order| :: order[i] != order[j]
  }

  /** The view order a part ends with after the order list is applied over views reset to
      0: the last index it is listed at, or 0 when it is not listed. A lower view order is
      drawn in front. */
  function Rank(order: seq<string>, part: string): int
  {
    if order == [] then 0
    else if order[|order| - 1] == part then |order| - 1
    else Rank(order[..|order| - 1], part)
  }

  /** In a list without repetitions a part's rank is its position. */
  lemma {:induction false} RankIsPosition(order: seq<string>, i: nat)
    requires Distinct(order) && i < |order|
    ensures Rank(order, order[i]) == i
  {
    if i < |order| - 1 {
      var front := order[..|order| - 1];
      assert front[i] == order[i];
      RankIsPosition(front, i);
    }
  }

  /** A part the list does not name keeps view order 0. */
  lemma {:induction false} RankOfUnlisted(order: seq<string>, part: string)
    requires part !in order
    ensures Rank(order, part) == 0
  {
    if order != [] {
      var front := order[..|order| - 1];
      assert forall k | 0 <= k < |front| :: front[k] == order[k];
      RankOfUnlisted(front, part);
    }
  }

  /** The view orders of the given views for a list. */
  function ViewOrders(order: seq<string>, views: set<string>): (r: map<string, int>)
    ensures r.Keys == views
  {
    map p | p in views :: Rank(order, p)
  }

  /** A draw-order list names each body part exactly once, plus "held_item", which is not a
      body part and so never gets a view. */
  predicate ListsEveryPartOnce(order: seq<string>)
  {
    Distinct(order) && |order| == |BodyParts| + 1 &&
    (forall p | p in BodyPartSet :: p in order) &&
    "held_item" in order && "held_item" !in BodyPartSet
  }

  lemma HeldItemIsNoPart()
    ensures "held_item" !in BodyPartSet
  {
  }

  // The distinctness of each 25-entry literal list is proved in three slices (front half, back
  // half, across the halves) only to keep each proof obligation small; together they give
  // OrdersListEveryPartOnce below.

  /** A list of 25 is free of repetitions when its first 12 entries, its last 13 and the two
      halves against each other are. */
  lemma NoRepeatsAcrossHalves(order: seq<string>)
    requires |order| == 25
    requires forall i, j | 0 <= i < j < 12 :: order[i] != order[j]
    requires forall i, j | 12 <= i < j < 25 :: order[i] != order[j]
    requires forall i, j | 0 <= i < 12 <= j < 25 :: order[i] != order[j]
    ensures Distinct(order)
  {
  }

  lemma SouthOrderFront()
    ensures forall i, j | 0 <= i < j < 12 :: SouthOrder[i] != SouthOrder[j]
  {
  }

  lemma SouthOrderBack()
    ensures forall i, j | 12 <= i < j < 25 :: SouthOrder[i] != SouthOrder[j]
  {
  }

  lemma SouthOrderCross()
    ensures forall i, j | 0 <= i < 12 <= j < 25 :: SouthOrder[i] != SouthOrder[j]
  {
  }

  lemma SouthOrderCovers()
    ensures forall i | 0 <= i < |BodyParts| :: BodyParts[i] in SouthOrder
  {
  }

  lemma SouthOrderListsEveryPartOnce()
    ensures ListsEveryPartOnce(SouthOrder)
  {
    SouthOrderFront();
    SouthOrderBack();
    SouthOrderCross();
    SouthOrderCovers();
    NoRepeatsAcrossHalves(SouthOrder);
    HeldItemIsNoPart();
  }

  lemma EastOrderFront()
    ensures forall i, j | 0 <= i < j < 12 :: EastOrder[i] != EastOrder[j]
  {
  }

  lemma EastOrderBack()
    ensures forall i, j | 12 <= i < j < 25 :: EastOrder[i] != EastOrder[j]
  {
  }

  lemma EastOrderCross()
    ensures forall i, j | 0 <= i < 12 <= j < 25 :: EastOrder[i] != EastOrder[j]
  {
  }

  lemma EastOrderCovers()
    ensures forall i | 0 <= i < |BodyParts| :: BodyParts[i] in EastOrder
  {
  }

  lemma EastOrderListsEveryPartOnce()
    ensures ListsEveryPartOnce(EastOrder)
  {
    EastOrderFront();
    EastOrderBack();
    EastOrderCross();
    EastOrderCovers();
    NoRepeatsAcrossHalves(EastOrder);
    HeldItemIsNoPart();
  }

  lemma NorthOrderFront()
    ensures forall i, j | 0 <= i < j < 12 :: NorthOrder[i] != NorthOrder[j]
  {
  }

  lemma NorthOrderBack()
    ensures forall i, j | 12 <= i < j < 25 :: NorthOrder[i] != NorthOrder[j]
  {
  }

  lemma NorthOrderCross()
    ensures forall i, j | 0 <= i < 12 <= j < 25 :: NorthOrder[i] != NorthOrder[j]
  {
  }

  lemma NorthOrderCovers()
    ensures forall i | 0 <= i < |BodyParts| :: BodyParts[i] in NorthOrder
  {
  }

  lemma NorthOrderListsEveryPartOnce()
    ensures ListsEveryPartOnce(NorthOrder)
  {
    NorthOrderFront();
    NorthOrderBack();
    NorthOrderCross();
    NorthOrderCovers();
    NoRepeatsAcrossHalves(NorthOrder);
    HeldItemIsNoPart();
  }

  /** Every direction's list names each body part once. */
  lemma {:induction false} OrdersListEveryPartOnce(direction: string)
    ensures ListsEveryPartOnce(RenderOrderFor(direction))
  {
    if direction == "north" {
      NorthOrderListsEveryPartOnce();
    } else if direction == "east" {
      EastOrderListsEveryPartOnce();
    } else {
      SouthOrderListsEveryPartOnce();
    }
  }

  /** For every direction, the view orders put the 24 parts in a strict order with no ties:
      two different parts never share a depth, and each part sits at its position in the
      direction's list. */
  lemma {:induction false} ViewOrdersAreStrict(direction: string, p: string, q: string)
    requires p in BodyPartSet && q in BodyPartSet && p != q
    ensures ViewOrders(RenderOrderFor(direction), BodyPartSet)[p] != ViewOrders(RenderOrderFor(direction), BodyPartSet)[q]
    ensures 0 <= ViewOrders(RenderOrderFor(direction), BodyPartSet)[p] < |BodyParts| + 1
    ensures RenderOrderFor(direction)[ViewOrders(RenderOrderFor(direction), BodyPartSet)[p]] == p
  {
    var order := RenderOrderFor(direction);
    OrdersListEveryPartOnce(direction);
    var i :| 0 <= i < |order| && order[i] == p;
    var j :| 0 <= j < |order| && order[j] == q;
    RankIsPosition(order, i);
    RankIsPosition(order, j);
  }

  /** Facing south the head is drawn in front of the chest. */
  lemma {:induction false} SouthHeadBeforeChest()
    ensures Rank(SouthOrder, "base_head") < Rank(SouthOrder, "base_chest")
  {
    SouthOrderListsEveryPartOnce();
    assert SouthOrder[14] == "base_head" && SouthOrder[20] == "base_chest";
    RankIsPosition(SouthOrder, 14);
    RankIsPosition(SouthOrder, 20);
  }

  // ----- Sizes -----

  /** Java's `(int)` cast of a double. */
  function JavaIntCast(r: real): int
  {
    if r >= 0.0 then r.Floor else -((-r).Floor)
  }

  /** The cast truncates toward zero: it drops the fraction, rounding a positive value down
      and a negative one up. */
  lemma JavaIntCastTruncates(r: real)
    ensures r >= 0.0 ==> 0 <= JavaIntCast(r) && JavaIntCast(r) as real <= r < JavaIntCast(r) as real + 1.0
    ensures r < 0.0 ==> JavaIntCast(r) <= 0 && JavaIntCast(r) as real - 1.0 < r <= JavaIntCast(r) as real
  {
  }

  /** The side in pixels of a part's unscaled sprite. */
  function BaseSpriteSize(part: string): (n: int)
    ensures n == 16 || n == 32 || n == 40
  {
    if part == "base_head" || part == "eyes" || part == "face" || part == "facial_hair" then 16
    else if part == "hair_back" || part == "hair_mid" then 40
    else 32
  }

  /** A length in pixels multiplied by the scale factor and cast back to int. */
  function Scaled(length: int, scale: real): int
  {
    JavaIntCast(length as real * scale)
  }

  /** At scale 1 nothing changes; a larger scale never gives a smaller sprite; the cast
      never rounds a size up. */
  lemma {:induction false} ScaledSizeIsMonotone(part: string, s1: real, s2: real)
    requires 0.0 <= s1 <= s2
    ensures Scaled(BaseSpriteSize(part), 1.0) == BaseSpriteSize(part)
    ensures 0 <= Scaled(BaseSpriteSize(part), s1) <= Scaled(BaseSpriteSize(part), s2)
    ensures Scaled(BaseSpriteSize(part), s1) as real <= BaseSpriteSize(part) as real * s1
  {
    var b := BaseSpriteSize(part) as real;
    assert b * s1 <= b * s2;
    assert b * 1.0 == b;
  }

  /** Offsets are cast toward zero, so a negative offset is rounded up: at scale 1.5 an
      offset of -3 becomes -4, not -5, while +3 becomes +4. Sizes: the head at scale 1.5 is
      24 pixels, long hair at 0.75 is 30. */
  lemma ScalingExamples()
    ensures Scaled(-3, 1.5) == -4 && Scaled(3, 1.5) == 4
    ensures Scaled(BaseSpriteSize("base_head"), 1.5) == 24
    ensures Scaled(BaseSpriteSize("hair_back"), 0.75) == 30
  {
    assert (-3) as real * 1.5 == -4.5;
    assert 3 as real * 1.5 == 4.5;
    assert 16 as real * 1.5 == 24.0;
    assert 40 as real * 0.75 == 30.0;
  }

  // ----- Schedule -----

  /** What a key frame does when it fires: show sprite `targetFrame` of the part, shifted by
      the offsets (already scaled when the timeline was built). */
  datatype FrameAction = FrameAction(targetFrame: int, offsetX: int, offsetY: int)

  /** A key frame at `time` seconds into the cycle; the final one has no action and only
      marks where the cycle loops. */
  datatype KeyFrame = KeyFrame(time: real, action: Option<FrameAction>)

  /** The sum of the frames' durations. */
  function TotalDuration(frames: seq<Frame>): real
  {
    if frames == [] then 0.0 else TotalDuration(frames[..|frames| - 1]) + frames[|frames| - 1].duration
  }

  /** When frame `i` starts: the sum of the preceding frames' durations, each divided by the
      playback speed. */
  function StartTime(frames: seq<Frame>, i: nat, speed: real): real
    requires i <= |frames| && speed > 0.0
  {
    if i == 0 then 0.0 else StartTime(frames, i - 1, speed) + frames[i - 1].duration / speed
  }

  /** The action of a frame's key frame, with offsets scaled by `scale`. */
  function ActionOf(frame: Frame, scale: real): FrameAction
  {
    FrameAction(frame.targetFrame, Scaled(frame.offsetX, scale), Scaled(frame.offsetY, scale))
  }

  /** A part's timeline: one key frame per frame at its start time, then the loop marker. */
  function ScheduleOf(frames: seq<Frame>, scale: real, speed: real): (kfs: seq<KeyFrame>)
    requires speed > 0.0
  {
    seq(|frames|, i requires 0 <= i < |frames| => KeyFrame(StartTime(frames, i, speed), Some(ActionOf(frames[i], scale))))
      + [KeyFrame(StartTime(frames, |frames|, speed), None)]
  }

  /** Dividing each duration by the speed is dividing their sum by it. */
  lemma {:induction false} StartTimeIsScaledSum(frames: seq<Frame>, i: nat, speed: real)
    requires i <= |frames| && speed > 0.0
    ensures StartTime(frames, i, speed) == TotalDuration(frames[..i]) / speed
  {
    if i > 0 {
      StartTimeIsScaledSum(frames, i - 1, speed);
      assert frames[..i][..i - 1] == frames[..i - 1];
      var s := TotalDuration(frames[..i - 1]);
      var d := frames[i - 1].duration;
      assert s / speed + d / speed == (s + d) / speed;
    }
  }

  /** With non-negative durations the start times never decrease. */
  lemma {:induction false} StartTimesIncrease(frames: seq<Frame>, i: nat, j: nat, speed: real)
    requires i <= j <= |frames| && speed > 0.0
    requires forall k | 0 <= k < |frames| :: frames[k].duration >= 0.0
    ensures 0.0 <= StartTime(frames, i, speed) <= StartTime(frames, j, speed)
  {
    if j > i {
      StartTimesIncrease(frames, i, j - 1, speed);
      assert frames[j - 1].duration / speed >= 0.0;
    } else if i > 0 {
      StartTimesIncrease(frames, i - 1, i, speed);
    }
  }

  /** The schedule's shape: it opens at time 0 with the first frame, shows frame `i` at its
      start time with that frame's sprite, its times never decrease, and it loops after the
      total duration divided by the speed. */
  lemma {:induction false} ScheduleShape(frames: seq<Frame>, scale: real, speed: real, i: nat, j: nat)
    requires speed > 0.0 && |frames| > 0
    requires i <= j <= |frames|
    requires forall k | 0 <= k < |frames| :: frames[k].duration >= 0.0
    ensures |ScheduleOf(frames, scale, speed)| == |frames| + 1
    ensures ScheduleOf(frames, scale, speed)[0].time == 0.0
    ensures ScheduleOf(frames, scale, speed)[0].action == Some(ActionOf(frames[0], scale))
    ensures i < |frames| ==> ScheduleOf(frames, scale, speed)[i].action.Some? &&
                             ScheduleOf(frames, scale, speed)[i].action.value.targetFrame == frames[i].targetFrame
    ensures ScheduleOf(frames, scale, speed)[i].time <= ScheduleOf(frames, scale, speed)[j].time
    ensures ScheduleOf(frames, scale, speed)[|frames|] == KeyFrame(TotalDuration(frames) / speed, None)
  {
    StartTimesIncrease(frames, i, j, speed);
    StartTimeIsScaledSum(frames, |frames|, speed);
    assert frames[..|frames|] == frames;
  }

  /** Doubling the speed halves every key frame's time. */
  lemma {:induction false} ScheduleAtDoubleSpeed(frames: seq<Frame>, scale: real, speed: real, i: nat)
    requires speed > 0.0 && i <= |frames|
    ensures ScheduleOf(frames, scale, 2.0 * speed)[i].time * 2.0 == ScheduleOf(frames, scale, speed)[i].time
  {
    StartTimeIsScaledSum(frames, i, speed);
    StartTimeIsScaledSum(frames, i, 2.0 * speed);
    HalvedAtDoubleRate(TotalDuration(frames[..i]), speed);
  }

  lemma HalvedAtDoubleRate(s: real, speed: real)
    requires speed > 0.0
    ensures s / (2.0 * speed) * 2.0 == s / speed
  {
  }

  /** The timeline a part gets for an action and direction, if any: none when the part has
      no action table, the action is missing, or the direction has no frames. */
  function TimelineFor(library: AnimationLibrary, part: string, action: string, direction: string,
                       scale: real, speed: real): Option<seq<KeyFrame>>
    requires speed > 0.0
  {
    if part !in library || action !in library[part] then None
    else
      var frames := SelectFrames(library[part][action], direction);
      if frames.None? || frames.value == [] then None
      else Some(ScheduleOf(frames.value, scale, speed))
  }

  /** A part gets a timeline exactly when its action table has frames for the action in the
      direction, and that timeline is the schedule of those frames. */
  lemma TimelineForIsSchedule(library: AnimationLibrary, part: string, action: string, direction: string,
                              scale: real, speed: real)
    requires speed > 0.0
    ensures TimelineFor(library, part, action, direction, scale, speed).Some? <==>
      part in library && action in library[part] &&
      SelectFrames(library[part][action], direction).Some? &&
      |SelectFrames(library[part][action], direction).value| > 0
    ensures TimelineFor(library, part, action, direction, scale, speed).Some? ==>
      TimelineFor(library, part, action, direction, scale, speed).value ==
        ScheduleOf(SelectFrames(library[part][action], direction).value, scale, speed)
  {
  }
}
