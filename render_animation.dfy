/** The animation engine: one timeline per animated body part, the views the key frames
    draw into, and the play / pause / restart state machine around them. */
module Render {
  import opened Common
  import opened SpriteLoading
  import opened AnimationRules

  /** A timeline is either playing or paused; a stopped timeline is dropped from the table. */
  datatype PlayStatus = Running | Paused

  /** A part's timeline: its key frames (cycled indefinitely) and whether it plays. */
  datatype Timeline = Timeline(keyFrames: seq<KeyFrame>, status: PlayStatus)

  /** What a view shows: the sprite's URL and the side it was loaded at, `None` meaning the
      image's own size. */
  datatype SpriteImage = SpriteImage(url: string, size: Option<int>)

  /** One call of the frame-update listener. */
  datatype FrameEvent = FrameEvent(part: string, frame: int)

  /** The status every timeline has while the controller is (not) paused. */
  function StatusFor(paused: bool): PlayStatus
  {
    if paused then Paused else Running
  }

  /** Every timeline of the table put into status `st`. */
  function WithStatus(ts: map<string, Timeline>, st: PlayStatus): map<string, Timeline>
  {
    map p | p in ts :: ts[p].(status := st)
  }

  /** Every timeline of the table has status `st`. */
  predicate AllHave(ts: map<string, Timeline>, st: PlayStatus)
  {
    forall p | p in ts :: ts[p].status == st
  }

  /** Setting a status twice is setting the last one; setting the status every timeline
      already has changes nothing. So toggling pause twice restores the table. */
  lemma WithStatusTwice(ts: map<string, Timeline>, a: PlayStatus, b: PlayStatus)
    ensures WithStatus(WithStatus(ts, a), b) == WithStatus(ts, b)
    ensures AllHave(WithStatus(ts, a), a)
    ensures AllHave(ts, b) ==> WithStatus(ts, b) == ts
  {
    if AllHave(ts, b) {
      assert forall p | p in ts :: ts[p].(status := b) == ts[p];
    }
  }

  /** The timelines table after parts are started one by one over `ts`: a body part whose
      action table has frames for the action and direction gets a new running timeline,
      replacing any earlier one; other parts are skipped. */
  function Started(ts: map<string, Timeline>, parts: seq<string>, views: set<string>, library: AnimationLibrary,
                   action: string, direction: string, scale: real, speed: real): map<string, Timeline>
    requires speed > 0.0
  {
    if parts == [] then ts
    else
      var before := Started(ts, parts[..|parts| - 1], views, library, action, direction, scale, speed);
      var p := parts[|parts| - 1];
      var t := TimelineFor(library, p, action, direction, scale, speed);
      if p in views && t.Some? then before[p := Timeline(t.value, Running)] else before
  }

  /** The parts started over `ts` are exactly the parts among `parts` with a view and frames;
      each gets its schedule, running; every other entry of `ts` is kept. */
  lemma {:induction false} StartedEntries(ts: map<string, Timeline>, parts: seq<string>, views: set<string>,
                                          library: AnimationLibrary,
                                          action: string, direction: string, scale: real, speed: real, p: string)
    requires speed > 0.0
    ensures p in parts && p in views && TimelineFor(library, p, action, direction, scale, speed).Some? ==>
      p in Started(ts, parts, views, library, action, direction, scale, speed) &&
      Started(ts, parts, views, library, action, direction, scale, speed)[p] ==
        Timeline(TimelineFor(library, p, action, direction, scale, speed).value, Running)
    ensures !(p in parts && p in views && TimelineFor(library, p, action, direction, scale, speed).Some?) ==>
      (p in Started(ts, parts, views, library, action, direction, scale, speed) <==> p in ts) &&
      (p in ts ==> Started(ts, parts, views, library, action, direction, scale, speed)[p] == ts[p])
  {
    if parts != [] {
      var front := parts[..|parts| - 1];
      StartedEntries(ts, front, views, library, action, direction, scale, speed, p);
      assert p in parts <==> p in front || p == parts[|parts| - 1];
    }
  }

  /** Starting parts over running timelines leaves only running timelines. */
  lemma {:induction false} StartedRunning(ts: map<string, Timeline>, parts: seq<string>, views: set<string>,
                                          library: AnimationLibrary, action: string, direction: string,
                                          scale: real, speed: real)
    requires speed > 0.0 && AllHave(ts, Running)
    ensures AllHave(Started(ts, parts, views, library, action, direction, scale, speed), Running)
  {
    if parts != [] {
      StartedRunning(ts, parts[..|parts| - 1], views, library, action, direction, scale, speed);
    }
  }

  /** A map with every key sent to `v`. */
  method ResetAll<V>(m: map<string, V>, v: V) returns (r: map<string, V>)
    ensures r == map p | p in m :: v
  {
    r := m;
    var rest := m.Keys;
    while rest != {}
      invariant rest <= m.Keys && r.Keys == m.Keys
      invariant forall p | p in m :: r[p] == if p in rest then m[p] else v
      decreases rest
    {
      var p :| p in rest;
      r := r[p := v];
      rest := rest - {p};
    }
  }

  /** Pausing or playing every timeline of the table. */
  method SetStatus(ts: map<string, Timeline>, st: PlayStatus) returns (r: map<string, Timeline>)
    ensures r == WithStatus(ts, st)
  {
    r := ts;
    var rest := ts.Keys;
    while rest != {}
      invariant rest <= ts.Keys && r.Keys == ts.Keys
      invariant forall p | p in ts :: r[p] == if p in rest then ts[p] else ts[p].(status := st)
      decreases rest
    {
      var p :| p in rest;
      r := r[p := ts[p].(status := st)];
      rest := rest - {p};
    }
  }

  /** Builds a part's key frames, accumulating the elapsed time frame by frame. */
  method BuildSchedule(frames: seq<Frame>, scale: real, speed: real) returns (keyFrames: seq<KeyFrame>)
    requires speed > 0.0
    ensures keyFrames == ScheduleOf(frames, scale, speed)
  {
    keyFrames := [];
    var totalDuration := 0.0;
    for i := 0 to |frames|
      invariant totalDuration == StartTime(frames, i, speed)
      invariant |keyFrames| == i
      invariant forall k | 0 <= k < i ::
        keyFrames[k] == KeyFrame(StartTime(frames, k, speed), Some(ActionOf(frames[k], scale)))
    {
      var action := FrameAction(frames[i].targetFrame, Scaled(frames[i].offsetX, scale), Scaled(frames[i].offsetY, scale));
      keyFrames := keyFrames + [KeyFrame(totalDuration, Some(action))];
      totalDuration := totalDuration + frames[i].duration / speed;
    }
    ScheduleFromEntries(frames, scale, speed, keyFrames);
    keyFrames := keyFrames + [KeyFrame(totalDuration, None)];
  }

  /** One key frame per frame at its start time, followed by the marker, is the schedule. */
  lemma ScheduleFromEntries(frames: seq<Frame>, scale: real, speed: real, keyFrames: seq<KeyFrame>)
    requires speed > 0.0 && |keyFrames| == |frames|
    requires forall k | 0 <= k < |frames| ::
      keyFrames[k] == KeyFrame(StartTime(frames, k, speed), Some(ActionOf(frames[k], scale)))
    ensures keyFrames + [KeyFrame(StartTime(frames, |frames|, speed), None)] == ScheduleOf(frames, scale, speed)
  {
  }

  /** The view orders after the list is applied, one index at a time, over views reset to 0. */
  lemma {:induction false} ViewOrdersStep(order: seq<string>, views: set<string>, i: nat)
    requires i < |order|
    ensures ViewOrders(order[..i + 1], views) ==
      if order[i] in views then ViewOrders(order[..i], views)[order[i] := i] else ViewOrders(order[..i], views)
  {
    assert order[..i + 1][..i] == order[..i];
    assert order[..i + 1][i] == order[i];
  }

  /** Every view empty. */
  function NoImages(views: set<string>): map<string, Option<SpriteImage>>
  {
    map p | p in views :: None
  }

  /** The image map of a fresh renderer: one empty view per listed part. */
  method NoImagesFor(names: seq<string>) returns (views: map<string, Option<SpriteImage>>)
    ensures views == NoImages(set p | p in names)
  {
    views := map[];
    for i := 0 to |names|
      invariant views.Keys == set p | p in names[..i]
      invariant forall p | p in views :: views[p] == None
    {
      assert names[..i + 1] == names[..i] + [names[i]];
      views := views[names[i] := None];
    }
    assert names[..|names|] == names;
  }

  /** The frame recorded for a part, 1 when none is. */
  function FrameOf(frames: map<string, int>, part: string): int
  {
    if part in frames then frames[part] else 1
  }

  /** The catalogue's sprite for the frame recorded for a part. */
  function SpriteOf(loader: SpriteLoader, frames: map<string, int>, part: string): Option<string>
    reads loader
  {
    loader.GetSpritePath(part, FrameOf(frames, part))
  }

  /** The views of `parts` redrawn, at the image's own size, with the sprite of their
      recorded frame, where there is one; every other view unchanged. */
  method Redraw(images: map<string, Option<SpriteImage>>, parts: set<string>, loader: SpriteLoader,
                frames: map<string, int>) returns (drawn: map<string, Option<SpriteImage>>)
    ensures drawn.Keys == images.Keys
    ensures forall p | p in drawn ::
      drawn[p] == if p in parts && SpriteOf(loader, frames, p).Some? then Some(SpriteImage(SpriteOf(loader, frames, p).value, None))
                  else images[p]
  {
    drawn := images;
    var rest := parts;
    while rest != {}
      invariant rest <= parts && drawn.Keys == images.Keys
      invariant forall p | p in drawn ::
        drawn[p] == if p in parts && p !in rest && SpriteOf(loader, frames, p).Some? then
                      Some(SpriteImage(SpriteOf(loader, frames, p).value, None))
                    else images[p]
      decreases rest
    {
      var partName :| partName in rest;
      var imagePath := loader.GetSpritePath(partName, FrameOf(frames, partName));
      if imagePath.Some? && partName in drawn {
        drawn := drawn[partName := Some(SpriteImage(imagePath.value, None))];
      }
      rest := rest - {partName};
    }
  }

  class RenderAnimation {
    /** The animation data the engine plays. */
    const library: AnimationLibrary
    /** The sprite catalogue of the current character. */
    const spriteLoader: SpriteLoader
    /** The parts that have a view: fixed when the engine is built. */
    const viewNames: set<string>
    /** Whether a frame-update listener is registered, and the calls it has received. */
    var hasListener: bool
    var notifications: seq<FrameEvent>
    var isPaused: bool
    var scale: real
    var speed: real
    var currentAction: string
    var currentDirection: string
    /** Per body part view: the image shown, its translation, its view order. */
    var images: map<string, Option<SpriteImage>>
    var offsets: map<string, (int, int)>
    var viewOrders: map<string, int>
    /** body part -> its running or paused timeline */
    var timelines: map<string, Timeline>
    /** body part -> the frame its last key frame showed */
    var currentFrameMap: map<string, int>

    /** One image, offset and order per view, timelines and recorded frames only for parts
        with a view, and a positive speed. */
    predicate Shaped()
      reads this
    {
      images.Keys == viewNames && offsets.Keys == viewNames && viewOrders.Keys == viewNames &&
      timelines.Keys <= viewNames && currentFrameMap.Keys <= viewNames && speed > 0.0
    }

    /** Between operations every timeline plays exactly when the controller is not paused. */
    predicate Valid()
      reads this
    {
      Shaped() && AllHave(timelines, StatusFor(isPaused))
    }

    twostate predicate ViewsKept()
      reads this
    {
      images == old(images) && offsets == old(offsets) && viewOrders == old(viewOrders)
    }

    twostate predicate SettingsKept()
      reads this
    {
      isPaused == old(isPaused) && scale == old(scale) && speed == old(speed) &&
      currentAction == old(currentAction) && currentDirection == old(currentDirection)
    }

    twostate predicate FramesKept()
      reads this
    {
      currentFrameMap == old(currentFrameMap) && hasListener == old(hasListener) &&
      notifications == old(notifications)
    }

    /** The timelines the current action and direction give the parts that have sprites. */
    function Planned(): map<string, Timeline>
      reads this, spriteLoader
      requires speed > 0.0
    {
      Started(map[], spriteLoader.GetAvailableBodyParts(), viewNames, library, currentAction, currentDirection, scale, speed)
    }

    /** The frame a part is on: the last one recorded, 1 when none is. */
    function CurrentFrame(part: string): int
      reads this
    {
      FrameOf(currentFrameMap, part)
    }

    /** The sprite of the frame a part is on, if the catalogue has one. */
    function FrameSprite(part: string): Option<string>
      reads this, spriteLoader
    {
      SpriteOf(spriteLoader, currentFrameMap, part)
    }

    constructor (library: AnimationLibrary)
      ensures Valid() && this.library == library && viewNames == BodyPartSet
      ensures fresh(spriteLoader) && spriteLoader.spritePaths == map[]
      ensures images == NoImages(viewNames) && viewOrders == map p | p in viewNames :: 0
      ensures offsets == map p | p in viewNames :: (0, 0)
      ensures timelines == map[] && currentFrameMap == map[]
      ensures !isPaused && scale == 1.0 && speed == 1.0
      ensures currentAction == "idle" && currentDirection == "south"
      ensures !hasListener && notifications == []
    {
      var views := NoImagesFor(BodyParts);
      this.library := library;
      viewNames := BodyPartSet;
      spriteLoader := new SpriteLoader();
      hasListener := false;
      notifications := [];
      isPaused := false;
      scale := 1.0;
      speed := 1.0;
      currentAction := "idle";
      currentDirection := "south";
      images := views;
      offsets := map p | p in BodyPartSet :: (0, 0);
      viewOrders := map p | p in BodyPartSet :: 0;
      timelines := map[];
      currentFrameMap := map[];
    }

    method SetFrameUpdateListener(present: bool)
      modifies this
      ensures hasListener == present && notifications == old(notifications)
      ensures currentFrameMap == old(currentFrameMap) && timelines == old(timelines)
      ensures ViewsKept() && SettingsKept()
    {
      hasListener := present;
    }

    /** Flips the pause flag and pauses or resumes every timeline to match. */
    method TogglePause()
      requires Valid()
      modifies this
      ensures Valid()
      ensures isPaused == !old(isPaused)
      ensures timelines == WithStatus(old(timelines), StatusFor(isPaused))
      ensures forall p | p in timelines :: timelines[p].keyFrames == old(timelines[p].keyFrames)
      ensures scale == old(scale) && speed == old(speed)
      ensures currentAction == old(currentAction) && currentDirection == old(currentDirection)
      ensures ViewsKept() && FramesKept()
    {
      isPaused := !isPaused;
      timelines := SetStatus(timelines, StatusFor(isPaused));
    }

    /** Drops every timeline and empties every view. */
    method StopAllAnimations()
      requires Shaped()
      modifies this
      ensures Shaped()
      ensures timelines == map[] && images == NoImages(viewNames)
      ensures offsets == old(offsets) && viewOrders == old(viewOrders)
      ensures SettingsKept() && FramesKept()
    {
      timelines := map[];
      images := ResetAll(images, None);
    }

    /** Starts the timeline of one part for the current action and direction, if the part
        has a view and its action table has frames for them. */
    method StartAnimation(partName: string)
      requires Shaped()
      modifies this
      ensures Shaped()
      ensures timelines ==
        var t := TimelineFor(library, partName, currentAction, currentDirection, scale, speed);
        if partName in viewNames && t.Some? then old(timelines)[partName := Timeline(t.value, Running)]
        else old(timelines)
      ensures ViewsKept() && SettingsKept() && FramesKept()
    {
      if partName !in library {
        return;
      }
      var partActions := library[partName];
      if currentAction !in partActions {
        return;
      }
      var frames := SelectFrames(partActions[currentAction], currentDirection);
      if frames.None? || |frames.value| == 0 {
        return;
      }
      if partName !in images {
        return;
      }
      var keyFrames := BuildSchedule(frames.value, scale, speed);
      timelines := timelines[partName := Timeline(keyFrames, Running)];
    }

    /** Starts every part that has sprites, then orders the views for the direction. */
    method StartAnimations()
      requires Shaped()
      modifies this
      ensures Shaped()
      ensures timelines == Started(old(timelines), spriteLoader.GetAvailableBodyParts(), viewNames, library,
                                   currentAction, currentDirection, scale, speed)
      ensures viewOrders == ViewOrders(RenderOrderFor(currentDirection), viewNames)
      ensures images == old(images) && offsets == old(offsets)
      ensures SettingsKept() && FramesKept()
    {
      var parts := spriteLoader.GetAvailableBodyParts();
      for i := 0 to |parts|
        invariant Shaped()
        invariant timelines == Started(old(timelines), parts[..i], viewNames, library, currentAction, currentDirection, scale, speed)
        invariant ViewsKept() && SettingsKept() && FramesKept()
      {
        assert parts[..i + 1][..i] == parts[..i];
        StartAnimation(parts[i]);
      }
      assert parts[..|parts|] == parts;
      ApplyRenderOrder();
    }

    /** Resets every view's order to 0, then gives each listed body part its index in the
        current direction's list. */
    method ApplyRenderOrder()
      requires Shaped()
      modifies this
      ensures Shaped()
      ensures viewOrders == ViewOrders(RenderOrderFor(currentDirection), viewNames)
      ensures images == old(images) && offsets == old(offsets) && timelines == old(timelines)
      ensures SettingsKept() && FramesKept()
    {
      var order := RenderOrderFor(currentDirection);
      var orders := ResetAll(viewOrders, 0);
      assert order[..0] == [];
      for i := 0 to |order|
        invariant orders == ViewOrders(order[..i], viewNames)
        modifies {}
      {
        ViewOrdersStep(order, viewNames, i);
        if order[i] in orders {
          orders := orders[order[i] := i];
        }
      }
      assert order[..|order|] == order;
      viewOrders := orders;
    }

    /** Replaces whatever plays by the given action and direction. Only parts with sprites
        get a timeline, and they stay paused when the controller is paused. */
    method SetAnimation(action: string, direction: string)
      requires Shaped()
      modifies this
      ensures Valid()
      ensures currentAction == action && currentDirection == direction
      ensures timelines == WithStatus(Planned(), StatusFor(isPaused))
      ensures images == NoImages(viewNames) && viewOrders == ViewOrders(RenderOrderFor(direction), viewNames)
      ensures offsets == old(offsets) && isPaused == old(isPaused)
      ensures scale == old(scale) && speed == old(speed)
      ensures FramesKept()
    {
      StopAllAnimations();
      currentAction := action;
      currentDirection := direction;
      StartAnimations();
      StartedRunning(map[], spriteLoader.GetAvailableBodyParts(), viewNames, library, currentAction, currentDirection,
                     scale, speed);
      MatchPause();
    }

    /** Puts every timeline, all of them running, into the state the pause flag asks for. */
    method MatchPause()
      requires Shaped() && AllHave(timelines, Running)
      modifies this
      ensures Valid()
      ensures timelines == WithStatus(old(timelines), StatusFor(isPaused))
      ensures ViewsKept() && SettingsKept() && FramesKept()
    {
      if isPaused {
        timelines := SetStatus(timelines, Paused);
      } else {
        WithStatusTwice(timelines, Running, Running);
      }
    }

    /** Only parts that have sprites get a timeline when an action starts. */
    lemma PlannedHaveSprites(p: string)
      requires speed > 0.0
      ensures p in Planned() ==> spriteLoader.HasSpritesForPart(p) && p in viewNames
    {
      StartedEntries(map[], spriteLoader.GetAvailableBodyParts(), viewNames, library, currentAction, currentDirection,
                     scale, speed, p);
    }

    /** Loads a character's sprites. On success with an action set, restarts it with the
        pause flag as it was. Reports whether the five base parts have sprites. */
    method LoadCharacter(files: seq<SpriteFile>) returns (ok: bool)
      requires Valid()
      modifies this, spriteLoader
      ensures Valid()
      ensures spriteLoader.spritePaths == Catalogue(files)
      ensures ok == spriteLoader.HasBasicSprites()
      ensures ok <==> forall p | p in EssentialParts :: exists i | 0 <= i < |files| :: FiledUnder(files[i], p)
      ensures SettingsKept()
      ensures ok && currentAction != "" ==>
        timelines == WithStatus(Planned(), StatusFor(isPaused)) && images == NoImages(viewNames) &&
        viewOrders == ViewOrders(RenderOrderFor(currentDirection), viewNames)
      ensures !(ok && currentAction != "") ==>
        timelines == old(timelines) && images == old(images) && viewOrders == old(viewOrders)
      ensures offsets == old(offsets) && FramesKept()
    {
      spriteLoader.LoadCharacterSprites(files);
      BasicSpritesAfterLoad(files, spriteLoader);
      ok := spriteLoader.HasBasicSprites();
      if ok && currentAction != "" {
        RestartKeepingPause();
      }
    }

    /** Restarts the current action unpaused, then pauses every new timeline again when
        the controller was paused before. */
    method RestartKeepingPause()
      requires Valid()
      modifies this
      ensures Valid() && SettingsKept()
      ensures timelines == WithStatus(Planned(), StatusFor(isPaused)) && images == NoImages(viewNames)
      ensures viewOrders == ViewOrders(RenderOrderFor(currentDirection), viewNames)
      ensures offsets == old(offsets) && FramesKept()
    {
      var wasPaused := isPaused;
      isPaused := false;
      SetAnimation(currentAction, currentDirection);
      if wasPaused {
        isPaused := true;
        MatchPause();
        WithStatusTwice(Planned(), Running, Paused);
      }
    }

    /** Sets the playback speed and restarts the action, if any, at that speed. */
    method SetSpeed(newSpeed: real)
      requires Valid() && newSpeed > 0.0
      modifies this
      ensures Valid() && speed == newSpeed
      ensures currentAction != "" ==>
        timelines == WithStatus(Planned(), StatusFor(isPaused)) && images == NoImages(viewNames) &&
        viewOrders == ViewOrders(RenderOrderFor(currentDirection), viewNames)
      ensures currentAction == "" ==>
        timelines == old(timelines) && images == old(images) && viewOrders == old(viewOrders)
      ensures isPaused == old(isPaused) && scale == old(scale)
      ensures currentAction == old(currentAction) && currentDirection == old(currentDirection)
      ensures offsets == old(offsets) && FramesKept()
    {
      speed := newSpeed;
      if currentAction != "" {
        SetAnimation(currentAction, currentDirection);
      }
    }

    /** Sets the scale, empties every view and restarts the action, if any, so its sprites
        and offsets are reloaded at that scale. */
    method SetScale(newScale: real)
      requires Valid()
      modifies this
      ensures Valid() && scale == newScale && images == NoImages(viewNames)
      ensures currentAction != "" ==>
        timelines == WithStatus(Planned(), StatusFor(isPaused)) &&
        viewOrders == ViewOrders(RenderOrderFor(currentDirection), viewNames)
      ensures currentAction == "" ==> timelines == old(timelines) && viewOrders == old(viewOrders)
      ensures isPaused == old(isPaused) && speed == old(speed)
      ensures currentAction == old(currentAction) && currentDirection == old(currentDirection)
      ensures offsets == old(offsets) && FramesKept()
    {
      scale := newScale;
      images := ResetAll(images, None);
      if currentAction != "" {
        SetAnimation(currentAction, currentDirection);
      }
    }

    /** Stops everything; the views stay but are empty. */
    method Dispose()
      requires Shaped()
      modifies this
      ensures Shaped()
      ensures timelines == map[] && images == NoImages(viewNames)
      ensures offsets == old(offsets) && viewOrders == old(viewOrders)
      ensures SettingsKept() && FramesKept()
    {
      StopAllAnimations();
    }

    /** What a key frame's handler does when key frame `i` of a playing part fires: records
        the frame; if the catalogue has its sprite, shows it at the scaled size, moves the
        view and tells the listener; otherwise empties the view. */
    method FireKeyFrame(partName: string, i: nat)
      requires Valid()
      requires partName in timelines && timelines[partName].status == Running
      requires i < |timelines[partName].keyFrames| && timelines[partName].keyFrames[i].action.Some?
      modifies this
      ensures Valid()
      ensures var a := old(timelines[partName].keyFrames[i].action.value);
        currentFrameMap == old(currentFrameMap)[partName := a.targetFrame] &&
        FrameSprite(partName) == spriteLoader.GetSpritePath(partName, a.targetFrame) &&
        if FrameSprite(partName).Some? then
          images == old(images)[partName := Some(SpriteImage(FrameSprite(partName).value,
                                                             Some(Scaled(BaseSpriteSize(partName), scale))))] &&
          offsets == old(offsets)[partName := (a.offsetX, a.offsetY)] &&
          notifications == old(notifications) + (if hasListener then [FrameEvent(partName, a.targetFrame)] else [])
        else
          images == old(images)[partName := None] && offsets == old(offsets) &&
          notifications == old(notifications)
      ensures timelines == old(timelines) && viewOrders == old(viewOrders) && hasListener == old(hasListener)
      ensures SettingsKept()
    {
      var a := timelines[partName].keyFrames[i].action.value;
      currentFrameMap := currentFrameMap[partName := a.targetFrame];
      var imagePath := spriteLoader.GetSpritePath(partName, a.targetFrame);
      if imagePath.Some? {
        ShowSprite(partName, imagePath.value, a);
      } else {
        images := images[partName := None];
      }
    }

    /** Shows a frame's sprite at the scaled size, moves the view by the frame's offsets and
        tells the listener, if any. */
    method ShowSprite(partName: string, url: string, a: FrameAction)
      requires Valid() && partName in viewNames
      modifies this
      ensures Valid()
      ensures images == old(images)[partName := Some(SpriteImage(url, Some(Scaled(BaseSpriteSize(partName), scale))))]
      ensures offsets == old(offsets)[partName := (a.offsetX, a.offsetY)]
      ensures notifications == old(notifications) + (if hasListener then [FrameEvent(partName, a.targetFrame)] else [])
      ensures timelines == old(timelines) && viewOrders == old(viewOrders) && hasListener == old(hasListener)
      ensures currentFrameMap == old(currentFrameMap) && SettingsKept()
    {
      var size := Scaled(BaseSpriteSize(partName), scale);
      images := images[partName := Some(SpriteImage(url, Some(size)))];
      offsets := offsets[partName := (a.offsetX, a.offsetY)];
      if hasListener {
        notifications := notifications + [FrameEvent(partName, a.targetFrame)];
      }
    }

    /** Redraws, at the image's own size, the current frame's sprite of every part with a
        timeline; views without such a sprite keep what they show. */
    method RenderCurrentFrame()
      requires Shaped()
      modifies this
      ensures Shaped()
      ensures forall p | p in images ::
        images[p] == if p in timelines && FrameSprite(p).Some? then Some(SpriteImage(FrameSprite(p).value, None))
                     else old(images[p])
      ensures offsets == old(offsets) && viewOrders == old(viewOrders) && timelines == old(timelines)
      ensures SettingsKept() && FramesKept()
    {
      images := Redraw(images, timelines.Keys, spriteLoader, currentFrameMap);
    }

    /** Replaces the recorded frames by the given ones, keeping only body parts. */
    method UpdateCurrentFrameMap(frameMap: map<string, int>)
      requires Shaped()
      modifies this
      ensures Shaped()
      ensures currentFrameMap == map p | p in frameMap && p in viewNames :: frameMap[p]
      ensures forall p | p in viewNames :: CurrentFrame(p) == if p in frameMap then frameMap[p] else 1
      ensures timelines == old(timelines) && hasListener == old(hasListener) && notifications == old(notifications)
      ensures ViewsKept() && SettingsKept()
    {
      var kept: map<string, int> := map[];
      var rest := frameMap.Keys;
      while rest != {}
        invariant rest <= frameMap.Keys
        invariant forall p :: p in kept <==> p in frameMap && p !in rest && p in images
        invariant forall p | p in kept :: kept[p] == frameMap[p]
        decreases rest
        modifies {}
      {
        var p :| p in rest;
        if p in images {
          kept := kept[p := frameMap[p]];
        }
        rest := rest - {p};
      }
      currentFrameMap := kept;
    }

    /** The parts of the current character that have sprites. */
    function GetAvailableBodyParts(): (r: seq<string>)
      reads this, spriteLoader
      ensures forall p :: p in r <==> p in BodyParts && spriteLoader.HasSpritesForPart(p)
    {
      spriteLoader.GetAvailableBodyParts()
    }
  }
}
