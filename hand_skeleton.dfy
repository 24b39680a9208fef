/** The per-frame hand skeleton update of the webcam demo: the connector table,
    the polylines built from the first detected hand, the replacement of the
    scene's `handGroup`, and the paused/ended guard that ends the frame loop. */
module HandSkeleton {
  import opened SceneGraph

  datatype Option<T> = None | Some(value: T)

  /** One landmark reported by the gesture recognizer; only its coordinates are read. */
  datatype Landmark = Landmark(x: real, y: real, z: real)

  /** What `recognizeForVideo` returns, reduced to the field the frame step
      reads: one landmark list per detected hand, first hand first. */
  datatype GestureResult = GestureResult(landmarks: seq<seq<Landmark>>)

  /** The two flags of the video element that the frame step tests. */
  datatype VideoStatus = VideoStatus(paused: bool, ended: bool)

  /** How one call of `render` ends. */
  datatype Outcome =
    | Rescheduled  // the scene was rendered and `requestAnimationFrame(render)` called
    | Stopped      // returned at the paused/ended guard: nothing detected, drawn or rescheduled
    | Faulted      // a connector named a landmark the hand lacks: reading `.x` of it threw

  /** The scene's children after a call of `render`, and how the call ended. */
  datatype Frame = Frame(children: seq<Child>, outcome: Outcome)

  /** One invocation of `render`: what it observes of the video and the recognizer. */
  datatype Tick = Tick(video: VideoStatus, results: GestureResult)

  /** The name the frame step gives its group and looks earlier groups up by. */
  const HandGroupName: string := "handGroup"

  /** Landmarks per hand in the recognizer's hand model (wrist = 0, finger tips 4, 8, 12, 16, 20). */
  const LandmarksPerHand: nat := 21

  /** The skeleton's polylines: each chain runs from the wrist along one finger. */
  const Connectors: seq<seq<nat>> := [
    [0, 1, 2, 3, 4],
    [0, 5, 6, 7, 8],
    [0, 9, 10, 11, 12],
    [0, 13, 14, 15, 16],
    [0, 17, 18, 19, 20]
  ]

  /** The connector table is five chains of five indices; chain `i` is the wrist
      followed by the four joints of finger `i`, so every index is a landmark
      of a full hand. */
  lemma ConnectorTableShape()
    ensures |Connectors| == 5
    ensures forall i | 0 <= i < |Connectors| :: |Connectors[i]| == 5 && Connectors[i][0] == 0
    ensures forall i, j | 0 <= i < |Connectors| && 1 <= j < |Connectors[i]| :: Connectors[i][j] == 4 * i + j
    ensures forall i, j | 0 <= i < |Connectors| && 0 <= j < |Connectors[i]| :: Connectors[i][j] < LandmarksPerHand
  {
  }

  /** Every index the connector table refers to names a landmark of `hand`. */
  predicate Covers(hand: seq<Landmark>)
  {
    forall i, j | 0 <= i < |Connectors| && 0 <= j < |Connectors[i]| :: Connectors[i][j] < |hand|
  }

  /** `landmarks[connector[j]]` is in bounds throughout exactly when the hand
      has all 21 landmarks. */
  lemma CoversIffFullHand(hand: seq<Landmark>)
    ensures Covers(hand) <==> |hand| >= LandmarksPerHand
  {
    ConnectorTableShape();
    if Covers(hand) {
      assert Connectors[4][4] == 20;
    }
  }

  /** `new Vector3(landmark.x, landmark.y, landmark.z)`. */
  function ToVector3(landmark: Landmark): (v: Vector3)
    ensures v.x == landmark.x && v.y == landmark.y && v.z == landmark.z
  {
    Vector3(landmark.x, landmark.y, landmark.z)
  }

  /** The points of the polyline along `chain`. */
  function ChainPoints(chain: seq<nat>, hand: seq<Landmark>): (points: seq<Vector3>)
    requires forall k | 0 <= k < |chain| :: chain[k] < |hand|
    ensures |points| == |chain|
  {
    if chain == [] then [] else [ToVector3(hand[chain[0]])] + ChainPoints(chain[1..], hand)
  }

  /** Point `j` of a chain's polyline is landmark `chain[j]`, copied verbatim. */
  lemma {:induction false} ChainPointsAt(chain: seq<nat>, hand: seq<Landmark>, j: nat)
    requires forall k | 0 <= k < |chain| :: chain[k] < |hand|
    requires j < |chain|
    ensures ChainPoints(chain, hand)[j] == ToVector3(hand[chain[j]])
  {
    if j > 0 {
      ChainPointsAt(chain[1..], hand, j - 1);
    }
  }

  /** The lines of the group drawn for `hand`: one per connector chain, in table order. */
  function HandLines(hand: seq<Landmark>): (lines: seq<Line>)
    requires Covers(hand)
    ensures SkeletonShaped(lines)
  {
    seq(|Connectors|, i requires 0 <= i < |Connectors| => Line(ChainPoints(Connectors[i], hand)))
  }

  /** The group holds one line per connector chain; line `i` has as many
      points as chain `i`, and its point `j` is landmark `Connectors[i][j]`. */
  lemma HandLinesAt(hand: seq<Landmark>)
    requires Covers(hand)
    ensures |HandLines(hand)| == |Connectors|
    ensures forall i | 0 <= i < |Connectors| :: |HandLines(hand)[i].points| == |Connectors[i]|
    ensures forall i, j | 0 <= i < |Connectors| && 0 <= j < |Connectors[i]| ::
      HandLines(hand)[i].points[j] == ToVector3(hand[Connectors[i][j]])
  {
    forall i, j | 0 <= i < |Connectors| && 0 <= j < |Connectors[i]|
      ensures HandLines(hand)[i].points[j] == ToVector3(hand[Connectors[i][j]])
    {
      ChainPointsAt(Connectors[i], hand, j);
    }
  }

  /** The nested loops of `render` that push one `Vector3` per connector index
      and one `Line` per chain. `None` is the `TypeError` thrown when a
      connector index has no landmark. */
  method BuildHandLines(hand: seq<Landmark>) returns (r: Option<seq<Line>>)
    ensures r.Some? <==> Covers(hand)
    ensures r.Some? ==> r.value == HandLines(hand)
  {
    var lines: seq<Line> := [];
    var i := 0;
    while i < |Connectors|
      invariant 0 <= i <= |Connectors|
      invariant forall a, b | 0 <= a < i && 0 <= b < |Connectors[a]| :: Connectors[a][b] < |hand|
      invariant |lines| == i
      invariant forall a | 0 <= a < i :: lines[a] == Line(ChainPoints(Connectors[a], hand))
    {
      var connector := Connectors[i];
      var linePoints: seq<Vector3> := [];
      var j := 0;
      while j < |connector|
        invariant 0 <= j <= |connector|
        invariant forall b | 0 <= b < j :: connector[b] < |hand|
        invariant |linePoints| == j
        invariant forall b | 0 <= b < j :: linePoints[b] == ToVector3(hand[connector[b]])
      {
        if connector[j] >= |hand| {
          assert Connectors[i][j] >= |hand|;
          return None;
        }
        var landmark := hand[connector[j]];
        linePoints := linePoints + [Vector3(landmark.x, landmark.y, landmark.z)];
        j := j + 1;
      }
      forall b | 0 <= b < |connector|
        ensures linePoints[b] == ChainPoints(connector, hand)[b]
      {
        ChainPointsAt(connector, hand, b);
      }
      lines := lines + [Line(linePoints)];
      i := i + 1;
    }
    r := Some(lines);
  }

  /** A call of `render` with these inputs draws (or keeps) a pose and
      reschedules itself: the video plays and the first hand, if any, is complete. */
  predicate Live(video: VideoStatus, results: GestureResult)
  {
    && !video.paused && !video.ended
    && (|results.landmarks| == 0 || |results.landmarks[0]| >= LandmarksPerHand)
  }

  /** One call of `render`, as a function of the scene's children before it. */
  function FrameStep(children: seq<Child>, video: VideoStatus, results: GestureResult): (f: Frame)
    ensures f.outcome == Stopped <==> video.paused || video.ended
    ensures f.outcome == Rescheduled <==> Live(video, results)
    ensures f.outcome == Stopped || |results.landmarks| == 0 ==> f.children == children
  {
    if video.paused || video.ended then Frame(children, Stopped)
    else if |results.landmarks| == 0 then Frame(children, Rescheduled)
    else
      var hand := results.landmarks[0];
      var cleared := Without(children, HandGroupName);
      CoversIffFullHand(hand);
      if Covers(hand) then Frame(cleared + [Group(HandGroupName, HandLines(hand))], Rescheduled)
      else Frame(cleared, Faulted)
  }

  /** `render`: the paused/ended guard, detection, and the replacement of the
      scene's `handGroup` by a group built from the first detected hand. */
  method Render(scene: Scene, video: VideoStatus, results: GestureResult) returns (outcome: Outcome)
    modifies scene
    ensures Frame(scene.children, outcome) == FrameStep(old(scene.children), video, results)
  {
    if video.paused || video.ended {
      return Stopped;
    }
    if |results.landmarks| > 0 {
      var landmarks := results.landmarks[0];
      scene.RemoveNamed(HandGroupName);
      var lines := BuildHandLines(landmarks);
      if lines.None? {
        return Faulted;
      }
      scene.Add(Group(HandGroupName, lines.value));
    }
    return Rescheduled;
  }

  /** The scene set up before the loop starts: a grid helper, then a size-5 axes helper. */
  const InitialChildren: seq<Child> := [GridHelper(""), AxesHelper("", 5)]

  method SetUpScene() returns (scene: Scene)
    ensures fresh(scene)
    ensures scene.children == InitialChildren
  {
    scene := new Scene();
    scene.Add(GridHelper(""));
    scene.Add(AxesHelper("", 5));
  }

  /** The lines of a group have the connector table's shape. */
  predicate SkeletonShaped(lines: seq<Line>)
  {
    |lines| == |Connectors| && forall i | 0 <= i < |lines| :: |lines[i].points| == |Connectors[i]|
  }

  /** The scene holds at most one `handGroup`; if it holds one, it is the last
      child, and every `handGroup` is a group of skeleton-shaped lines. */
  predicate WellFormed(children: seq<Child>)
  {
    && CountNamed(children, HandGroupName) <= 1
    && (CountNamed(children, HandGroupName) == 1 ==> children[|children| - 1].name == HandGroupName)
    && forall k | 0 <= k < |children| && children[k].name == HandGroupName ::
         children[k].Group? && SkeletonShaped(children[k].lines)
  }

  lemma InitialChildrenWellFormed()
    ensures WellFormed(InitialChildren)
    ensures CountNamed(InitialChildren, HandGroupName) == 0
  {
  }

  /** On a well-formed scene, removing every `handGroup` drops only the last
      child, and only if it is the `handGroup`: the one child that three.js's
      `traverse` removes without disturbing its iteration. */
  lemma WellFormedRemoval(children: seq<Child>)
    requires WellFormed(children)
    ensures Without(children, HandGroupName) ==
      if CountNamed(children, HandGroupName) == 1 then children[..|children| - 1] else children
  {
    if CountNamed(children, HandGroupName) == 1 {
      WithoutLastNamed(children, HandGroupName);
    } else {
      WithoutAbsent(children, HandGroupName);
    }
  }

  /** A paused or ended video stops the loop and leaves the scene as it was. */
  lemma PausedOrEndedStops(children: seq<Child>, video: VideoStatus, results: GestureResult)
    requires video.paused || video.ended
    ensures FrameStep(children, video, results) == Frame(children, Stopped)
  {
  }

  /** A frame without a detected hand keeps the previous pose on screen. */
  lemma NoHandKeepsScene(children: seq<Child>, video: VideoStatus, results: GestureResult)
    requires !video.paused && !video.ended
    requires |results.landmarks| == 0
    ensures FrameStep(children, video, results) == Frame(children, Rescheduled)
  {
  }

  /** A frame with a full first hand leaves exactly one `handGroup`, last in
      the scene and drawn from the first hand, and keeps every other child. */
  lemma DetectedHandReplacesGroup(children: seq<Child>, video: VideoStatus, results: GestureResult)
    requires !video.paused && !video.ended
    requires |results.landmarks| > 0 && |results.landmarks[0]| >= LandmarksPerHand
    ensures Covers(results.landmarks[0])
    ensures var f := FrameStep(children, video, results);
      && f.outcome == Rescheduled
      && CountNamed(f.children, HandGroupName) == 1
      && |f.children| > 0
      && f.children[|f.children| - 1] == Group(HandGroupName, HandLines(results.landmarks[0]))
      && Without(f.children, HandGroupName) == Without(children, HandGroupName)
  {
    var hand := results.landmarks[0];
    CoversIffFullHand(hand);
    var cleared := Without(children, HandGroupName);
    var group := Group(HandGroupName, HandLines(hand));
    CountNamedAppend(cleared, [group], HandGroupName);
    WithoutAppend(cleared, [group], HandGroupName);
    WithoutIdempotent(children, HandGroupName);
  }

  /** A first hand lacking landmarks ends the loop with the earlier
      `handGroup` already removed and no new one added. */
  lemma ShortHandFaults(children: seq<Child>, video: VideoStatus, results: GestureResult)
    requires !video.paused && !video.ended
    requires |results.landmarks| > 0 && |results.landmarks[0]| < LandmarksPerHand
    ensures var f := FrameStep(children, video, results);
      && f.outcome == Faulted
      && CountNamed(f.children, HandGroupName) == 0
      && f.children == Without(children, HandGroupName)
  {
    CoversIffFullHand(results.landmarks[0]);
  }

  /** Only the first detected hand is drawn: hands after it make no difference. */
  lemma OnlyFirstHandDrawn(children: seq<Child>, video: VideoStatus, r1: GestureResult, r2: GestureResult)
    requires |r1.landmarks| > 0 && |r2.landmarks| > 0
    requires r1.landmarks[0] == r2.landmarks[0]
    ensures FrameStep(children, video, r1) == FrameStep(children, video, r2)
  {
  }

  /** No frame removes, reorders or changes a child not called `handGroup`. */
  lemma FrameKeepsOtherChildren(children: seq<Child>, video: VideoStatus, results: GestureResult)
    ensures Without(FrameStep(children, video, results).children, HandGroupName)
      == Without(children, HandGroupName)
  {
    if !video.paused && !video.ended && |results.landmarks| > 0 {
      var hand := results.landmarks[0];
      WithoutIdempotent(children, HandGroupName);
      if Covers(hand) {
        var cleared := Without(children, HandGroupName);
        WithoutAppend(cleared, [Group(HandGroupName, HandLines(hand))], HandGroupName);
      }
    }
  }

  /** Every frame keeps the scene well formed. */
  lemma FrameKeepsWellFormed(children: seq<Child>, video: VideoStatus, results: GestureResult)
    requires WellFormed(children)
    ensures WellFormed(FrameStep(children, video, results).children)
  {
    if !video.paused && !video.ended && |results.landmarks| > 0 {
      var hand := results.landmarks[0];
      var cleared := Without(children, HandGroupName);
      if Covers(hand) {
        var group := Group(HandGroupName, HandLines(hand));
        var after := cleared + [group];
        CountNamedAppend(cleared, [group], HandGroupName);
        HandLinesAt(hand);
        forall k | 0 <= k < |after| && after[k].name == HandGroupName
          ensures after[k] == group
        {
          if k < |cleared| {
            assert false;
          }
        }
      }
    }
  }

  /** Feeding the same detection twice leaves the scene as after the first frame. */
  lemma SameDetectionTwice(children: seq<Child>, video: VideoStatus, results: GestureResult)
    ensures var once := FrameStep(children, video, results);
      FrameStep(once.children, video, results) == once
  {
    if |results.landmarks| > 0 {
      var hand := results.landmarks[0];
      var cleared := Without(children, HandGroupName);
      WithoutIdempotent(children, HandGroupName);
      if Covers(hand) {
        var group := Group(HandGroupName, HandLines(hand));
        WithoutAppend(cleared, [group], HandGroupName);
      }
    }
  }

  /** The frame loop: `render` runs once per tick for as long as each call
      reschedules itself; the result is the scene after the last call made. */
  function Run(children: seq<Child>, ticks: seq<Tick>): (r: Frame)
    ensures r.outcome == Rescheduled <==> forall k | 0 <= k < |ticks| :: Live(ticks[k].video, ticks[k].results)
    ensures (forall k | 0 <= k < |ticks| :: !ticks[k].video.paused && !ticks[k].video.ended) ==> r.outcome != Stopped
    decreases |ticks|
  {
    if ticks == [] then Frame(children, Rescheduled)
    else
      var f := FrameStep(children, ticks[0].video, ticks[0].results);
      if f.outcome != Rescheduled then f
      else
        var rest := ticks[1..];
        assert forall k | 0 <= k < |rest| :: rest[k] == ticks[k + 1];
        Run(f.children, rest)
  }

  /** Once a call of `render` stops or faults, no later tick runs a frame:
      further ticks change neither the scene nor the outcome. */
  lemma {:induction false} HaltIsFinal(children: seq<Child>, ticks: seq<Tick>, more: seq<Tick>)
    requires Run(children, ticks).outcome != Rescheduled
    ensures Run(children, ticks + more) == Run(children, ticks)
    decreases |ticks|
  {
    assert ticks != [];
    assert (ticks + more)[0] == ticks[0];
    assert (ticks + more)[1..] == ticks[1..] + more;
    var f := FrameStep(children, ticks[0].video, ticks[0].results);
    if f.outcome == Rescheduled {
      HaltIsFinal(f.children, ticks[1..], more);
    }
  }

  /** The loop keeps the scene well formed over any number of frames. */
  lemma {:induction false} RunKeepsWellFormed(children: seq<Child>, ticks: seq<Tick>)
    requires WellFormed(children)
    ensures WellFormed(Run(children, ticks).children)
    decreases |ticks|
  {
    if ticks != [] {
      FrameKeepsWellFormed(children, ticks[0].video, ticks[0].results);
      var f := FrameStep(children, ticks[0].video, ticks[0].results);
      if f.outcome == Rescheduled {
        RunKeepsWellFormed(f.children, ticks[1..]);
      }
    }
  }

  /** Over any number of frames the grid, the axes and any other child not
      called `handGroup` stay in the scene, unchanged and in order. */
  lemma {:induction false} RunKeepsOtherChildren(children: seq<Child>, ticks: seq<Tick>)
    ensures Without(Run(children, ticks).children, HandGroupName) == Without(children, HandGroupName)
    decreases |ticks|
  {
    if ticks != [] {
      FrameKeepsOtherChildren(children, ticks[0].video, ticks[0].results);
      var f := FrameStep(children, ticks[0].video, ticks[0].results);
      if f.outcome == Rescheduled {
        RunKeepsOtherChildren(f.children, ticks[1..]);
      }
    }
  }
}
