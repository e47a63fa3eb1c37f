/**
 * The per-frame bookkeeping of the analyzer as a pure state machine: the
 * state held between calls, the outcome of one `process_frame` call, and the
 * seeding done when a video is loaded. The class in module `Analyzer`
 * carries out these transitions in place.
 */
module Tracking {
  import opened Wrappers
  import opened Detection
  import opened Velocity

  /**
   * The library calls the analyzer makes, taken as given: `toGray` is
   * `cvtColor` to gray followed by the 21x21 Gaussian blur; `contours` maps
   * the previous and the current gray frame to the external contours of the
   * dilated thresholded difference; `draw` is `cv2.rectangle` with its fixed
   * colour and stroke, giving the frame with the box drawn into it; `fps` is
   * the capture's frame rate; `sqrt` is `np.sqrt`.
   */
  datatype Env<!F, !G> = Env(toGray: F -> G, contours: (G, G) -> seq<Contour>, draw: (F, Rect) -> F,
                             fps: real, sqrt: int -> real)

  /**
   * The fields of the analyzer the tracking logic reads and writes.
   * `hasCapture` is whether `self.cap` holds a capture object.
   */
  datatype AnalyzerState<F, G> = AnalyzerState(
    hasCapture: bool,
    currentFrame: Option<F>,
    previousGray: Option<G>,
    previousPosition: Option<Position>,
    currentPosition: Option<Position>)

  /** How one `process_frame` call ends. */
  datatype Outcome =
    | NoVideo                        // no capture: returns False
    | ReadFailed                     // the frame read failed: returns False
    | Reported(velocityKmph: real)   // a velocity was computed and shown: returns True
    | StatusTextUnbound              // no velocity this call: the status line has no text bound and the call raises
    | ZeroFrameRate                  // the frame rate is 0: the velocity division raises

  /** Whether the call read a frame and rolled the state forward. */
  predicate RolledForward(o: Outcome)
  {
    o.Reported? || o.StatusTextUnbound?
  }

  /** The state of a freshly constructed analyzer. */
  function Initial<F, G>(): (s: AnalyzerState<F, G>)
    ensures !s.hasCapture && s.previousGray.None?
    ensures s.previousPosition.None? && s.currentPosition.None?
  {
    AnalyzerState(false, None, None, None, None)
  }

  /** The frame once the detected box, if there is one, has been drawn into it. */
  function Annotate<F>(frame: F, box: Option<Rect>, draw: (F, Rect) -> F): F
  {
    if box.Some? then draw(frame, box.value) else frame
  }

  /**
   * One `process_frame` call on state `s`, where `read` is what the capture
   * read returned for the requested frame. The frame read and the current
   * frame are one array, so a box drawn into the current frame is also in
   * the frame whose gray is stored at the end of the call.
   */
  function Transition<F, G>(s: AnalyzerState<F, G>, read: Option<F>, env: Env<F, G>): (r: (AnalyzerState<F, G>, Outcome))
    ensures r.0.hasCapture == s.hasCapture
    ensures s.hasCapture && read.Some? ==> r.0.currentFrame.Some? && r.0.previousGray.Some?
  {
    if !s.hasCapture then (s, NoVideo)
    else if read.None? then (s, ReadFailed)
    else
      var frame := read.value;
      var gray := env.toGray(frame);
      if s.previousGray.None? then
        (s.(currentFrame := Some(frame), previousPosition := s.currentPosition, previousGray := Some(gray)),
         StatusTextUnbound)
      else
        var found := Locate(env.contours(s.previousGray.value, gray));
        var position := found.0;
        if s.previousPosition.Some? && position.Some? && env.fps == 0.0 then
          // raises before the box is drawn and before the roll-forward
          (s.(currentFrame := Some(frame), currentPosition := position, previousGray := Some(gray)), ZeroFrameRate)
        else
          var drawn := Annotate(frame, found.1, env.draw);
          var rolled := s.(currentFrame := Some(drawn), currentPosition := position,
                           previousPosition := position, previousGray := Some(env.toGray(drawn)));
          if s.previousPosition.Some? && position.Some? then
            (rolled, Reported(CalculateVelocity(s.previousPosition, position, env.fps, env.sqrt)))
          else
            (rolled, StatusTextUnbound)
  }

  /**
   * `load_video_dialog`: when a file was chosen the capture field is set
   * (even if opening fails), and if it opened and its first frame was read,
   * the processed gray of that frame becomes the previous gray frame.
   */
  function LoadDialog<F, G>(s: AnalyzerState<F, G>, selected: bool, isOpened: bool, first: Option<F>,
                            toGray: F -> G): (r: AnalyzerState<F, G>)
    ensures r.previousPosition == s.previousPosition && r.currentPosition == s.currentPosition
    ensures r.currentFrame == s.currentFrame
    ensures r.hasCapture == (s.hasCapture || selected)
    ensures r.previousGray.Some? <==> s.previousGray.Some? || (selected && isOpened && first.Some?)
    ensures selected && isOpened && first.Some? ==> r.previousGray == Some(toGray(first.value))
    ensures !(selected && isOpened && first.Some?) ==> r.previousGray == s.previousGray
  {
    if !selected then s
    else if isOpened && first.Some? then s.(hasCapture := true, previousGray := Some(toGray(first.value)))
    else s.(hasCapture := true)
  }

  /** The outcomes of a sequence of `process_frame` calls, and the state after them. */
  function Run<F, G>(s: AnalyzerState<F, G>, frames: seq<Option<F>>, env: Env<F, G>): (r: (AnalyzerState<F, G>, seq<Outcome>))
    ensures |r.1| == |frames|
    ensures r.0.hasCapture == s.hasCapture
    ensures !s.hasCapture ==> r.0 == s
    ensures forall i :: 0 <= i < |frames| ==> (r.1[i].NoVideo? <==> !s.hasCapture)
    decreases |frames|
  {
    if frames == [] then (s, [])
    else
      var step := Transition(s, frames[0], env);
      assert !s.hasCapture ==> step == (s, NoVideo);
      assert step.1.NoVideo? <==> !s.hasCapture;
      var rest := Run(step.0, frames[1..], env);
      var outs := [step.1] + rest.1;
      assert forall i :: 0 < i < |frames| ==> outs[i] == rest.1[i - 1];
      (rest.0, outs)
  }

  // ---------------------------------------------------------------------
  // Properties of one call
  // ---------------------------------------------------------------------

  /** The two failure paths return False and leave the whole state unchanged; they are taken exactly when there is no capture or the read fails. */
  lemma FailureLeavesStateUnchanged<F, G>(s: AnalyzerState<F, G>, read: Option<F>, env: Env<F, G>)
    ensures var (s', o) := Transition(s, read, env);
            (o == NoVideo <==> !s.hasCapture) &&
            (o == ReadFailed <==> s.hasCapture && read.None?) &&
            (o.NoVideo? || o.ReadFailed? ==> s' == s)
  {
  }

  /**
   * Every call that reads a frame keeps it as the current frame and stores
   * the processed gray of that current frame, on every branch. The current
   * frame is the frame read with the detected box drawn into it, unless no
   * detection ran, none was found, or the call raised on a zero frame rate
   * before drawing.
   */
  lemma ReadStoresGray<F, G>(s: AnalyzerState<F, G>, f: F, env: Env<F, G>)
    requires s.hasCapture
    ensures var (s', o) := Transition(s, Some(f), env);
            s'.hasCapture && !o.NoVideo? && !o.ReadFailed? &&
            s'.currentFrame.Some? && s'.previousGray == Some(env.toGray(s'.currentFrame.value))
    ensures var (s', o) := Transition(s, Some(f), env);
            s'.currentFrame ==
              Some(if s.previousGray.Some? && !o.ZeroFrameRate?
                   then Annotate(f, Locate(env.contours(s.previousGray.value, env.toGray(f))).1, env.draw)
                   else f)
  {
  }

  /** Without a previous gray frame no detection runs: the current position keeps its old value and no velocity is produced. */
  lemma NoGrayNoDetection<F, G>(s: AnalyzerState<F, G>, f: F, env: Env<F, G>)
    requires s.hasCapture && s.previousGray.None?
    ensures var (s', o) := Transition(s, Some(f), env);
            s'.currentPosition == s.currentPosition && s'.previousPosition == s.currentPosition &&
            o == StatusTextUnbound
  {
  }

  /** With a previous gray frame, detection compares it with the new gray frame and its position becomes the current one. */
  lemma DetectionAgainstPreviousGray<F, G>(s: AnalyzerState<F, G>, f: F, env: Env<F, G>)
    requires s.hasCapture && s.previousGray.Some?
    ensures var (s', _) := Transition(s, Some(f), env);
            s'.currentPosition == Locate(env.contours(s.previousGray.value, env.toGray(f))).0
  {
  }

  /** After a call that rolled forward, the previous position is that call's current position, absent when detection failed. */
  lemma RollForwardCopiesPosition<F, G>(s: AnalyzerState<F, G>, read: Option<F>, env: Env<F, G>)
    ensures var (s', o) := Transition(s, read, env);
            RolledForward(o) ==> s'.previousPosition == s'.currentPosition
  {
  }

  /**
   * A velocity is reported exactly when a frame was read, detection ran and
   * found a position, a previous position is present and the frame rate is
   * non-zero; it is the velocity between the previous and the new position.
   */
  lemma VelocityNeedsBothPositions<F, G>(s: AnalyzerState<F, G>, read: Option<F>, env: Env<F, G>)
    ensures var (s', o) := Transition(s, read, env);
            o.Reported? <==>
              s.hasCapture && read.Some? && s.previousGray.Some? && s.previousPosition.Some? &&
              s'.currentPosition.Some? && env.fps != 0.0
    ensures var (s', o) := Transition(s, read, env);
            o.Reported? ==>
              o.velocityKmph == CalculateVelocity(s.previousPosition, s'.currentPosition, env.fps, env.sqrt)
  {
  }

  /** The zero frame rate error leaves the previous position as it was, after the current position and the gray frame were already updated. */
  lemma ZeroFrameRatePartialUpdate<F, G>(s: AnalyzerState<F, G>, read: Option<F>, env: Env<F, G>)
    ensures var (s', o) := Transition(s, read, env);
            o == ZeroFrameRate <==>
              s.hasCapture && read.Some? && s.previousGray.Some? && s.previousPosition.Some? &&
              s'.currentPosition.Some? && env.fps == 0.0
    ensures var (s', o) := Transition(s, read, env);
            o == ZeroFrameRate ==>
              s'.previousPosition == s.previousPosition && s'.currentFrame == read &&
              s'.previousGray == Some(env.toGray(read.value))
  {
  }

  // ---------------------------------------------------------------------
  // Properties of several calls
  // ---------------------------------------------------------------------

  /**
   * A missed detection resets the baseline: the previous position becomes
   * absent, so the next call reports no velocity, whatever it reads.
   */
  lemma GapResetsBaseline<F, G>(s: AnalyzerState<F, G>, f: F, next: Option<F>, env: Env<F, G>)
    requires s.hasCapture && s.previousGray.Some?
    requires Locate(env.contours(s.previousGray.value, env.toGray(f))).0.None?
    ensures var (s1, o1) := Transition(s, Some(f), env);
            s1.previousPosition.None? && o1 == StatusTextUnbound &&
            !Transition(s1, next, env).1.Reported?
  {
  }

  /**
   * Two successive calls that both read a frame: the second runs detection
   * on the gray of the first call's current frame and the gray of the second
   * frame read. When the first call detected a box and did not raise, that
   * current frame is the first frame with the box drawn into it.
   */
  lemma ConsecutiveReadsAreCompared<F, G>(s: AnalyzerState<F, G>, f1: F, f2: F, env: Env<F, G>)
    requires s.hasCapture
    ensures var (s1, o1) := Transition(s, Some(f1), env);
            var (s2, o2) := Transition(s1, Some(f2), env);
            s1.currentFrame.Some? &&
            s2.currentPosition == Locate(env.contours(env.toGray(s1.currentFrame.value), env.toGray(f2))).0
    ensures var (s1, o1) := Transition(s, Some(f1), env);
            s.previousGray.Some? && !o1.ZeroFrameRate? ==>
              var box1 := Locate(env.contours(s.previousGray.value, env.toGray(f1))).1;
              Transition(s1, Some(f2), env).0.currentPosition ==
                Locate(env.contours(env.toGray(Annotate(f1, box1, env.draw)), env.toGray(f2))).0
  {
  }

  /** After seeding from a first frame, the next successful call compares against that frame. */
  lemma SeedThenDetect<F, G>(s: AnalyzerState<F, G>, first: F, f: F, env: Env<F, G>)
    ensures var s1 := LoadDialog(s, true, true, Some(first), env.toGray);
            var (s2, _) := Transition(s1, Some(f), env);
            s2.currentPosition == Locate(env.contours(env.toGray(first), env.toGray(f))).0
  {
  }

  /**
   * First-frame gating: starting from a state with no previous position
   * (a fresh analyzer, say), no velocity is reported up to and including the
   * first call that reads a frame, however many calls fail before it.
   */
  lemma {:induction false} NoVelocityUntilFirstRead<F, G>(s: AnalyzerState<F, G>, frames: seq<Option<F>>, env: Env<F, G>, k: nat)
    requires s.previousPosition.None?
    requires k < |frames|
    requires forall i :: 0 <= i < k ==> !RolledForward(Run(s, frames, env).1[i]) && !Run(s, frames, env).1[i].ZeroFrameRate?
    ensures forall i :: 0 <= i <= k ==> !Run(s, frames, env).1[i].Reported?
  {
    var outs := Run(s, frames, env).1;
    var step := Transition(s, frames[0], env);
    var rest := Run(step.0, frames[1..], env);
    assert outs == [step.1] + rest.1;
    assert outs[0] == step.1;
    VelocityNeedsBothPositions(s, frames[0], env);
    if k > 0 {
      FailureLeavesStateUnchanged(s, frames[0], env);
      assert !RolledForward(step.1) && !step.1.ZeroFrameRate?;
      assert step.1.NoVideo? || step.1.ReadFailed?;
      assert step.0 == s;
      forall i | 0 <= i < k - 1
        ensures !RolledForward(rest.1[i]) && !rest.1[i].ZeroFrameRate?
      {
        assert rest.1[i] == outs[i + 1];
      }
      NoVelocityUntilFirstRead(step.0, frames[1..], env, k - 1);
      forall i | 0 < i <= k
        ensures !outs[i].Reported?
      {
        assert outs[i] == rest.1[i - 1];
      }
    }
  }

  /**
   * Once a previous gray frame exists it stays: after any run from such a
   * state, and after any run containing a successful read, detection is armed.
   */
  lemma {:induction false} GrayPersists<F, G>(s: AnalyzerState<F, G>, frames: seq<Option<F>>, env: Env<F, G>)
    requires s.previousGray.Some? || (s.hasCapture && exists i :: 0 <= i < |frames| && frames[i].Some?)
    ensures Run(s, frames, env).0.previousGray.Some?
    decreases |frames|
  {
    if frames != [] {
      var step := Transition(s, frames[0], env);
      if s.previousGray.Some? || (s.hasCapture && frames[0].Some?) {
        assert step.0.previousGray.Some?;
      } else {
        assert step.0 == s;
        var i :| 0 <= i < |frames| && frames[i].Some?;
        assert i > 0;
        assert frames[1..][i - 1].Some?;
      }
      GrayPersists(step.0, frames[1..], env);
    }
  }
}
