/**
 * `BirdVelocityAnalyzer` as a class whose fields the methods update in
 * place, in the order the source assigns them. Each method's new state is
 * the corresponding transition of module `Tracking` applied to the old one.
 * `F` is the type of a colour frame, `G` that of a processed gray frame.
 */
module Analyzer {
  import opened Wrappers
  import opened Detection
  import opened Velocity
  import opened Tracking

  class BirdVelocityAnalyzer<F, G> {
    var hasCapture: bool
    var currentFrame: Option<F>
    var previousGray: Option<G>
    var previousPosition: Option<Position>
    var currentPosition: Option<Position>

    /** The tracking fields as one value. */
    function Snapshot(): AnalyzerState<F, G>
      reads this
    {
      AnalyzerState(hasCapture, currentFrame, previousGray, previousPosition, currentPosition)
    }

    /** Every field starts out empty. */
    constructor ()
      ensures Snapshot() == Initial()
    {
      hasCapture := false;
      currentFrame := None;
      previousGray := None;
      previousPosition := None;
      currentPosition := None;
    }

    /**
     * `load_video`: the capture is stored whether or not it opened, and the
     * result says whether it did.
     */
    method LoadVideo(isOpened: bool) returns (ok: bool)
      modifies this`hasCapture
      ensures hasCapture && ok == isOpened
    {
      hasCapture := true;
      ok := isOpened;
    }

    /**
     * `load_video_dialog`: `selected` is whether a file was chosen,
     * `isOpened` whether it opened, `first` what reading its first frame gave.
     */
    method LoadVideoDialog(selected: bool, isOpened: bool, first: Option<F>, toGray: F -> G)
      modifies this
      ensures Snapshot() == LoadDialog(old(Snapshot()), selected, isOpened, first, toGray)
    {
      if !selected {
        return;
      }
      var ok := LoadVideo(isOpened);
      if ok && first.Some? {
        previousGray := Some(toGray(first.value));
      }
    }

    /**
     * `find_bird_position`: detects against the stored gray frame and, as a
     * side effect, replaces it with the gray of the new frame.
     */
    method FindBirdPosition(frame: F, env: Env<F, G>) returns (position: Option<Position>, bbox: Option<Rect>)
      requires previousGray.Some?
      modifies this`previousGray
      ensures previousGray == Some(env.toGray(frame))
      ensures (position, bbox) == Locate(env.contours(old(previousGray).value, env.toGray(frame)))
    {
      var gray := env.toGray(frame);
      var contours := env.contours(previousGray.value, gray);
      previousGray := Some(gray);
      position, bbox := Locate(contours).0, Locate(contours).1;
    }

    /**
     * `process_frame`: `read` is what the capture returned for the requested
     * frame; the fields are assigned in the source's order.
     */
    method ProcessFrame(read: Option<F>, env: Env<F, G>) returns (outcome: Outcome)
      modifies this
      ensures (Snapshot(), outcome) == Transition(old(Snapshot()), read, env)
    {
      if !hasCapture {
        return NoVideo;
      }
      if read.None? {
        return ReadFailed;
      }
      var frame := read.value;
      currentFrame := Some(frame);
      var velocity: Option<real> := None;
      if previousGray.Some? {
        var position, bbox := FindBirdPosition(frame, env);
        currentPosition := position;
        if previousPosition.Some? && currentPosition.Some? {
          if env.fps == 0.0 {
            return ZeroFrameRate;
          }
          velocity := Some(CalculateVelocity(previousPosition, currentPosition, env.fps, env.sqrt));
        }
        if bbox.Some? {
          // the frame read and the current frame are one array: the box drawn is in both
          frame := env.draw(frame, bbox.value);
          currentFrame := Some(frame);
        }
      }
      previousPosition := currentPosition;
      previousGray := Some(env.toGray(frame));
      outcome := if velocity.Some? then Reported(velocity.value) else StatusTextUnbound;
    }
  }

  /**
   * A client of the class: a fresh analyzer, a video loaded and seeded from
   * its first frame, and two reads. The first read finds the bird but cannot
   * yet report a velocity, and draws its box into the first frame read; the
   * second compares against the gray of that drawn-on frame and reports the
   * velocity between the two detected positions.
   */
  method TrackTwoFrames<F, G>(first: F, f1: F, f2: F, env: Env<F, G>) returns (o1: Outcome, o2: Outcome)
    requires env.fps != 0.0
    requires Locate(env.contours(env.toGray(first), env.toGray(f1))).0.Some?
    requires var drawn1 := Annotate(f1, Locate(env.contours(env.toGray(first), env.toGray(f1))).1, env.draw);
             Locate(env.contours(env.toGray(drawn1), env.toGray(f2))).0.Some?
    ensures o1 == StatusTextUnbound
    ensures var found1 := Locate(env.contours(env.toGray(first), env.toGray(f1)));
            var drawn1 := Annotate(f1, found1.1, env.draw);
            o2 == Reported(CalculateVelocity(found1.0, Locate(env.contours(env.toGray(drawn1), env.toGray(f2))).0,
                                             env.fps, env.sqrt))
  {
    var a := new BirdVelocityAnalyzer<F, G>();
    a.LoadVideoDialog(true, true, Some(first), env.toGray);
    o1 := a.ProcessFrame(Some(f1), env);
    o2 := a.ProcessFrame(Some(f2), env);
  }
}
