/** The RetroGrab capture window without its widgets: the per-tick capture,
    look-ahead and commit step, the recording toggle with its start delay,
    the keyboard lock and snap toggles, the frame-range sliders' effect on
    the preview index, and the export of recorded frames.

    What the program gets from outside is passed in: the cursor position,
    the settings read at the start of a tick, the screen grabber (a function
    from the requested rectangle to the captured image, already scaled to
    the viewport width), QPixmap::copy (a function from an image and a
    rectangle to the cropped image), and for an export the directory's
    existing file names, whether the path exists or could be created, and
    the user's answer to the overwrite question. */
module RetroGrab {
  import opened Capture
  import opened Locks
  import opened LookAhead
  import opened Scrub
  import opened FrameNames

  datatype Option<T> = None | Some(value: T)

  datatype ExportOutcome = PathNotCreated | OverwriteDeclined | Completed

  /** The one-shot delay between pressing "Start Recording" and recording. */
  const RecordDelayMs := 5000

  /** The capture timer's interval for a frame rate: `1000 / fps` in whole
      milliseconds, rounded down. An fps of 0 is a C++ division by zero
      and is not modelled. */
  function TickInterval(fps: int): (ms: int)
    requires fps >= 1
    ensures 0 <= ms
    ensures ms * fps <= 1000 < (ms + 1) * fps
  {
    1000 / fps
  }

  class Window {
    var recording: bool
    /** Declared next to `recording` but never set by any code. */
    var shiftRecording: bool
    /** Whether the one-shot delay timer is running. */
    var delayPending: bool
    const delayMs: int
    /** The interval the capture timer was last started with. */
    var tickIntervalMs: int
    /** The preview index over the recorded frames. */
    var frameIdx: nat
    var frames: seq<Image>
    var backBufferPixmap: seq<Image>
    var backBufferMouse: seq<Point>
    var lockX: bool
    var lockY: bool
    var mouseSnap: bool
    var lockPosX: int
    var lockPosY: int
    /** The values of the first-frame and last-frame sliders. */
    var firstFrame: nat
    var lastFrame: nat

    /** The two look-ahead buffers stay in step, and the window is never
        both recording and waiting for the delay. */
    ghost predicate Valid()
      reads this
    {
      |backBufferPixmap| == |backBufferMouse| && !(recording && delayPending)
    }

    function LockState(): Toggles
      reads this
    {
      Toggles(mouseSnap, lockX, lockY, lockPosX, lockPosY)
    }

    /** The initial state: not recording, no frames, empty buffers, snap on,
        no lock, lock coordinates -1, both frame sliders at 0, the delay set
        to five seconds and the capture timer to `1000 / fps`. */
    constructor (fps: int)
      requires fps >= 1
      ensures Valid()
      ensures !recording && !shiftRecording && !delayPending
      ensures delayMs == RecordDelayMs && tickIntervalMs == TickInterval(fps)
      ensures frames == [] && frameIdx == 0
      ensures backBufferPixmap == [] && backBufferMouse == []
      ensures LockState() == InitialToggles
      ensures firstFrame == 0 && lastFrame == 0
    {
      recording, shiftRecording, delayPending := false, false, false;
      delayMs := RecordDelayMs;
      tickIntervalMs := 1000 / fps;
      frameIdx, frames := 0, [];
      backBufferPixmap, backBufferMouse := [], [];
      lockX, lockY, mouseSnap := false, false, true;
      lockPosX, lockPosY := -1, -1;
      firstFrame, lastFrame := 0, 0;
    }

    /** One capture tick. Returns the rectangle requested from the screen
        grabber and the recorded frame shown in the preview, if any. */
    method Tick(cursor: Point, cfg: Settings, capture: Rect -> Image, copy: (Image, Rect) -> Image)
      returns (request: Rect, shown: Option<Image>)
      requires Valid()
      requires cfg.divider >= 1 && cfg.backBuffer >= 1
      modifies this`backBufferPixmap, this`backBufferMouse, this`frames, this`frameIdx
      ensures Valid()
      // capture around the locked cursor, and push the sample on both buffers
      ensures var pos := EffectivePosition(cursor, old(LockState()));
        request == CaptureRect(pos, old(mouseSnap), cfg) &&
        backBufferPixmap == Push(old(backBufferPixmap), capture(request), cfg.backBuffer) &&
        backBufferMouse == Push(old(backBufferMouse), pos, cfg.backBuffer)
      ensures |old(backBufferPixmap)| <= cfg.backBuffer ==> |backBufferPixmap| <= cfg.backBuffer
      // commit a crop of the oldest sample, corrected by the cursor movement
      ensures var pos := EffectivePosition(cursor, old(LockState()));
        if recording && |backBufferPixmap| >= cfg.backBuffer then
          var grab := copy(backBufferPixmap[0], CropRect(cfg, pos, backBufferMouse[0]));
          frames == old(frames) + (if HasGrabSize(grab, cfg) then [grab] else [])
        else
          frames == old(frames)
      // advance the preview index, reading a frame only below the count
      ensures |frames| == 0 ==> frameIdx == old(frameIdx) && shown == None
      ensures |frames| > 0 ==>
        var i := ScrubIndex(old(frameIdx), |frames|, firstFrame, lastFrame);
        frameIdx == i + 1 &&
        shown == (if i < |frames| then Some(frames[i]) else None)
    {
      var pos := EffectivePosition(cursor, LockState());
      request := CaptureRect(pos, mouseSnap, cfg);
      var viewportGrab := capture(request);
      PushSample(viewportGrab, pos, cfg.backBuffer);
      CommitFrame(pos, cfg, copy);
      shown := AdvancePreview();
    }

    /** The buffer step of a tick: push the sample and its cursor position
        at the back of both buffers, then pop the front of both if they
        have grown past the look-ahead depth. */
    method PushSample(viewportGrab: Image, pos: Point, backBufferLength: int)
      requires Valid() && backBufferLength >= 1
      modifies this`backBufferPixmap, this`backBufferMouse
      ensures Valid()
      ensures backBufferPixmap == Push(old(backBufferPixmap), viewportGrab, backBufferLength)
      ensures backBufferMouse == Push(old(backBufferMouse), pos, backBufferLength)
      ensures |backBufferPixmap| == |backBufferMouse| >= 1
      ensures |old(backBufferPixmap)| <= backBufferLength ==> |backBufferPixmap| <= backBufferLength
    {
      backBufferPixmap := backBufferPixmap + [viewportGrab];
      backBufferMouse := backBufferMouse + [pos];
      if |backBufferPixmap| > backBufferLength {
        backBufferPixmap := backBufferPixmap[1..];
        backBufferMouse := backBufferMouse[1..];
      }
    }

    /** The commit step of a tick: while recording with a full buffer, crop
        the grab out of the oldest sample, shifted by the cursor movement
        since it was taken, and keep it only if it has the grab size. */
    method CommitFrame(pos: Point, cfg: Settings, copy: (Image, Rect) -> Image)
      requires cfg.divider >= 1
      requires Valid() && |backBufferPixmap| >= 1
      modifies this`frames
      ensures Valid()
      ensures if recording && |backBufferPixmap| >= cfg.backBuffer then
          var grab := copy(backBufferPixmap[0], CropRect(cfg, pos, backBufferMouse[0]));
          frames == old(frames) + (if HasGrabSize(grab, cfg) then [grab] else [])
        else
          frames == old(frames)
      ensures |old(frames)| <= |frames| <= |old(frames)| + 1
      ensures frames[..|old(frames)|] == old(frames)
      ensures |frames| > |old(frames)| ==> HasGrabSize(frames[|frames| - 1], cfg)
    {
      if recording && |backBufferPixmap| >= cfg.backBuffer {
        var grab := copy(backBufferPixmap[0], CropRect(cfg, pos, backBufferMouse[0]));
        if grab.width == cfg.grabWidth && grab.height == cfg.grabHeight {
          frames := frames + [grab];
        }
      }
    }

    /** The preview step of a tick: with at least one frame, restart the
        index at the first-frame value when it has passed the count or the
        last-frame value, show the frame at the index if there is one, and
        move the index on by one. */
    method AdvancePreview() returns (shown: Option<Image>)
      requires Valid()
      modifies this`frameIdx
      ensures Valid()
      ensures |frames| == 0 ==> frameIdx == old(frameIdx) && shown == None
      ensures |frames| > 0 ==>
        var i := ScrubIndex(old(frameIdx), |frames|, firstFrame, lastFrame);
        frameIdx == i + 1 &&
        shown == (if i < |frames| then Some(frames[i]) else None)
    {
      shown := None;
      if |frames| > 0 {
        if frameIdx > |frames| || frameIdx > lastFrame {
          frameIdx := firstFrame;
        }
        if frameIdx < |frames| {
          shown := Some(frames[frameIdx]);
        }
        frameIdx := frameIdx + 1;
      }
    }

    /** The record button. While recording it stops: the frames are kept and
        the sliders are set to the range 0 .. count; every slider value that
        changes emits valueChanged, which resets the preview index to the
        first-frame value (then 0). While not recording it clears the frames
        and (re)starts the delay; recording itself begins only when the
        delay fires. */
    method ToggleRecording()
      requires Valid()
      modifies this
      ensures Valid()
      ensures old(recording) ==>
        !recording && !delayPending &&
        frames == old(frames) &&
        firstFrame == 0 && lastFrame == |frames| &&
        frameIdx == (if old(firstFrame) != 0 || old(lastFrame) != |old(frames)|
                     then 0 else old(frameIdx))
      ensures !old(recording) ==>
        !recording && delayPending && frames == [] &&
        firstFrame == old(firstFrame) && lastFrame == old(lastFrame) &&
        frameIdx == old(frameIdx)
      ensures backBufferPixmap == old(backBufferPixmap) && backBufferMouse == old(backBufferMouse)
      ensures LockState() == old(LockState())
      ensures shiftRecording == old(shiftRecording) && tickIntervalMs == old(tickIntervalMs)
    {
      if recording {
        recording := false;
        delayPending := false;
        var slidersMove := firstFrame != 0 || lastFrame != |frames|;
        firstFrame := 0;
        lastFrame := |frames|;
        if slidersMove {
          frameIdx := firstFrame;
        }
      } else {
        frames := [];
        delayPending := true;
      }
    }

    /** The delay timer's timeout: recording starts. The timer is single
        shot, so it fires only while it is pending. */
    method StartRecording()
      requires Valid() && delayPending
      modifies this
      ensures Valid()
      ensures recording && !delayPending
      ensures frames == old(frames) && frameIdx == old(frameIdx)
      ensures backBufferPixmap == old(backBufferPixmap) && backBufferMouse == old(backBufferMouse)
      ensures LockState() == old(LockState())
      ensures firstFrame == old(firstFrame) && lastFrame == old(lastFrame)
      ensures shiftRecording == old(shiftRecording) && tickIntervalMs == old(tickIntervalMs)
    {
      delayPending := false;
      recording := true;
    }

    /** A key press: Ctrl+Alt+S, X or Y flips snap or a lock; turning a lock
        on stores the cursor's coordinate for that axis. */
    method KeyPress(key: Key, mods: set<Modifier>, cursor: Point)
      requires Valid()
      modifies this
      ensures Valid()
      ensures LockState() == KeyToggle(old(LockState()), key, mods, cursor)
      ensures recording == old(recording) && delayPending == old(delayPending)
      ensures frames == old(frames) && frameIdx == old(frameIdx)
      ensures backBufferPixmap == old(backBufferPixmap) && backBufferMouse == old(backBufferMouse)
      ensures firstFrame == old(firstFrame) && lastFrame == old(lastFrame)
      ensures shiftRecording == old(shiftRecording) && tickIntervalMs == old(tickIntervalMs)
    {
      if key == KeyS && CtrlAlt(mods) {
        mouseSnap := !mouseSnap;
      }
      if key == KeyX && CtrlAlt(mods) {
        lockX := !lockX;
        if lockX {
          lockPosX := cursor.x;
        }
      }
      if key == KeyY && CtrlAlt(mods) {
        lockY := !lockY;
        if lockY {
          lockPosY := cursor.y;
        }
      }
    }

    /** The fps slider restarts the capture timer. */
    method SetFps(fps: int)
      requires Valid() && fps >= 1
      modifies this`tickIntervalMs
      ensures Valid() && tickIntervalMs == TickInterval(fps)
    {
      tickIntervalMs := 1000 / fps;
    }

    /** The preview restarts at the first-frame slider value. */
    method ResetFrameIdx()
      requires Valid()
      modifies this`frameIdx
      ensures Valid() && frameIdx == firstFrame
    {
      frameIdx := firstFrame;
    }

    /** The user moves the first-frame slider; its valueChanged signal
        resets the preview index. */
    method FirstFrameChanged(value: nat)
      requires Valid()
      modifies this`firstFrame, this`frameIdx
      ensures Valid() && firstFrame == value && frameIdx == value
    {
      firstFrame := value;
      ResetFrameIdx();
    }

    /** The user moves the last-frame slider; its valueChanged signal
        resets the preview index too. */
    method LastFrameChanged(value: nat)
      requires Valid()
      modifies this`lastFrame, this`frameIdx
      ensures Valid() && lastFrame == value && frameIdx == firstFrame
    {
      lastFrame := value;
      ResetFrameIdx();
    }
  }

  /** The file the export writes for frame `idx`: the padded-index path
      and the frame, which is entry `idx - lo` of the plan for lo .. hi - 1. */
  method FrameFile(path: string, frames: seq<Image>, idx: nat, ghost lo: nat, ghost hi: nat)
    returns (file: SavedFile)
    requires lo <= idx < hi <= |frames|
    ensures file.name == FrameFileName(path, idx) && file.frame == frames[idx]
    ensures |Planned(path, frames, lo, hi)| == hi - lo
    ensures file == Planned(path, frames, lo, hi)[idx - lo]
  {
    var zeros := PadIndex(idx);
    var currentFrame := DirPrefix(path) + "frame" + zeros + ".png";
    file := SavedFile(currentFrame, frames[idx]);
    PlannedAt(path, frames, lo, hi, idx - lo);
  }

  /** The export button. `files` are the names that exist before the
      export, `dir` those that exist after it, `saved` the files written
      in order, and `asked` whether the overwrite question was put.
      Frames from the first-frame slider value up to the last-frame value
      (or the end of the list) are written; the question can only come
      for the first of them, and a "no" writes nothing. Files are written
      over, never deleted. When the directory did not exist and mkpath
      creates it, `files` is what the new directory holds, which is
      nothing; the contract holds for any `files`. */
  method ExportFrames(frames: seq<Image>, firstFrame: nat, lastFrame: nat,
                      path: string, pathExists: bool, mkpathOk: bool,
                      overwriteAsk: bool, files: set<string>, confirm: bool)
    returns (outcome: ExportOutcome, asked: bool, saved: seq<SavedFile>, dir: set<string>)
    ensures files <= dir
    ensures !pathExists && !mkpathOk ==>
      outcome == PathNotCreated && !asked && saved == [] && dir == files
    ensures pathExists || mkpathOk ==>
      var plan := Planned(path, frames, firstFrame, ExportEnd(lastFrame, |frames|));
      asked == (overwriteAsk && |plan| > 0 && plan[0].name in files) &&
      if asked && !confirm then
        outcome == OverwriteDeclined && saved == [] && dir == files
      else
        outcome == Completed && saved == plan && dir == files + Names(plan)
  {
    asked, saved, dir := false, [], files;
    if !pathExists && !mkpathOk {
      outcome := PathNotCreated;
      return;
    }
    outcome := Completed;
    ghost var end := ExportEnd(lastFrame, |frames|);
    ghost var plan := Planned(path, frames, firstFrame, end);
    PlannedLength(path, frames, firstFrame, end);
    ghost var n: nat := 0;
    WrittenStart(files, plan);
    var ask := overwriteAsk;
    var idx: nat := 0;
    // the loop of the source ends with `break`, after which nothing else
    // runs; each `break` is written as a `return`
    while idx < |frames|
      invariant idx <= |frames| && idx <= lastFrame
      invariant n == (if idx <= firstFrame then 0 else idx - firstFrame)
      invariant Written(files, plan, n, saved, dir)
      invariant ask == (overwriteAsk && idx <= firstFrame)
      invariant asked == (overwriteAsk && n > 0 && plan[0].name in files)
      invariant asked ==> confirm
      invariant outcome == Completed
    {
      if idx >= firstFrame {
        var file := FrameFile(path, frames, idx, firstFrame, end);
        var currentFrame := file.name;
        WrittenFacts(files, plan, n, saved, dir);
        if currentFrame in dir && ask {
          asked := true;
          if !confirm {
            outcome := OverwriteDeclined;
            return;
          }
        }
        ask := false;
        WrittenStep(files, plan, n, saved, dir);
        saved := saved + [file];
        dir := dir + {currentFrame};
        n := n + 1;
      }
      if idx >= lastFrame {
        WrittenFacts(files, plan, n, saved, dir);
        return;
      }
      idx := idx + 1;
    }
    WrittenFacts(files, plan, n, saved, dir);
  }
}
