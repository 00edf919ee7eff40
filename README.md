# RetroGrab capture window, modelled in Dafny

RetroGrab samples the screen around the mouse cursor on a timer. It shows a
zoomed live preview. While recording, it crops a small fixed-size "grab" out
of each sample, so that it can later export the recorded grabs as numbered
PNG files. The grab is taken from a sample captured a few ticks earlier (the
look-ahead buffer) and shifted by the cursor movement since then. That way
the grab follows the same on-screen target.

This project models the `Window` class of `src/window.cpp` without its
widgets:

- the capture tick (`timerEvent`): the lock-adjusted cursor, pixel snap, the
  capture rectangle, the two look-ahead buffers, the commit of a cropped
  frame, and the recorded-frame preview with its cyclic index;
- the record button with its five-second start delay (`initRecording`,
  `startRecording`);
- the keyboard toggles Ctrl+Alt+S / X / Y (`keyPressEvent`);
- the frame-range sliders and their reset of the preview index
  (`resetFrameIdx`);
- the frame-rate slider (`setFps`);
- the export of recorded frames (`exportFrames`).

The modules follow the program's concerns:

| module | file | what it holds |
|---|---|---|
| `CppInt` | cpp_int.dfy | C++ integer `/` and `%`, which truncate toward zero, over Dafny's Euclidean integers |
| `Capture` | capture.dfy | points, rectangles, images, the per-tick settings, pixel snap, the capture rectangle and the crop rectangle |
| `LookAhead` | look_ahead.dfy | the push-then-pop-one buffer step and its sliding-window property |
| `Scrub` | scrub.dfy | the preview index and its cycle |
| `Locks` | locks.dfy | the snap and lock toggles and the lock-adjusted cursor |
| `FrameNames` | frame_names.dfy | export file names and the plan of which files an export writes |
| `RetroGrab` | window.dfy | the `Window` class with its fields and event handlers, and the export |

What the program takes from outside becomes a parameter:

- the cursor position;
- the settings read at the start of a tick;
- the screen grabber (`grabWindow` followed by `scaledToWidth`), as a
  function from the requested rectangle to an image;
- `QPixmap::copy`, as a function from an image and a rectangle to an image;
- for an export: the names already in the directory, whether the path exists
  or could be created, and the user's answer to the overwrite question.

An image is its size plus an opaque stand-in for its pixels.

Some behaviour of the code is easy to misread, and the model keeps it as
written:

- **Buffer pop:** a tick pops at most one element from the look-ahead
  buffers (`src/window.cpp:143-146`), so the buffers never shrink. After
  the look-ahead setting is lowered by any amount, they keep their old
  length. A commit then crops from the sample |buf| − 1 ticks back
  rather than cap − 1.
- **Record button while waiting:** the code does not cancel the delay. It
  clears the frames and restarts the delay (`src/window.cpp:188-192`), so
  there is no "armed to idle" transition.
- **Export range and overwrites:** export writes only the frames from the
  first-frame slider value to the last-frame slider value
  (`src/window.cpp:213-233`). It never deletes files. It asks about
  overwriting only when the first file it would write already exists, and
  it never asks again in that export.
- **Features the code lacks:** there is no snap-alignment offset, no
  key-hold recording, and no clear-frames command. `clearFrames` and
  `keyReleaseEvent` are declared in `src/window.h:53,60` but have no
  definition, and `shiftRecording` is never set.
- **Preview index:** the preview does not wrap to 0 at the end of the
  frame list. It restarts at the first-frame slider value once the index
  passes the frame count or the last-frame slider value
  (`src/window.cpp:167-170`).
- **Snap uses the C++ remainder:** the snap subtracts the C++ remainder,
  which has the sign of the coordinate. A snapped coordinate is therefore a
  multiple of the divider on both sides of zero, but it moves toward zero.

## Model

| member | source | states |
|---|---|---|
| CppInt.TruncDiv | src/window.cpp:156-157 | the quotient is truncated toward zero: q·b is the multiple of b nearest to a on a's side of zero, at most one b away |
| CppInt.TruncRem | src/window.cpp:135-136 | the remainder has the sign of the dividend, is smaller than the divisor in magnitude, and differs from the dividend by a multiple of the divisor |
| CppInt.TruncDivExactMultiple | src/window.cpp:135-136 | an exact multiple of the divisor is divided without truncation, for negative multiples too |
| Capture.SnapCoord | src/window.cpp:135-136 | with snap on, the result is a multiple of the divider, less than one divider away from the coordinate, and between 0 and the coordinate; with snap off it is the coordinate |
| Capture.SnapIdempotent | src/window.cpp:135-136 | snapping a snapped coordinate again changes nothing |
| Capture.CaptureRect | src/window.cpp:134-139 | the requested size is the viewport size times the divider, the rectangle's centre is within half a pixel of the snapped cursor, and the half-size subtraction truncates toward zero, never floors |
| Capture.CaptureRectCentred | src/window.cpp:134-138 | with an even capture width, the snapped cursor is exactly the centre |
| Capture.CaptureRectAligned | src/window.cpp:135-138 | with snap on and an even viewport width, the left edge of the capture is a multiple of the divider |
| Capture.CropOrigin | src/window.cpp:156-157 | the crop origin times the divider is less than one divider away from the grab-centred offset plus the cursor movement since the oldest sample, and lies between 0 and that exact offset (truncation toward zero) |
| Capture.CropRect | src/window.cpp:156-159 | the crop has the grab size, and without cursor movement it is the grab-sized rectangle centred in the viewport |
| Capture.CropOriginStill | src/window.cpp:156-157 | without cursor movement, the crop is the grab-sized rectangle centred in the viewport |
| Capture.CropOriginFollowsCursor | src/window.cpp:156-157 | a cursor movement of k dividers moves the crop by exactly k pixels |
| LookAhead.PushShape | src/window.cpp:140-146 | the sample goes to the back; at most the front element is dropped; a buffer below capacity only grows; a buffer within capacity stays within it |
| LookAhead.PushSlides | src/window.cpp:140-146 | one push keeps a buffer holding the last `cap` samples of everything pushed so far |
| LookAhead.SlidingWindow | src/window.cpp:140-146 | starting within capacity, after any number of ticks the buffer is exactly the last `cap` samples pushed (or all of them while there are fewer) |
| LookAhead.OverfullKeepsLength | src/window.cpp:140-146 | a buffer at or over capacity keeps its length under any run of ticks, holding exactly the last |buf| samples pushed |
| LookAhead.OldestIsCapTicksBack | src/window.cpp:154-157 | once the buffer is full, its front (the sample a commit crops from) was pushed `cap - 1` ticks before the newest |
| Scrub.ScrubIndex | src/window.cpp:167-170 | the preview reads the current index while it is at most both the frame count and the last slider value, and restarts at the first slider value otherwise |
| Scrub.ScrubStaysInWindow | src/window.cpp:166-175 | from inside the slider window, the frame read lies in the window, a frame shown lies within both the frame list and the last slider value, and the stored index stays in the window |
| Scrub.ScrubCountsUp | src/window.cpp:166-175 | inside the window, the index counts up by one per tick |
| Scrub.ScrubWrapsAround | src/window.cpp:166-175 | the preview is cyclic, with period min(last, count) − first + 1 |
| Locks.KeyToggle | src/window.cpp:247-270 | a key flips exactly its own flag, and only with exactly Ctrl+Alt held; a lock coordinate changes only when its lock turns on, and then it is the cursor's coordinate |
| Locks.EffectivePosition | src/window.cpp:114-120 | a locked axis takes the stored coordinate; an unlocked axis follows the cursor |
| Locks.KeyToggleTwice | src/window.cpp:249-269 | pressing a toggle twice restores every flag; only that axis's stored coordinate may have moved, to the cursor at the press that switched the lock on |
| Locks.LockPinsCursor | src/window.cpp:254-261 | after Ctrl+Alt+X, every later tick's X is the X at the press, and Y is untouched |
| FrameNames.Digits | src/window.cpp:214 | the decimal text of a number has at least one digit, no leading zero, and reads back as the number |
| FrameNames.LeadingZerosIgnored | src/window.cpp:215-217 | prepending '0's does not change the number a digit string denotes |
| FrameNames.PadSixShape | src/window.cpp:214-217 | the padded index is at least six characters long, ends in the decimal text, has only '0's before it, and reads back as the index |
| FrameNames.PadIndex | src/window.cpp:214-217 | the prepend-'0' loop produces exactly the padded index: at least six digits that read back as the index |
| FrameNames.DirPrefix | src/window.cpp:218 | the directory prefix ends in '/': it is the path itself when that already ends in '/', and otherwise the path with one '/' added |
| FrameNames.FrameFileName | src/window.cpp:218 | a frame's file name starts with the directory prefix, ends in `.png`, and is at least 15 characters longer than the prefix |
| FrameNames.FrameFileNameInjective | src/window.cpp:218 | two indices share a file name if and only if they are equal |
| FrameNames.FrameFileNameExample | src/window.cpp:203-218 | frame 2 in the default directory goes to `./export/frame000002.png` |
| FrameNames.ExportEnd | src/window.cpp:212-233 | the export stops at min(last slider value + 1, frame count): the end is at most both, and equal to one of them |
| FrameNames.PlanWithAt | src/window.cpp:212-228 | entry k of a plan from index lo is frame lo + k under the name given to lo + k |
| FrameNames.PlanWithDistinct | src/window.cpp:212-228 | a plan whose naming gives distinct indices distinct names has no two files with the same name |
| FrameNames.PlannedIsContiguous | src/window.cpp:212-233 | an export plan covers the indices from the first to the end, each once and in order, each frame under its own file name |
| FrameNames.PlannedNamesDistinct | src/window.cpp:212-228 | no two files of an export plan share a name, so an export never writes one of its frames over another |
| FrameNames.WrittenStep | src/window.cpp:227-228 | writing the next planned file extends the files written by that file and the directory by its name |
| RetroGrab.TickInterval | src/window.cpp:239 | the timer interval is the largest whole number of milliseconds whose `fps` ticks fit in one second |
| RetroGrab.Window.constructor | src/window.h:64-83 | the window starts not recording, with no frames, empty buffers, snap on, no lock, lock coordinates −1, both frame sliders at 0, a five-second delay and the timer at `1000 / fps` |
| RetroGrab.Window.Tick | src/window.cpp:112-176 | the capture is requested around the lock-adjusted, snapped cursor; both buffers take the push step; while recording with a full buffer the crop of the oldest sample is appended when it has the grab size; with frames present the preview reads at the scrub index, shows a frame only below the count, and stores the next index |
| RetroGrab.Window.PushSample | src/window.cpp:140-146 | both buffers take the push step, stay in step and stay within capacity |
| RetroGrab.Window.CommitFrame | src/window.cpp:154-164 | a frame is appended only while recording with a full buffer; it is the crop of the oldest sample; the frame list only grows, by at most one frame of the grab size |
| RetroGrab.Window.AdvancePreview | src/window.cpp:166-175 | with frames present the index restarts at the first slider value past the count or the last slider value, a frame is shown only below the count, and the index moves on by one |
| RetroGrab.Window.ToggleRecording | src/window.cpp:178-193 | stopping keeps the frames, sets the sliders to 0 and the count, and resets the preview index to 0 exactly when a slider value changed; otherwise it clears the frames and starts the delay without recording |
| RetroGrab.Window.StartRecording | src/window.cpp:195-199 | the delay's timeout starts recording and changes nothing else |
| RetroGrab.Window.KeyPress | src/window.cpp:247-270 | the lock and snap state becomes the key toggle of the old state; nothing else changes |
| RetroGrab.Window.SetFps | src/window.cpp:237-240 | the timer interval becomes `1000 / fps` |
| RetroGrab.Window.ResetFrameIdx | src/window.cpp:242-245 | the preview index becomes the first slider value |
| RetroGrab.Window.FirstFrameChanged | src/window.cpp:62-63 | moving the first-frame slider stores its value and restarts the preview there |
| RetroGrab.Window.LastFrameChanged | src/window.cpp:64-65 | moving the last-frame slider stores its value and restarts the preview at the first slider value |
| RetroGrab.FrameFile | src/window.cpp:214-218 | the file for a frame has that frame's name and image, and it is that frame's entry of the export plan |
| RetroGrab.ExportFrames | src/window.cpp:201-235 | a path that neither exists nor can be created writes nothing; otherwise the question is asked exactly when overwrite asking is on and the first planned file exists; a "no" writes nothing, and otherwise exactly the planned files are written, in order, and their names join the directory |

## Left out

- Pixels: images are compared by size and an opaque content tag. Scaling,
  the preview outline (`src/window.cpp:147-152`) and the 4× magnified
  display are not modelled.
- The screen grabber, `QPixmap::copy` and `QFileInfo::exists`/`mkpath` are
  parameters. What they return for rectangles off screen is theirs to
  decide, and the model keeps whatever they return.
- The result of `frame.save` is ignored by the code and not modelled; every
  planned file is taken as written.
- Message boxes are not modelled. The answer to the overwrite question is a
  parameter, and a "no" is the only case that cancels.
- Timers are not modelled as clocks. The delay is a `delayPending` flag
  whose timeout is `StartRecording`, and the capture timer is its interval.
- QSettings is not modelled: each tick takes a settings value, and an
  export takes the path and the overwrite setting.
- Widgets and the window geometry are not modelled: labels, buttons,
  layout, `saveGeometry`/`restoreGeometry`, and `src/main.cpp`.
- Slider widgets are not modelled: their ranges and clamping are left out,
  and only their values are fields of the window.
- Capture.CaptureRect: the divider is read as a double. The model takes it
  as a positive integer, so `(int)scaleDivider` is the divider itself. A
  line edit of a slider writes `text.toInt()` to the setting without
  clamping (`src/slider.cpp:78-86`). Its validator lets the intermediate
  texts "" and "0" through, so every slider setting can be 0.
- RetroGrab.Window.Tick: it requires a divider and a look-ahead of at
  least 1. A divider of 0 (an emptied scale box) makes the snap at
  `src/window.cpp:135-136` divide by zero, which has no defined result in
  C++. A look-ahead of 0 is handled by the code: the buffers keep their
  length (`src/window.cpp:143-146`) and every recording tick commits
  (`src/window.cpp:154-155`). It is left out because a buffer that starts
  empty then stays empty, and the commit reads the front of an empty list.
- RetroGrab.Window.SetFps: it requires fps of at least 1. An emptied FPS
  box calls `setFps(0)` (`src/window.cpp:68`), and `1000 / fps` at
  `src/window.cpp:239` then divides by zero.
- RetroGrab.Window.constructor: it requires fps of at least 1. A stored fps
  setting of 0 makes `src/window.cpp:104` divide by zero.
- RetroGrab.TickInterval: it requires fps of at least 1, for the same
  division by zero.
- RetroGrab.ExportFrames: it takes the window's frames and slider values as
  arguments. It reads no other window state and changes none. The frame list
  is a fixed snapshot, but the code's is not. The overwrite question
  (`src/window.cpp:221`) runs a nested event loop, in which the capture
  timer can still append to `frames` (`src/window.cpp:162`) while the
  range-for over it (`src/window.cpp:212`) is suspended. Frames appended
  then are not in the model's export, and the model does not capture that
  such an append can reallocate the list under the loop's iterator.
- RetroGrab.Window.Tick: the fields a tick does not touch are fixed by its
  `modifies` clause rather than stated one by one.
