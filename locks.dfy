/** The keyboard toggles of the window: Ctrl+Alt+S flips pixel snap,
    Ctrl+Alt+X and Ctrl+Alt+Y lock one cursor axis to the coordinate the
    cursor had when the lock was switched on. */
module Locks {
  import opened Capture

  datatype Key = KeyS | KeyX | KeyY | OtherKey

  datatype Modifier = Shift | Control | Alt | Meta | Keypad | GroupSwitch

  /** The lock and snap state of the window. */
  datatype Toggles = Toggles(
    mouseSnap: bool,
    lockX: bool,
    lockY: bool,
    lockPosX: int,
    lockPosY: int)

  /** The state the window starts in: snap on, both axes unlocked, lock
      coordinates -1. */
  const InitialToggles := Toggles(true, false, false, -1, -1)

  /** A toggle fires only when exactly Control and Alt are held. */
  predicate CtrlAlt(mods: set<Modifier>)
  {
    mods == {Control, Alt}
  }

  /** A key press; `cursor` is where the cursor is when the key goes down.
      It flips exactly the flag of its key (and only with Ctrl+Alt); a lock
      coordinate is stored only when that lock turns on, and it is then the
      cursor's coordinate. */
  function KeyToggle(t: Toggles, key: Key, mods: set<Modifier>, cursor: Point): (r: Toggles)
    ensures r.mouseSnap != t.mouseSnap <==> CtrlAlt(mods) && key == KeyS
    ensures r.lockX != t.lockX <==> CtrlAlt(mods) && key == KeyX
    ensures r.lockY != t.lockY <==> CtrlAlt(mods) && key == KeyY
    ensures r.lockPosX != t.lockPosX ==> r.lockX && !t.lockX && r.lockPosX == cursor.x
    ensures r.lockPosY != t.lockPosY ==> r.lockY && !t.lockY && r.lockPosY == cursor.y
    ensures r.lockX && !t.lockX ==> r.lockPosX == cursor.x
    ensures r.lockY && !t.lockY ==> r.lockPosY == cursor.y
  {
    var hit := CtrlAlt(mods);
    var snap := if hit && key == KeyS then !t.mouseSnap else t.mouseSnap;
    var lx := if hit && key == KeyX then !t.lockX else t.lockX;
    var ly := if hit && key == KeyY then !t.lockY else t.lockY;
    Toggles(snap, lx, ly,
            if hit && key == KeyX && lx then cursor.x else t.lockPosX,
            if hit && key == KeyY && ly then cursor.y else t.lockPosY)
  }

  /** The cursor position a tick works with: while an axis is locked the
      stored coordinate replaces the cursor's, an unlocked axis follows the
      cursor. Pixel snap is not applied here; it affects only the capture
      rectangle. */
  function EffectivePosition(cursor: Point, t: Toggles): (p: Point)
    ensures t.lockX ==> p.x == t.lockPosX
    ensures !t.lockX ==> p.x == cursor.x
    ensures t.lockY ==> p.y == t.lockPosY
    ensures !t.lockY ==> p.y == cursor.y
  {
    Point(if t.lockX then t.lockPosX else cursor.x,
          if t.lockY then t.lockPosY else cursor.y)
  }

  /** Pressing the same toggle twice restores every flag; only the stored
      lock coordinate of that key's axis may have moved, to where the cursor
      was at whichever of the two presses switched the lock on. */
  lemma KeyToggleTwice(t: Toggles, key: Key, mods: set<Modifier>, c1: Point, c2: Point)
    ensures var r := KeyToggle(KeyToggle(t, key, mods, c1), key, mods, c2);
      r.mouseSnap == t.mouseSnap && r.lockX == t.lockX && r.lockY == t.lockY &&
      r.lockPosX == (if CtrlAlt(mods) && key == KeyX
                     then (if t.lockX then c2.x else c1.x) else t.lockPosX) &&
      r.lockPosY == (if CtrlAlt(mods) && key == KeyY
                     then (if t.lockY then c2.y else c1.y) else t.lockPosY)
  {
  }

  /** Locking X with the cursor at `c` pins the X coordinate of every later
      tick to `c.x` until X is unlocked again. */
  lemma LockPinsCursor(t: Toggles, mods: set<Modifier>, c: Point, later: Point)
    requires CtrlAlt(mods) && !t.lockX
    ensures EffectivePosition(later, KeyToggle(t, KeyX, mods, c)).x == c.x
    ensures EffectivePosition(later, KeyToggle(t, KeyX, mods, c)).y
         == EffectivePosition(later, t).y
  {
  }
}
