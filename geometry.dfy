/**
 * The geometry rules of a note window (stickynotes/gui.go): the defaults of
 * `buildNote`, where `UpdateNote` takes position and size from, what
 * `Properties` reports, and the GTK fallback of `onConfigure`.
 *
 * Two sources report a window's geometry: the toolkit (`GetPosition` /
 * `GetSize`, which report (0,0) as the position on Wayland) and the
 * extension's `Details` for a known window ID.
 */
module Geometry {
  import opened Wrappers
  import opened Values
  import opened WindowCalls

  /** `[2]int`: a position (x, y) or a size (width, height). */
  type Point = (int, int)

  /** `absInt` */
  function AbsInt(x: int): (r: int)
    ensures 0 <= r
    ensures r == x || r == -x
  {
    if x < 0 then -x else x
  }

  // ---------------------------------------------------------------------------
  // buildNote: restore position, last known geometry and the initial resize

  /** What `buildNote` derives from the saved properties before showing the window. */
  datatype Initial = Initial(restorePos: Point, lastPos: Point, lastSize: Point, resize: Option<Point>)

  /** A saved pair: a JSON array of at least two entries. */
  predicate IsPairList(v: Value) {
    v.List? && |v.items| >= 2
  }

  /** A saved pair whose first two entries are numbers. */
  predicate IsNumberPair(v: Value) {
    IsPairList(v) && v.items[0].Float? && v.items[1].Float?
  }

  function NumberPair(v: Value): Point
    requires IsNumberPair(v)
  {
    (Truncate(v.items[0].f), Truncate(v.items[1].f))
  }

  /**
   * The position and size blocks of `buildNote`. `LastKnownPos` and
   * `LastKnownSize` start as Go's zero value (0, 0); an array of two or more
   * entries that are not both numbers leaves them there.
   */
  function InitialGeometry(props: Table): Initial {
    var pos := Get(props, "position");
    var size := Get(props, "size");
    var restore := if IsNumberPair(pos) then NumberPair(pos) else (10, 10);
    var last := if IsNumberPair(pos) then NumberPair(pos) else if IsPairList(pos) then (0, 0) else (10, 10);
    var lastSize := if IsNumberPair(size) then NumberPair(size) else if IsPairList(size) then (0, 0) else (200, 150);
    var resize := if IsNumberPair(size) then Some(NumberPair(size)) else if IsPairList(size) then None else Some((200, 150));
    Initial(restore, last, lastSize, resize)
  }

  /** Without a usable saved position the window is restored at (10, 10). */
  lemma DefaultRestorePosition(props: Table)
    ensures !IsNumberPair(Get(props, "position")) ==> InitialGeometry(props).restorePos == (10, 10)
    ensures IsNumberPair(Get(props, "position")) ==>
              InitialGeometry(props).restorePos == InitialGeometry(props).lastPos == NumberPair(Get(props, "position"))
  {
  }

  /** A missing `position` gives `LastKnownPos` (10, 10); a missing `size` gives (200, 150) and a resize to it. */
  lemma DefaultsWhenAbsent(props: Table)
    ensures "position" !in props ==> InitialGeometry(props).lastPos == (10, 10) && InitialGeometry(props).restorePos == (10, 10)
    ensures "size" !in props ==> InitialGeometry(props).lastSize == (200, 150) && InitialGeometry(props).resize == Some((200, 150))
  {
  }

  /** Positions written back by `Properties` are Go `[]int` values, which the `[]interface{}` assertion rejects. */
  lemma IntPairsAreNotRestored(props: Table, x: int, y: int)
    requires Get(props, "position") == Ints([x, y])
    ensures InitialGeometry(props).restorePos == (10, 10) && InitialGeometry(props).lastPos == (10, 10)
  {
  }

  /** A saved size is truncated towards zero, and the window is resized to it. */
  lemma SavedSizeIsTruncated(props: Table, w: real, h: real)
    requires Get(props, "size") == List([Float(w), Float(h)])
    ensures InitialGeometry(props).lastSize == (Truncate(w), Truncate(h))
    ensures InitialGeometry(props).resize == Some((Truncate(w), Truncate(h)))
  {
  }

  // ---------------------------------------------------------------------------
  // UpdateNote: extension first, then GTK

  /** The position and size the shell gives for `id`, `None` for no ID or no answer. */
  function ShellGeometry(b: Bus, shell: Shell, id: WindowId): (Bus, Option<(Point, Point)>)
  {
    if id == 0 then (b, None)
    else
      var (b2, l) := DetailsStep(b, shell, id);
      if l.Found? then (b2, Some(((l.details.x, l.details.y), (l.details.width, l.details.height))))
      else (b2, None)
  }

  /** The geometry block of `UpdateNote`: the new bus state, `LastKnownPos` and `LastKnownSize`. */
  function Refresh(b: Bus, shell: Shell, windowId: WindowId, gtkPos: Point, gtkSize: Point): (Bus, Point, Point)
  {
    if Available(b) then
      var (b1, g) := ShellGeometry(b, shell, windowId);
      if g.Some? then (b1, g.value.0, g.value.1) else (b1, gtkPos, gtkSize)
    else (b, gtkPos, gtkSize)
  }

  /** The extension's geometry when it answers for the window ID; otherwise GTK's. */
  lemma RefreshSources(b: Bus, shell: Shell, windowId: WindowId, gtkPos: Point, gtkSize: Point)
    requires Sound(b)
    ensures var r := Refresh(b, shell, windowId, gtkPos, gtkSize);
      && (Available(b) && windowId != 0 && shell.DetailsFor(windowId).DetailsOutput?
          && shell.DetailsFor(windowId).decoded.Some? ==>
            var d := shell.DetailsFor(windowId).decoded.value;
            r.1 == (d.x, d.y) && r.2 == (d.width, d.height))
      && (!Available(b) || windowId == 0 ==> r == (b, gtkPos, gtkSize))
      && (r.1 == gtkPos || (windowId != 0 && Available(b)))
  {
  }

  // ---------------------------------------------------------------------------
  // Properties

  /**
   * What `Properties` reports as position and size. `gtk` is what the
   * toolkit reports (position, size), `None` when there is no window.
   */
  function Reported(lastPos: Point, lastSize: Point, gtk: Option<(Point, Point)>): (r: (Point, Point))
    ensures r.0 == lastPos || (gtk.Some? && r.0 == gtk.value.0)
    ensures r.1 == lastSize || (gtk.Some? && r.1 == gtk.value.1)
  {
    match gtk
    case None => (lastPos, lastSize)
    case Some(g) =>
      var (gp, gs) := g;
      var pos := if gp != (0, 0) && (lastPos == (10, 10) || lastPos == (0, 0)) then gp else lastPos;
      var size := if gs.0 > 1 && gs.1 > 1 then gs else lastSize;
      (pos, size)
  }

  /** GTK's position is reported exactly when it is non-zero and `LastKnownPos` is (10, 10) or (0, 0). */
  lemma ReportedPosition(lastPos: Point, lastSize: Point, gtkPos: Point, gtkSize: Point)
    ensures var r := Reported(lastPos, lastSize, Some((gtkPos, gtkSize)));
      && (gtkPos == (0, 0) ==> r.0 == lastPos)
      && (lastPos != (10, 10) && lastPos != (0, 0) ==> r.0 == lastPos)
      && (gtkPos != (0, 0) && (lastPos == (10, 10) || lastPos == (0, 0)) ==> r.0 == gtkPos)
  {
  }

  /** GTK's size is reported exactly when both dimensions exceed 1. */
  lemma ReportedSize(lastPos: Point, lastSize: Point, gtkPos: Point, gtkSize: Point)
    ensures var r := Reported(lastPos, lastSize, Some((gtkPos, gtkSize)));
      && (gtkSize.0 > 1 && gtkSize.1 > 1 ==> r.1 == gtkSize)
      && (!(gtkSize.0 > 1 && gtkSize.1 > 1) ==> r.1 == lastSize)
  {
  }

  // ---------------------------------------------------------------------------
  // onConfigure's GTK fallback

  /** The fallback block of `onConfigure`: zeros from GTK keep the previous values. */
  function ConfigureFallback(lastPos: Point, lastSize: Point, gtkPos: Point, gtkSize: Point): (r: (Point, Point))
    ensures gtkPos == (0, 0) ==> r.0 == lastPos
    ensures gtkPos != (0, 0) ==> r.0 == gtkPos
    ensures !(gtkSize.0 > 1 && gtkSize.1 > 1) ==> r.1 == lastSize
    ensures gtkSize.0 > 1 && gtkSize.1 > 1 ==> r.1 == gtkSize
  {
    (if gtkPos != (0, 0) then gtkPos else lastPos,
     if gtkSize.0 > 1 && gtkSize.1 > 1 then gtkSize else lastSize)
  }

  /**
   * `Save` runs `Extract`, which runs `UpdateNote` and then reports
   * `Properties`. Without an extension answer, on Wayland (GTK position (0, 0)),
   * the position written is (0, 0) whatever `LastKnownPos` was, so the value
   * `onConfigure`'s fallback kept does not reach the file.
   */
  lemma ExtractWritesGtkZeroPosition(b: Bus, shell: Shell, lastPos: Point, lastSize: Point, gtkSize: Point)
    requires !Available(b)
    ensures var kept := ConfigureFallback(lastPos, lastSize, (0, 0), gtkSize);
      var r := Refresh(b, shell, 0, (0, 0), gtkSize);
      && kept.0 == lastPos
      && r.1 == (0, 0)
      && Reported(r.1, r.2, Some(((0, 0), gtkSize))).0 == (0, 0)
  {
  }
}
