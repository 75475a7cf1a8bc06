/**
 * The window bookkeeping of a whole note set, on values: each note of
 * `NoteSet.Notes` is seen as a `Snap` (no GUI, or its GUI's window ID,
 * last known geometry and what GTK reports). The loops of
 * `UpdateNotePositionsFromWindowCalls` (stickynotes/window_calls.go),
 * `AssignWindowIDs` and `Save` (stickynotes/backend.go) are folds over the
 * snapshots, and the injectivity of window IDs is stated here.
 */
module Bookkeeping {
  import opened Wrappers
  import opened WindowCalls
  import opened Geometry
  import opened Matching

  /** One note: `Bare` has no GUI. */
  datatype Snap =
    | Bare
    | Gui(id: WindowId, pos: Point, size: Point, gtkPos: Point, gtkSize: Point)

  /** Non-zero window IDs are held by at most one note. */
  predicate Distinct(snaps: seq<Snap>) {
    forall i, j :: 0 <= i < |snaps| && 0 <= j < |snaps| && i != j && snaps[i].Gui? && snaps[j].Gui? && snaps[i].id != 0 ==>
      snaps[i].id != snaps[j].id
  }

  /** The IDs the claimed-by-other test sees for note `k`: those of every other note with a GUI, zero included. */
  function HeldByOthers(snaps: seq<Snap>, k: int): set<WindowId> {
    set j | 0 <= j < |snaps| && j != k && snaps[j].Gui? :: snaps[j].id
  }

  /** Replacing note `k`'s snapshot. */
  function Retake(snaps: seq<Snap>, k: nat, s: Snap): seq<Snap>
    requires k < |snaps|
  {
    snaps[k := s]
  }

  /**
   * From distinct handles, giving note `k` the ID `s.id` keeps them distinct
   * exactly when that ID is zero, is `k`'s own, or is held by no other note.
   */
  lemma RetakeDistinct(snaps: seq<Snap>, k: nat, s: Snap)
    requires Distinct(snaps) && k < |snaps| && snaps[k].Gui? && s.Gui?
    ensures Distinct(Retake(snaps, k, s)) <==> s.id == 0 || s.id == snaps[k].id || s.id !in HeldByOthers(snaps, k)
  {
    var r := Retake(snaps, k, s);
    if s.id != 0 && s.id != snaps[k].id && s.id in HeldByOthers(snaps, k) {
      var j :| 0 <= j < |snaps| && j != k && snaps[j].Gui? && snaps[j].id == s.id;
      assert r[k].id == r[j].id;
    }
  }

  /** A bare note gaining a GUI with no window ID keeps the handles distinct. */
  lemma NewGuiDistinct(snaps: seq<Snap>, k: nat, s: Snap)
    requires Distinct(snaps) && k < |snaps| && snaps[k].Bare? && s.Gui? && s.id == 0
    ensures Distinct(Retake(snaps, k, s))
  {
  }

  /** The geometry-only snapshot change keeps the handles. */
  lemma SameIdsDistinct(a: seq<Snap>, b: seq<Snap>)
    requires Distinct(a) && |a| == |b|
    requires forall j :: 0 <= j < |a| ==> b[j].Gui? == a[j].Gui? && (a[j].Gui? ==> b[j].id == a[j].id)
    ensures Distinct(b)
  {
  }

  /** Removing a note keeps the handles distinct. */
  lemma SpliceDistinct(snaps: seq<Snap>, k: nat)
    requires Distinct(snaps) && k < |snaps|
    ensures Distinct(snaps[..k] + snaps[k + 1..])
  {
    var r := snaps[..k] + snaps[k + 1..];
    forall i, j | 0 <= i < |r| && 0 <= j < |r| && i != j && r[i].Gui? && r[j].Gui? && r[i].id != 0
      ensures r[i].id != r[j].id
    {
      var i', j' := if i < k then i else i + 1, if j < k then j else j + 1;
      assert r[i] == snaps[i'] && r[j] == snaps[j'];
    }
  }

  /** A new note with a GUI and no window ID keeps the handles distinct. */
  lemma AppendNewGuiDistinct(snaps: seq<Snap>, s: Snap)
    requires Distinct(snaps) && s.Gui? && s.id == 0
    ensures Distinct(snaps + [s])
  {
  }

  /** A note that takes a window already held breaks injectivity, as `onConfigure` can. */
  lemma TakingHeldBreaksDistinct()
    ensures var snaps := [Gui(5, (0, 0), (200, 150), (0, 0), (200, 150)), Gui(0, (0, 0), (200, 150), (0, 0), (200, 150))];
      && Distinct(snaps)
      && 5 in HeldByOthers(snaps, 1)
      && !Distinct(Retake(snaps, 1, snaps[1].(id := 5)))
  {
    var snaps := [Gui(5, (0, 0), (200, 150), (0, 0), (200, 150)), Gui(0, (0, 0), (200, 150), (0, 0), (200, 150))];
    assert snaps[0].Gui? && snaps[0].id == 5;
    RetakeDistinct(snaps, 1, snaps[1].(id := 5));
  }

  /** Two snapshot lists have the same notes with GUIs and the same GTK geometry. */
  predicate SameShape(a: seq<Snap>, b: seq<Snap>) {
    |a| == |b| &&
    forall j :: 0 <= j < |a| ==> b[j].Gui? == a[j].Gui? && (a[j].Gui? ==> b[j].gtkPos == a[j].gtkPos && b[j].gtkSize == a[j].gtkSize)
  }

  // ---------------------------------------------------------------------------
  // UpdateNotePositionsFromWindowCalls

  /** The note loop of `UpdateNotePositionsFromWindowCalls` over the first `i` notes: bus state, snapshots and `updated`. */
  function SyncUpTo(b: Bus, shell: Shell, ws: seq<WindowInfo>, snaps: seq<Snap>, i: nat): (r: (Bus, seq<Snap>, bool))
    requires i <= |snaps|
    ensures SameShape(snaps, r.1)
    ensures forall j :: i <= j < |snaps| ==> r.1[j] == snaps[j]
    decreases i
  {
    if i == 0 then (b, snaps, false)
    else
      var (b1, s1, u1) := SyncUpTo(b, shell, ws, snaps, i - 1);
      match s1[i - 1]
      case Bare => (b1, s1, u1)
      case Gui(id, pos, size, gp, gs) =>
        var r := SyncStep(b1, shell, ws, HeldByOthers(s1, i - 1), id, pos, size, gs);
        (r.bus, s1[i - 1 := Gui(r.id, r.pos, r.size, gp, gs)], u1 || r.updated)
  }

  /** Every step of the loop keeps window IDs distinct. */
  lemma {:induction false} SyncUpToDistinct(b: Bus, shell: Shell, ws: seq<WindowInfo>, snaps: seq<Snap>, i: nat)
    requires i <= |snaps| && Distinct(snaps)
    ensures Distinct(SyncUpTo(b, shell, ws, snaps, i).1)
    decreases i
  {
    if i > 0 {
      SyncUpToDistinct(b, shell, ws, snaps, i - 1);
      var (b1, s1, u1) := SyncUpTo(b, shell, ws, snaps, i - 1);
      if s1[i - 1].Gui? {
        var g := s1[i - 1];
        SyncStepProps(b1, shell, ws, HeldByOthers(s1, i - 1), g.id, g.pos, g.size, g.gtkSize);
        var r := SyncStep(b1, shell, ws, HeldByOthers(s1, i - 1), g.id, g.pos, g.size, g.gtkSize);
        RetakeDistinct(s1, i - 1, Gui(r.id, r.pos, r.size, g.gtkPos, g.gtkSize));
      }
    }
  }

  /** Notes without a GUI are left alone, and `updated` is set only by a note whose geometry the shell gave. */
  lemma {:induction false} SyncUpToBare(b: Bus, shell: Shell, ws: seq<WindowInfo>, snaps: seq<Snap>, i: nat)
    requires i <= |snaps|
    ensures var r := SyncUpTo(b, shell, ws, snaps, i);
      && (forall j :: 0 <= j < |snaps| && snaps[j].Bare? ==> r.1[j] == Bare)
      && (!r.2 ==> forall j :: 0 <= j < |snaps| ==> r.1[j].Bare? || r.1[j].id == snaps[j].id)
    decreases i
  {
    if i > 0 {
      SyncUpToBare(b, shell, ws, snaps, i - 1);
      var (b1, s1, u1) := SyncUpTo(b, shell, ws, snaps, i - 1);
      if s1[i - 1].Gui? {
        var g := s1[i - 1];
        SyncStepProps(b1, shell, ws, HeldByOthers(s1, i - 1), g.id, g.pos, g.size, g.gtkSize);
      }
    }
  }

  /**
   * `UpdateNotePositionsFromWindowCalls` on values: nothing happens unless the
   * extension is available and the process has windows.
   */
  function SyncAll(b: Bus, shell: Shell, pid: int, snaps: seq<Snap>): (Bus, seq<Snap>, bool) {
    if !Available(b) then (b, snaps, false)
    else
      var (b1, r) := ProcessWindows(b, shell, pid);
      if r.None? || |r.value| == 0 then (b1, snaps, false)
      else SyncUpTo(b1, shell, r.value, snaps, |snaps|)
  }

  /** The whole update keeps window IDs distinct, and changes nothing when it reports no update. */
  lemma SyncAllProps(b: Bus, shell: Shell, pid: int, snaps: seq<Snap>)
    ensures Distinct(snaps) ==> Distinct(SyncAll(b, shell, pid, snaps).1)
    ensures SameShape(snaps, SyncAll(b, shell, pid, snaps).1)
    ensures !Available(b) ==> SyncAll(b, shell, pid, snaps) == (b, snaps, false)
  {
    if Available(b) {
      var (b1, r) := ProcessWindows(b, shell, pid);
      if r.Some? && |r.value| > 0 && Distinct(snaps) {
        SyncUpToDistinct(b1, shell, r.value, snaps, |snaps|);
      }
    }
  }

  // ---------------------------------------------------------------------------
  // AssignWindowIDs

  /** The loop of `AssignWindowIDs` over the first `i` notes: `assignWindowID` for each GUI without an ID. */
  function AssignUpTo(b: Bus, shell: Shell, pid: int, snaps: seq<Snap>, i: nat): (r: (Bus, seq<Snap>))
    requires i <= |snaps|
    ensures |r.1| == |snaps|
    ensures forall j :: i <= j < |snaps| ==> r.1[j] == snaps[j]
    ensures forall j :: 0 <= j < |snaps| ==> r.1[j].Gui? == snaps[j].Gui? && (snaps[j].Gui? ==> r.1[j] == snaps[j].(id := r.1[j].id))
    decreases i
  {
    if i == 0 then (b, snaps)
    else
      var (b1, s1) := AssignUpTo(b, shell, pid, snaps, i - 1);
      match s1[i - 1]
      case Bare => (b1, s1)
      case Gui(id, pos, size, gp, gs) =>
        if id != 0 then (b1, s1)
        else
          var (b2, v) := AssignStep(b1, shell, pid, 0, HeldByOthers(s1, i - 1), gs, pos);
          (b2, s1[i - 1 := s1[i - 1].(id := v)])
  }

  /** `AssignWindowIDs` keeps window IDs distinct and never changes an ID already assigned. */
  lemma {:induction false} AssignUpToProps(b: Bus, shell: Shell, pid: int, snaps: seq<Snap>, i: nat)
    requires i <= |snaps|
    ensures Distinct(snaps) ==> Distinct(AssignUpTo(b, shell, pid, snaps, i).1)
    ensures forall j :: 0 <= j < |snaps| && snaps[j].Gui? && snaps[j].id != 0 ==> AssignUpTo(b, shell, pid, snaps, i).1[j] == snaps[j]
    decreases i
  {
    if i > 0 {
      AssignUpToProps(b, shell, pid, snaps, i - 1);
      var (b1, s1) := AssignUpTo(b, shell, pid, snaps, i - 1);
      if s1[i - 1].Gui? && s1[i - 1].id == 0 {
        var g := s1[i - 1];
        AssignStepChoice(b1, shell, pid, 0, HeldByOthers(s1, i - 1), g.gtkSize, g.pos);
        var v := AssignStep(b1, shell, pid, 0, HeldByOthers(s1, i - 1), g.gtkSize, g.pos).1;
        if Distinct(snaps) {
          RetakeDistinct(s1, i - 1, g.(id := v));
        }
      }
    }
  }

  // ---------------------------------------------------------------------------
  // Save: the geometry refresh of Dumps

  /** `UpdateNote`'s geometry for note `k`, as `Extract` runs it; a note without a GUI is skipped. */
  function RefreshAt(b: Bus, shell: Shell, snaps: seq<Snap>, k: nat): (r: (Bus, seq<Snap>))
    requires k < |snaps|
    ensures |r.1| == |snaps|
  {
    match snaps[k]
    case Bare => (b, snaps)
    case Gui(id, pos, size, gp, gs) =>
      var (b2, p, z) := Refresh(b, shell, id, gp, gs);
      (b2, snaps[k := Gui(id, p, z, gp, gs)])
  }

  /** `UpdateNote`'s geometry for the first `i` notes, in order, as `Dumps` runs it. */
  function RefreshUpTo(b: Bus, shell: Shell, snaps: seq<Snap>, i: nat): (r: (Bus, seq<Snap>))
    requires i <= |snaps|
    ensures |r.1| == |snaps|
    ensures forall j :: i <= j < |snaps| ==> r.1[j] == snaps[j]
    ensures forall j :: 0 <= j < |snaps| ==>
              r.1[j].Gui? == snaps[j].Gui? && (snaps[j].Gui? ==> r.1[j] == snaps[j].(pos := r.1[j].pos, size := r.1[j].size))
    decreases i
  {
    if i == 0 then (b, snaps)
    else
      var (b1, s1) := RefreshUpTo(b, shell, snaps, i - 1);
      RefreshAt(b1, shell, s1, i - 1)
  }

  /** Saving re-reads every GUI's geometry but never changes a window ID, and keeps the bus invariant. */
  lemma {:induction false} RefreshUpToProps(b: Bus, shell: Shell, snaps: seq<Snap>, i: nat)
    requires i <= |snaps|
    ensures Distinct(RefreshUpTo(b, shell, snaps, i).1) <==> Distinct(snaps)
    ensures Sound(b) ==> Sound(RefreshUpTo(b, shell, snaps, i).0)
    decreases i
  {
    var r := RefreshUpTo(b, shell, snaps, i).1;
    if Distinct(snaps) {
      SameIdsDistinct(snaps, r);
    }
    if Distinct(r) {
      SameIdsDistinct(r, snaps);
    }
    if i > 0 {
      RefreshUpToProps(b, shell, snaps, i - 1);
      var (b1, s1) := RefreshUpTo(b, shell, snaps, i - 1);
      if s1[i - 1].Gui? && Sound(b) {
        StepsKeepSound(b1, shell, s1[i - 1].id);
      }
    }
  }

  /** `UpdateNote`'s geometry for one snapshot: the bus after it and the snapshot re-read. */
  function RefreshOne(b: Bus, shell: Shell, s: Snap): (Bus, Snap) {
    match s
    case Bare => (b, Bare)
    case Gui(id, pos, size, gp, gs) =>
      var (b2, p, z) := Refresh(b, shell, id, gp, gs);
      (b2, Gui(id, p, z, gp, gs))
  }

  /**
   * Saving's geometry note by note: `t.0[j]` is the bus before note `j`'s
   * turn (`t.0[|snaps|]` after the last) and `t.1[j]` note `j`'s snapshot
   * once re-read.
   */
  function Trace(b: Bus, shell: Shell, snaps: seq<Snap>): (t: (seq<Bus>, seq<Snap>))
    ensures |t.0| == |snaps| + 1 && |t.1| == |snaps| && t.0[0] == b
    ensures forall j {:trigger t.1[j]} :: 0 <= j < |snaps| ==> (t.0[j + 1], t.1[j]) == RefreshOne(t.0[j], shell, snaps[j])
  {
    if snaps == [] then ([b], [])
    else
      var n := |snaps| - 1;
      var (bs, rs) := Trace(b, shell, snaps[..n]);
      var (b2, s2) := RefreshOne(bs[n], shell, snaps[n]);
      (bs + [b2], rs + [s2])
  }

  /**
   * The trace is what saving computes: after `i` notes the bus is the
   * trace's `i`-th and each of those notes holds its re-read snapshot.
   */
  lemma {:induction false} TraceIsRefreshUpTo(b: Bus, shell: Shell, snaps: seq<Snap>, i: nat)
    requires i <= |snaps|
    ensures RefreshUpTo(b, shell, snaps, i).0 == Trace(b, shell, snaps).0[i]
    ensures forall j :: 0 <= j < i ==> RefreshUpTo(b, shell, snaps, i).1[j] == Trace(b, shell, snaps).1[j]
    decreases i
  {
    if i > 0 {
      TraceIsRefreshUpTo(b, shell, snaps, i - 1);
      var t := Trace(b, shell, snaps);
      assert t.1[i - 1] == t.1[i - 1];
    }
  }

  /**
   * On Wayland without the extension, saving writes (0, 0) as every GUI
   * note's position, whatever its last known position was.
   */
  lemma {:induction false} RefreshWithoutExtension(b: Bus, shell: Shell, snaps: seq<Snap>, i: nat)
    requires i <= |snaps| && !Available(b)
    requires forall j :: 0 <= j < |snaps| && snaps[j].Gui? ==> snaps[j].gtkPos == (0, 0)
    ensures var r := RefreshUpTo(b, shell, snaps, i);
      && r.0 == b
      && forall j :: 0 <= j < i && snaps[j].Gui? ==>
           r.1[j].pos == (0, 0) && Reported(r.1[j].pos, r.1[j].size, Some((r.1[j].gtkPos, r.1[j].gtkSize))).0 == (0, 0)
    decreases i
  {
    if i > 0 {
      RefreshWithoutExtension(b, shell, snaps, i - 1);
    }
  }
}
