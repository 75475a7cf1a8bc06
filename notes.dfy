/**
 * The objects of the program: `Note` and `NoteSet` (stickynotes/backend.go)
 * and `StickyNote`, the GUI of one note (stickynotes/gui.go), with
 * `UpdateNotePositionsFromWindowCalls` (stickynotes/window_calls.go).
 *
 * The window itself is not modelled; a `StickyNote` keeps the fields the
 * program reads and writes (`WindowID`, `LastKnownPos`, `LastKnownSize`,
 * `Locked`, the opacity, the text buffer) and what the toolkit currently
 * reports as the window's position and size (`gtkPos`, `gtkSize`), which the
 * caller sets. Each timer callback scheduled by `buildNote` and `Show` is a
 * method; `pending` holds the callbacks scheduled and not yet run. Every
 * call into the extension takes the shell's replies as a `Shell` parameter.
 */
module StickyNotes {
  import opened Wrappers
  import opened Values
  import opened WindowCalls
  import opened Geometry
  import opened Matching
  import opened Bookkeeping
  import opened Backend

  /**
   * The callbacks `buildNote` and `Show` schedule: the 300 ms first-show
   * match (gui.go:235), the 1500 ms check (gui.go:307), the 500 ms
   * `assignWindowID` (gui.go:330), the 500 ms `assignWindowID` of `Show`
   * (gui.go:433) and the idle GTK move without the extension (gui.go:296).
   */
  datatype Timer = FirstShow | VerifyPosition | AssignLater | AssignOnShow | PlaceIdle

  /** What `Dumps` writes (`last_modified` is not modelled). */
  datatype Document = Document(notes: seq<NoteFields>, properties: Table, categories: map<string, Table>)

  /** How far `ShowAll` has got: `i` notes shown, from GUIs `g0`, bodies `b0` and distinctness `d0` before it. */
  /**
   * What `ShowAll` started from: the GUIs, bodies, distinctness, snapshots and callbacks before it, the
   * shell and toolkit placement it runs with, and the bus before each
   * note's turn (`buses`) with each note's re-read snapshot (`refreshed`).
   */
  datatype Progress = Progress(g0: seq<StickyNote?>, b0: seq<string>, d0: bool, shell: Shell, s0: seq<Snap>,
                               p0: seq<multiset<Timer>>, reported: string -> (Point, Point), buses: seq<Bus>, refreshed: seq<Snap>)

  /** `buses` and `refreshed` run `UpdateNote`'s geometry over `s0`, note after note. */
  predicate Traced(p: Progress) {
    && |p.buses| == |p.s0| + 1 && |p.refreshed| == |p.s0|
    && forall j {:trigger p.refreshed[j]} :: 0 <= j < |p.s0| ==> (p.buses[j + 1], p.refreshed[j]) == RefreshOne(p.buses[j], p.shell, p.s0[j])
  }

  /** One `os.WriteFile` of the data file. */
  datatype Write = Write(path: string, doc: Document)

  /** The lock state `NewStickyNote` restores from a note's properties: `locked` when it is a boolean. */
  function SavedLock(props: Table): (l: bool)
    ensures l <==> Get(props, "locked") == Bool(true)
  {
    Get(props, "locked").Bool? && Get(props, "locked").b
  }

  /** The note objects' snapshots, in list order. */
  ghost function SnapsOf(ns: seq<Note>): (r: seq<Snap>)
    reads (set n | n in ns)`gui
    reads (set n | n in ns && n.gui != null :: n.gui)`windowId, (set n | n in ns && n.gui != null :: n.gui)`lastKnownPos
    reads (set n | n in ns && n.gui != null :: n.gui)`lastKnownSize, (set n | n in ns && n.gui != null :: n.gui)`gtkPos
    reads (set n | n in ns && n.gui != null :: n.gui)`gtkSize
    ensures |r| == |ns|
  {
    if ns == [] then []
    else
      var last := ns[|ns| - 1];
      SnapsOf(ns[..|ns| - 1]) + [if last.gui == null then Bare else last.gui.AsSnap()]
  }

  /** The notes' own fields, in list order. */
  ghost function FieldsOf(ns: seq<Note>): (r: seq<NoteFields>)
    reads (set n | n in ns)`uuid, (set n | n in ns)`body, (set n | n in ns)`properties, (set n | n in ns)`category
    ensures |r| == |ns|
  {
    if ns == [] then [] else FieldsOf(ns[..|ns| - 1]) + [ns[|ns| - 1].Fields()]
  }

  /** The GUIs' text buffers and lock states, in list order (`("", false)` without a GUI). */
  ghost function BuffersOf(ns: seq<Note>): (r: seq<(string, bool)>)
    reads (set n | n in ns)`gui
    reads (set n | n in ns && n.gui != null :: n.gui)`text, (set n | n in ns && n.gui != null :: n.gui)`locked
    ensures |r| == |ns|
  {
    if ns == [] then [] else BuffersOf(ns[..|ns| - 1]) + [ns[|ns| - 1].Buffer()]
  }

  /** The notes' GUIs, in list order. */
  ghost function GuisOf(ns: seq<Note>): (r: seq<StickyNote?>)
    reads (set n | n in ns)`gui
    ensures |r| == |ns| && forall j :: 0 <= j < |ns| ==> r[j] == ns[j].gui
  {
    if ns == [] then [] else GuisOf(ns[..|ns| - 1]) + [ns[|ns| - 1].gui]
  }

  /** The snapshot of the window built for a note with properties `props`, placed by the toolkit at `at`. */
  function BuiltSnap(props: Table, at: (Point, Point)): Snap {
    var g := InitialGeometry(props);
    Gui(0, g.lastPos, g.lastSize, at.0, at.1)
  }

  /** The GUIs' pending callbacks, in list order (none without a GUI). */
  ghost function PendingsOf(ns: seq<Note>): (r: seq<multiset<Timer>>)
    reads (set n | n in ns)`gui, (set n | n in ns && n.gui != null :: n.gui)`pending
    ensures |r| == |ns| && forall j :: 0 <= j < |ns| ==> r[j] == if ns[j].gui == null then multiset{} else ns[j].gui.pending
  {
    if ns == [] then [] else PendingsOf(ns[..|ns| - 1]) + [if ns[|ns| - 1].gui == null then multiset{} else ns[|ns| - 1].gui.pending]
  }

  /** The notes' bodies, in list order. */
  ghost function BodiesOf(ns: seq<Note>): (r: seq<string>)
    reads (set n | n in ns)`body
    ensures |r| == |ns| && forall j :: 0 <= j < |ns| ==> r[j] == ns[j].body
  {
    if ns == [] then [] else BodiesOf(ns[..|ns| - 1]) + [ns[|ns| - 1].body]
  }

  /** Removing note `i` removes snapshot `i`. */
  lemma {:induction false} SnapsOfSplice(ns: seq<Note>, i: nat)
    requires i < |ns|
    ensures SnapsOf(ns[..i] + ns[i + 1..]) == SnapsOf(ns)[..i] + SnapsOf(ns)[i + 1..]
  {
    var ms := ns[..i] + ns[i + 1..];
    SnapsOfIndex(ns);
    SnapsOfIndex(ms);
    forall j | 0 <= j < |ms| ensures SnapsOf(ms)[j] == (SnapsOf(ns)[..i] + SnapsOf(ns)[i + 1..])[j] {
      if j < i {
        assert ms[j] == ns[j];
      } else {
        assert ms[j] == ns[j + 1];
      }
    }
  }

  /** Removing note `i` removes field entry `i`. */
  lemma {:induction false} FieldsOfSplice(ns: seq<Note>, i: nat)
    requires i < |ns|
    ensures FieldsOf(ns[..i] + ns[i + 1..]) == FieldsOf(ns)[..i] + FieldsOf(ns)[i + 1..]
  {
    var ms := ns[..i] + ns[i + 1..];
    FieldsOfIndex(ns);
    FieldsOfIndex(ms);
    forall j | 0 <= j < |ms| ensures FieldsOf(ms)[j] == (FieldsOf(ns)[..i] + FieldsOf(ns)[i + 1..])[j] {
      if j < i {
        assert ms[j] == ns[j];
      } else {
        assert ms[j] == ns[j + 1];
      }
    }
  }

  /** Removing note `i` removes buffer `i`. */
  lemma {:induction false} BuffersOfSplice(ns: seq<Note>, i: nat)
    requires i < |ns|
    ensures BuffersOf(ns[..i] + ns[i + 1..]) == BuffersOf(ns)[..i] + BuffersOf(ns)[i + 1..]
  {
    var ms := ns[..i] + ns[i + 1..];
    BuffersOfIndex(ns);
    BuffersOfIndex(ms);
    forall j | 0 <= j < |ms| ensures BuffersOf(ms)[j] == (BuffersOf(ns)[..i] + BuffersOf(ns)[i + 1..])[j] {
      if j < i {
        assert ms[j] == ns[j];
      } else {
        assert ms[j] == ns[j + 1];
      }
    }
  }

  /** Entry `i` of `SnapsOf(ns)` is note `i`'s snapshot. */
  lemma {:induction false} SnapsOfIndex(ns: seq<Note>)
    ensures forall i :: 0 <= i < |ns| ==> SnapsOf(ns)[i] == (if ns[i].gui == null then Bare else ns[i].gui.AsSnap())
  {
    if ns != [] {
      SnapsOfIndex(ns[..|ns| - 1]);
    }
  }

  /** `SnapsOfIndex` in the old state. */
  twostate lemma {:induction false} OldSnapsOfIndex(ns: seq<Note>)
    ensures forall i :: 0 <= i < |ns| ==> old(SnapsOf(ns))[i] == old(if ns[i].gui == null then Bare else ns[i].gui.AsSnap())
  {
    if ns != [] {
      OldSnapsOfIndex(ns[..|ns| - 1]);
    }
  }

  /** Entry `i` of `FieldsOf(ns)` is note `i`'s fields. */
  lemma {:induction false} FieldsOfIndex(ns: seq<Note>)
    ensures forall i :: 0 <= i < |ns| ==> FieldsOf(ns)[i] == ns[i].Fields()
  {
    if ns != [] {
      FieldsOfIndex(ns[..|ns| - 1]);
    }
  }

  /** `FieldsOfIndex` in the old state. */
  twostate lemma {:induction false} OldFieldsOfIndex(ns: seq<Note>)
    ensures forall i :: 0 <= i < |ns| ==> old(FieldsOf(ns))[i] == old(ns[i].Fields())
  {
    if ns != [] {
      OldFieldsOfIndex(ns[..|ns| - 1]);
    }
  }

  /** `BuffersOfIndex` in the old state. */
  twostate lemma {:induction false} OldBuffersOfIndex(ns: seq<Note>)
    ensures forall i :: 0 <= i < |ns| ==> old(BuffersOf(ns))[i] == old(ns[i].Buffer())
  {
    if ns != [] {
      OldBuffersOfIndex(ns[..|ns| - 1]);
    }
  }

  /** Entry `i` of `BuffersOf(ns)` is note `i`'s buffer. */
  lemma {:induction false} BuffersOfIndex(ns: seq<Note>)
    ensures forall i :: 0 <= i < |ns| ==> BuffersOf(ns)[i] == ns[i].Buffer()
  {
    if ns != [] {
      BuffersOfIndex(ns[..|ns| - 1]);
    }
  }

  /** The notes of a `dnotes` map, as the fields each carries. */
  ghost function FieldsMap(d: map<string, Note>): (r: map<string, NoteFields>)
    reads set u | u in d :: d[u]
    ensures r.Keys == d.Keys
  {
    map u | u in d :: d[u].Fields()
  }

  /** Filing a note under `u` files its fields under `u`. */
  lemma FieldsMapUpdate(d: map<string, Note>, u: string, n: Note)
    ensures FieldsMap(d[u := n]) == FieldsMap(d)[u := n.Fields()]
  {
  }

  /** Every note of a `dnotes` map is filed under its own, non-empty UUID. */
  ghost predicate Filed(d: map<string, Note>)
    reads set u | u in d :: d[u]
  {
    "" !in d && forall u :: u in d ==> d[u].uuid == u
  }

  /** Every note filed in `d0` under a UUID outside `ids` is still filed in `d`. */
  ghost predicate KeptFrom(d0: map<string, Note>, d: map<string, Note>, ids: seq<string>)
  {
    forall u :: u in d0 && u !in ids ==> u in d && d[u] == d0[u]
  }

  /** Distinct notes taken from a filed map carry distinct UUIDs. */
  lemma FiledValuesUuids(d: map<string, Note>, vs: seq<Note>)
    requires Filed(d) && forall v :: v in vs ==> exists k :: k in d && d[k] == v
    requires forall i, j :: 0 <= i < j < |vs| ==> vs[i] != vs[j]
    ensures forall i, j :: 0 <= i < j < |vs| ==> vs[i].uuid != vs[j].uuid
  {
    forall i, j | 0 <= i < j < |vs| ensures vs[i].uuid != vs[j].uuid {
      assert vs[i] in vs && vs[j] in vs;
      var u :| u in d && d[u] == vs[i];
      var v :| v in d && d[v] == vs[j];
    }
  }

  /**
   * For a list without repeated notes, the handles are distinct exactly when
   * no two different notes' GUIs share a non-zero window ID, whatever the order.
   */
  lemma DistinctByNotes(ns: seq<Note>)
    requires forall i, j :: 0 <= i < j < |ns| ==> ns[i] != ns[j]
    ensures Distinct(SnapsOf(ns)) <==>
              forall a, b :: a in ns && b in ns && a != b && a.gui != null && b.gui != null && a.gui.windowId != 0 ==>
                a.gui.windowId != b.gui.windowId
  {
    SnapsOfIndex(ns);
    var s := SnapsOf(ns);
    if Distinct(s) {
      forall a, b | a in ns && b in ns && a != b && a.gui != null && b.gui != null && a.gui.windowId != 0
        ensures a.gui.windowId != b.gui.windowId
      {
        var i :| 0 <= i < |ns| && ns[i] == a;
        var j :| 0 <= j < |ns| && ns[j] == b;
        assert s[i].id == a.gui.windowId && s[j].id == b.gui.windowId;
      }
    } else {
      var i, j :| 0 <= i < |s| && 0 <= j < |s| && i != j && s[i].Gui? && s[j].Gui? && s[i].id != 0 && s[i].id == s[j].id;
      assert ns[i] != ns[j] by {
        if i < j { assert ns[i] != ns[j]; } else { assert ns[j] != ns[i]; }
      }
      assert ns[i] in ns && ns[j] in ns;
    }
  }

  /**
   * Reordering, dropping and adding GUI-less notes keeps the handles
   * distinct: a list whose notes are all taken from `was` or have no GUI.
   */
  lemma DistinctKeptBy(was: seq<Note>, ns: seq<Note>)
    requires forall i, j :: 0 <= i < j < |was| ==> was[i] != was[j]
    requires forall i, j :: 0 <= i < j < |ns| ==> ns[i] != ns[j]
    requires forall n :: n in ns ==> n in was || n.gui == null
    ensures Distinct(SnapsOf(was)) ==> Distinct(SnapsOf(ns))
  {
    DistinctByNotes(was);
    DistinctByNotes(ns);
  }

  /**
   * `Properties` (gui.go:474-501) of a window whose last known geometry is
   * `lastPos` and `lastSize` and whose toolkit reports `gtkPos` and `gtkSize`:
   * position and size as `Reported` chooses them, as integer pairs, and the
   * lock state.
   */
  function PropertiesOf(lastPos: Point, lastSize: Point, gtkPos: Point, gtkSize: Point, locked: bool): (t: Table)
    ensures t.Keys == {"position", "size", "locked"} && t["locked"] == Bool(locked)
    ensures var (pos, size) := Reported(lastPos, lastSize, Some((gtkPos, gtkSize)));
      t["position"] == Ints([pos.0, pos.1]) && t["size"] == Ints([size.0, size.1])
  {
    var (pos, size) := Reported(lastPos, lastSize, Some((gtkPos, gtkSize)));
    map["position" := Ints([pos.0, pos.1]), "size" := Ints([size.0, size.1]), "locked" := Bool(locked)]
  }

  /**
   * What `Extract` makes of a note with fields `f`, snapshot `s` and buffer
   * `buffer`: without a GUI the fields as they are; with one, the window's
   * text as the body and its `Properties` as the properties.
   */
  function Export(f: NoteFields, s: Snap, buffer: (string, bool)): NoteFields {
    match s
    case Bare => f
    case Gui(_, pos, size, gtkPos, gtkSize) => f.(body := buffer.0, properties := PropertiesOf(pos, size, gtkPos, gtkSize, buffer.1))
  }

  /**
   * `fs` is what `Dumps` (backend.go:186-190) makes of notes whose fields
   * were `f0`, with snapshots `ss` and buffers `bs`: each entry is `Export`
   * of the same entry of `f0`. The entries are read through `Entry`, so a
   * caller that only passes the fact on is not handed every entry of `fs`.
   */
  predicate Exported(fs: seq<NoteFields>, f0: seq<NoteFields>, ss: seq<Snap>, bs: seq<(string, bool)>) {
    && |fs| == |f0| == |ss| == |bs|
    && forall j {:trigger Entry(fs, j)} :: 0 <= j < |fs| ==> Entry(fs, j) == Export(f0[j], ss[j], bs[j])
  }

  /** Entry `j` of `fs`. */
  function Entry(fs: seq<NoteFields>, j: nat): NoteFields
    requires j < |fs|
  {
    fs[j]
  }

  /**
   * One step of `Dumps` on the field list: the note after the `docs` done so
   * far gets `f`, which extends the done prefix.
   */
  lemma ExtendDump(docs: seq<NoteFields>, f0: seq<NoteFields>, fields: seq<NoteFields>, f: NoteFields)
    requires |docs| < |f0| && fields == docs + f0[|docs|..]
    ensures fields[|docs| := f] == (docs + [f]) + f0[|docs| + 1..]
  {
    assert fields[|docs| := f] == (docs + [f]) + f0[|docs| + 1..];
  }

  class Note {
    var uuid: string
    var body: string
    var properties: Table
    var category: string
    /** `GUI`, nil until the note is first shown */
    var gui: StickyNote?
    const noteSet: NoteSet

    /** `NewNote`, given the fields it computes. */
    constructor FromFields(f: NoteFields, ns: NoteSet)
      ensures Fields() == f && gui == null && noteSet == ns
    {
      uuid, body, properties, category := f.uuid, f.body, f.properties, f.category;
      gui := null;
      noteSet := ns;
    }

    ghost function Fields(): NoteFields
      reads this`uuid, this`body, this`properties, this`category
    {
      NoteFields(uuid, body, properties, category)
    }

    /** The GUI's text buffer and lock state, `("", false)` without a GUI. */
    ghost function Buffer(): (string, bool)
      reads this`gui, GuiSet()`text, GuiSet()`locked
    {
      if gui == null then ("", false) else (gui.text, gui.locked)
    }

    /**
     * `Extract` (backend.go:69-82): with a GUI, `UpdateNote` and then the
     * GUI's `Properties` become the note's; the fields are what `Dumps`
     * writes for the note.
     */
    method Extract(shell: Shell) returns (f: NoteFields)
      requires noteSet.Valid() && this in noteSet.notes
      modifies this`body, this`properties, GuiSet()`lastKnownPos, GuiSet()`lastKnownSize
      modifies noteSet.ext`available, noteSet.ext`connected
      ensures noteSet.Valid() && f == Fields()
      ensures f == Export(old(Fields()), noteSet.Snaps()[FirstIndex(noteSet.notes, this)], Buffer())
      ensures (noteSet.ext.State(), noteSet.Snaps()) ==
              RefreshAt(old(noteSet.ext.State()), shell, old(noteSet.Snaps()), FirstIndex(noteSet.notes, this))
      ensures forall m :: m in noteSet.notes && m != this ==> m.Fields() == old(m.Fields())
    {
      if gui != null {
        ExtractGui(shell);
      } else {
        SnapsOfIndex(noteSet.notes);
        assert noteSet.Snaps()[FirstIndex(noteSet.notes, this)] == Bare;
      }
      return NoteFields(uuid, body, properties, category);
    }

    /** `Extract` with a GUI (backend.go:70-73): `UpdateNote`, then the GUI's `Properties`. */
    method ExtractGui(shell: Shell)
      requires noteSet.Valid() && this in noteSet.notes && gui != null
      modifies this`body, this`properties, gui`lastKnownPos, gui`lastKnownSize
      modifies noteSet.ext`available, noteSet.ext`connected
      ensures noteSet.Valid()
      ensures Fields() == Export(old(Fields()), noteSet.Snaps()[FirstIndex(noteSet.notes, this)], Buffer())
      ensures (noteSet.ext.State(), noteSet.Snaps()) ==
              RefreshAt(old(noteSet.ext.State()), shell, old(noteSet.Snaps()), FirstIndex(noteSet.notes, this))
      ensures forall m :: m in noteSet.notes && m != this ==> m.Fields() == old(m.Fields())
    {
      assert gui.note == this && gui.Valid();
      gui.UpdateNote(shell);
      TakeProperties();
    }

    /** The second step of `Extract` (backend.go:72): the GUI's `Properties` become the note's. */
    method TakeProperties()
      requires gui != null
      modifies this`properties
      ensures properties == gui.Properties()
    {
      properties := gui.Properties();
    }

    /** The GUI, as a set. */
    ghost function GuiSet(): set<StickyNote>
      reads this`gui
    {
      if gui == null then {} else {gui}
    }

    /**
     * `Note.Show` (backend.go:101-110): a note without a GUI gets one built by
     * `NewStickyNote`, whose window the toolkit then reports at `reportedPos`
     * with size `reportedSize`; a note with one has its GUI's `Show` run (the
     * CSS and font reloads are not modelled).
     */
    method Show(shell: Shell, reportedPos: Point, reportedSize: Point)
      requires noteSet.Valid() && (gui != null ==> gui.note == this && gui.noteSet == noteSet)
      modifies this`gui, this`body, GuiSet()`lastKnownPos, GuiSet()`lastKnownSize, GuiSet()`visible, GuiSet()`pending
      modifies noteSet.ext`available, noteSet.ext`connected
      ensures noteSet.Valid() && gui != null && gui.note == this && gui.noteSet == noteSet && gui.visible
      ensures old(gui) == null ==>
                && fresh(gui) && gui.windowId == 0 && gui.gtkPos == reportedPos && gui.gtkSize == reportedSize
                && gui.text == body == old(body) && noteSet.ext.State() == old(noteSet.ext.State())
                && gui.Built(properties, noteSet.ext.IsAvailable()) && gui.placed == NotPlaced
      ensures old(gui) != null ==>
                && gui == old(gui) && body == gui.text
                && (noteSet.ext.State(), gui.lastKnownPos, gui.lastKnownSize) ==
                   Refresh(old(noteSet.ext.State()), shell, gui.windowId, gui.gtkPos, gui.gtkSize)
                && gui.pending == old(gui.pending) + if noteSet.ext.IsAvailable() && gui.windowId == 0 then multiset{AssignOnShow} else multiset{}
      ensures this in noteSet.notes ==>
                noteSet.Snaps() == old(noteSet.Snaps())[FirstIndex(noteSet.notes, this) := gui.AsSnap()]
      ensures this !in noteSet.notes ==> noteSet.Snaps() == old(noteSet.Snaps())
      ensures old(noteSet.HandlesDistinct()) ==> noteSet.HandlesDistinct()
    {
      if gui == null {
        BuildGui(reportedPos, reportedSize);
      } else {
        assert gui.Valid();
        gui.Show(shell);
      }
    }

    /** After `Show`, from GUI `g0` and body `b0`: a visible GUI, the old one holding the body, or a new one without a window ID. */
    ghost predicate ShownFrom(g0: StickyNote?, b0: string)
      reads this`gui, this`body, GuiSet()`visible, GuiSet()`text, GuiSet()`windowId
    {
      && gui != null && gui.visible
      && (g0 != null ==> gui == g0 && body == gui.text)
      && (g0 == null ==> gui.windowId == 0 && body == b0)
    }

    /**
     * This note's window after its turn in `ShowAll`, the bus having gone
     * from `before` to `after`: with no GUI before (`g0`), one built as
     * `Build` leaves it and placed at `at`; otherwise that window, holding
     * the geometry `refreshed`, with the 500 ms callback added to `p0` when
     * it still has no window ID.
     */
    ghost predicate ShownGeometry(g0: StickyNote?, before: Bus, after: Bus, refreshed: Snap, at: (Point, Point), p0: multiset<Timer>)
      reads this`gui, this`properties, GuiSet()`windowId, GuiSet()`lastKnownPos, GuiSet()`lastKnownSize
      reads GuiSet()`gtkPos, GuiSet()`gtkSize, GuiSet()`locked, GuiSet()`opacity, GuiSet()`pending
    {
      && gui != null
      && (g0 == null ==> gui.AsSnap() == BuiltSnap(properties, at) && gui.Built(properties, Available(before)))
      && (g0 != null ==>
            && gui.AsSnap() == refreshed
            && gui.pending == p0 + if Available(after) && gui.windowId == 0 then multiset{AssignOnShow} else multiset{})
    }

    /** `n.GUI = NewStickyNote(n)` (backend.go:103): the new GUI has no window ID. */
    method BuildGui(reportedPos: Point, reportedSize: Point)
      requires noteSet.Valid() && gui == null
      modifies this`gui
      ensures noteSet.Valid() && gui != null && fresh(gui) && gui.note == this && gui.noteSet == noteSet && gui.visible
      ensures gui.windowId == 0 && gui.gtkPos == reportedPos && gui.gtkSize == reportedSize && gui.text == body
      ensures gui.Built(properties, noteSet.ext.IsAvailable()) && gui.placed == NotPlaced
      ensures this in noteSet.notes ==>
                noteSet.Snaps() == old(noteSet.Snaps())[FirstIndex(noteSet.notes, this) := gui.AsSnap()]
      ensures this !in noteSet.notes ==> noteSet.Snaps() == old(noteSet.Snaps())
      ensures old(noteSet.HandlesDistinct()) ==> noteSet.HandlesDistinct()
    {
      var g := new StickyNote.Build(this, reportedPos, reportedSize);
      gui := g;
      noteSet.GuiAdded(this);
      if this in noteSet.notes && old(noteSet.HandlesDistinct()) {
        OldSnapsOfIndex(noteSet.notes);
        NewGuiDistinct(old(noteSet.Snaps()), FirstIndex(noteSet.notes, this), g.AsSnap());
      }
    }

    /**
     * `Note.SetLockedState` (backend.go:121-127): without a GUI the lock goes
     * into the properties, where a GUI built later restores it from; with
     * one, into the GUI.
     */
    method SetLockedState(l: bool)
      modifies this`properties, GuiSet()`locked
      ensures gui == null ==> properties == old(properties)["locked" := Bool(l)] && SavedLock(properties) == l
      ensures gui != null ==> gui.locked == l && properties == old(properties)
    {
      if gui == null {
        properties := properties["locked" := Bool(l)];
      } else {
        gui.SetLockedState(l);
      }
    }

    /** `CatProp` (backend.go:130-132): the note's category's property, resolved as `GetCategoryProperty` does. */
    function CatProp(prop: string): (v: Value)
      reads this`category, noteSet`properties, noteSet`categories
      ensures category != "" && category in noteSet.categories && prop in noteSet.categories[category] ==>
                v == noteSet.categories[category][prop]
      ensures category != "" && category !in noteSet.categories ==> v == Get(FallbackProperties, prop)
    {
      CategoryProperty(noteSet.properties, noteSet.categories, category, prop)
    }

    /** `Note.Delete` (backend.go:92-98): the note's first occurrence leaves the list, then the set is saved. */
    method Delete(shell: Shell) returns (w: Write)
      requires noteSet.Valid()
      modifies noteSet`notes, noteSet.Notes()`body, noteSet.Notes()`properties
      modifies noteSet.Guis()`lastKnownPos, noteSet.Guis()`lastKnownSize, noteSet.ext`available, noteSet.ext`connected
      ensures noteSet.Valid() && noteSet.notes == RemoveFirst(old(noteSet.notes), this) && this !in noteSet.notes
      ensures old(noteSet.HandlesDistinct()) ==> noteSet.HandlesDistinct()
      ensures w == Write(DataPath(noteSet.dataFile, noteSet.home), Document(noteSet.FieldsAll(), noteSet.properties, noteSet.categories))
      ensures this in old(noteSet.notes) ==>
                var k := FirstIndex(old(noteSet.notes), this);
                && noteSet.Buffers() == old(noteSet.Buffers())[..k] + old(noteSet.Buffers())[k + 1..]
                && (noteSet.ext.State(), noteSet.Snaps()) ==
                   RefreshUpTo(old(noteSet.ext.State()), shell, old(noteSet.Snaps())[..k] + old(noteSet.Snaps())[k + 1..], |noteSet.notes|)
                && Exported(noteSet.FieldsAll(), old(noteSet.FieldsAll())[..k] + old(noteSet.FieldsAll())[k + 1..], noteSet.Snaps(), noteSet.Buffers())
    {
      // This note's index and the lists it is removed from.
      ghost var k := if this in noteSet.notes then FirstIndex(noteSet.notes, this) else 0;
      ghost var f0, b0 := noteSet.FieldsAll(), noteSet.Buffers();
      noteSet.RemoveNote(this);
      w := noteSet.Save(shell);
    }

    /**
     * The patch `Merge` applies to a note it already has (backend.go:263-271):
     * `body`, `properties` and `cat` are taken when present with the right type.
     */
    method Patch(t: Table)
      modifies this`body, this`properties, this`category
      ensures Fields() == PatchFields(old(Fields()), t)
    {
      if Get(t, "body").Str? {
        body := Get(t, "body").s;
      }
      if Get(t, "properties").Object? {
        properties := Get(t, "properties").fields;
      }
      if Get(t, "cat").Str? {
        category := Get(t, "cat").s;
      }
    }

    /** `Update` (backend.go:85-88); `LastModified` is not modelled. */
    method Update(text: string)
      modifies this`body
      ensures body == text
      ensures noteSet.Valid() && this in noteSet.notes ==>
                var k := FirstIndex(noteSet.notes, this);
                noteSet.FieldsAll() == old(noteSet.FieldsAll())[k := old(noteSet.FieldsAll())[k].(body := text)]
      ensures this !in noteSet.notes ==> noteSet.FieldsAll() == old(noteSet.FieldsAll())
      ensures noteSet.Buffers() == old(noteSet.Buffers()) && noteSet.Snaps() == old(noteSet.Snaps())
    {
      body := text;
      if noteSet.Valid() && this in noteSet.notes {
        noteSet.OneNoteChanged(this);
        noteSet.IndexOfNote(FirstIndex(noteSet.notes, this));
        OldFieldsOfIndex(noteSet.notes);
      }
    }
  }

  class StickyNote {
    const note: Note
    const noteSet: NoteSet
    /** `Locked` */
    var locked: bool
    /** `WindowID`, 0 for none */
    var windowId: WindowId
    var lastKnownPos: Point
    var lastKnownSize: Point
    /** The restore position `buildNote`'s callbacks move the window to. */
    const restorePos: Point
    /** The size `buildNote` resized the window to, if any. */
    const resize: Option<Point>
    var opacity: real
    var visible: bool
    /** The contents of the text buffer `BBody`. */
    var text: string
    /** What `GetPosition` and `GetSize` currently report. */
    var gtkPos: Point
    var gtkSize: Point
    /** Where the last callback of `buildNote` moved the window. */
    var placed: Placement
    var pending: multiset<Timer>

    /**
     * `NewStickyNote` and `buildNote` (gui.go:90-336), up to the callbacks it
     * schedules. The UI file is taken to load. `reportedPos` and
     * `reportedSize` are what the toolkit reports once the window is shown.
     */
    constructor Build(n: Note, reportedPos: Point, reportedSize: Point)
      ensures note == n && noteSet == n.noteSet
      ensures locked == SavedLock(n.properties)
      ensures text == n.body
      ensures var g := InitialGeometry(n.properties);
        restorePos == g.restorePos && lastKnownPos == g.lastPos && lastKnownSize == g.lastSize && resize == g.resize
      ensures windowId == 0 && opacity == 0.0 && visible && placed == NotPlaced
      ensures gtkPos == reportedPos && gtkSize == reportedSize
      ensures pending == if n.noteSet.ext.IsAvailable() then multiset{FirstShow, VerifyPosition, AssignLater} else multiset{PlaceIdle}
    {
      note := n;
      noteSet := n.noteSet;
      locked := SavedLock(n.properties);
      text := n.body;
      var g := InitialGeometry(n.properties);
      restorePos, lastKnownPos, lastKnownSize, resize := g.restorePos, g.lastPos, g.lastSize, g.resize;
      windowId := 0;
      opacity := 0.0;
      visible := true;
      placed := NotPlaced;
      gtkPos, gtkSize := reportedPos, reportedSize;
      pending := if n.noteSet.ext.IsAvailable() then multiset{FirstShow, VerifyPosition, AssignLater} else multiset{PlaceIdle};
    }

    ghost function AsSnap(): Snap
      reads this`windowId, this`lastKnownPos, this`lastKnownSize, this`gtkPos, this`gtkSize
    {
      Gui(windowId, lastKnownPos, lastKnownSize, gtkPos, gtkSize)
    }

    ghost predicate Valid()
      reads note`gui, noteSet`notes, noteSet.Notes()`gui, noteSet.Notes()`uuid
    {
      note.gui == this && note.noteSet == noteSet && noteSet.Valid()
    }

    /**
     * The state `Build` leaves a window in, for a note with properties
     * `props` while the extension's availability is `available`: the lock
     * and geometry restored from `props`, transparent, no window ID, and the
     * callbacks `buildNote` schedules still pending.
     */
    ghost predicate Built(props: Table, available: bool)
      reads this`locked, this`windowId, this`lastKnownPos, this`lastKnownSize, this`opacity, this`pending
    {
      && locked == SavedLock(props)
      && var g := InitialGeometry(props);
      && restorePos == g.restorePos && lastKnownPos == g.lastPos && lastKnownSize == g.lastSize && resize == g.resize
      && windowId == 0 && opacity == 0.0
      && pending == if available then multiset{FirstShow, VerifyPosition, AssignLater} else multiset{PlaceIdle}
    }

    /**
     * Giving this GUI the window ID `v` (the assignments of gui.go:263, 419,
     * 593 and window_calls.go:358): from distinct handles, the handles stay
     * distinct exactly when `v` is 0, is the note's own ID, or is held by no
     * other note.
     */
    method TakeWindowId(v: WindowId)
      requires Valid()
      modifies this`windowId
      ensures windowId == v && Valid()
      ensures note in noteSet.notes ==>
                noteSet.Snaps() == old(noteSet.Snaps())[FirstIndex(noteSet.notes, note) := AsSnap()]
      ensures note !in noteSet.notes ==> noteSet.Snaps() == old(noteSet.Snaps())
      ensures old(noteSet.HandlesDistinct()) && note in noteSet.notes ==>
                (noteSet.HandlesDistinct() <==> v == 0 || v == old(windowId) || v !in old(noteSet.HeldByOthers(note)))
      ensures old(noteSet.HandlesDistinct()) && (v == 0 || v == old(windowId) || v !in old(noteSet.HeldByOthers(note))) ==>
                noteSet.HandlesDistinct()
    {
      ghost var before := noteSet.Snaps();
      SnapsOfIndex(noteSet.notes);
      noteSet.HeldByOthersAt(note);
      windowId := v;
      noteSet.OneGuiChanged(this);
      if note in noteSet.notes {
        var k := FirstIndex(noteSet.notes, note);
        assert before[k] == old(AsSnap());
        if Distinct(before) {
          RetakeDistinct(before, k, AsSnap());
        }
      }
    }

    /**
     * One candidate of `assignWindowID` (gui.go:365-410): skipped when held by
     * another note, or when it is listed with no size and its details fail;
     * otherwise scored on the listed geometry or, without a listed size, on
     * the details.
     */
    method EvaluateWindow(shell: Shell, win: WindowInfo, ghost claimed: set<WindowId>) returns (e: Eval)
      requires claimed == noteSet.HeldByOthers(note)
      modifies noteSet.ext`available, noteSet.ext`connected
      ensures (noteSet.ext.State(), e) == Evaluate(old(noteSet.ext.State()), shell, win, claimed, gtkSize, lastKnownPos)
      ensures noteSet.HeldByOthers(note) == claimed
    {
      var held := noteSet.IsHeldByOther(win.id, note);
      if held {
        return Skipped;
      }
      var x, y, w, h := win.x, win.y, win.width, win.height;
      if w == 0 && h == 0 {
        var d := noteSet.ext.GetWindowDetails(shell, win.id);
        if !d.Found? {
          return Skipped;
        }
        x, y, w, h := d.details.x, d.details.y, d.details.width, d.details.height;
      }
      var score := 0;
      if AbsInt(w - gtkSize.0) < 10 && AbsInt(h - gtkSize.1) < 10 {
        score := score + 10;
      }
      if lastKnownPos.0 != 0 || lastKnownPos.1 != 0 {
        if AbsInt(x - lastKnownPos.0) < 50 && AbsInt(y - lastKnownPos.1) < 50 {
          score := score + 5;
        }
      }
      return Scored(score);
    }

    /** The candidate loop of `assignWindowID` (gui.go:364-416), with `bestMatch` as the result. */
    method ChooseWindow(shell: Shell, ws: seq<WindowInfo>, ghost claimed: set<WindowId>) returns (best: Best)
      requires claimed == noteSet.HeldByOthers(note)
      modifies noteSet.ext`available, noteSet.ext`connected
      ensures (noteSet.ext.State(), best) == Choose(old(noteSet.ext.State()), shell, ws, claimed, gtkSize, lastKnownPos)
    {
      var ext := noteSet.ext;
      ghost var b1 := ext.State();
      var bestId: WindowId := 0;
      var bestScore: nat := 0;
      ghost var es: seq<Eval> := [];
      var i := 0;
      while i < |ws|
        invariant 0 <= i <= |ws| && |es| == i
        invariant noteSet.HeldByOthers(note) == claimed
        invariant (ext.State(), es) == Evals(b1, shell, ws[..i], claimed, gtkSize, lastKnownPos)
        invariant Best(bestId, bestScore) == Pick(ws[..i], es)
      {
        assert ws[..i + 1] == ws[..i] + [ws[i]];
        EvalsSnoc(b1, shell, ws[..i], ws[i], claimed, gtkSize, lastKnownPos);
        PickSnoc(ws[..i], ws[i], es, Evaluate(ext.State(), shell, ws[i], claimed, gtkSize, lastKnownPos).1);
        var e := EvaluateWindow(shell, ws[i], claimed);
        if e.Scored? && e.score > bestScore {
          bestId, bestScore := ws[i].id, e.score;
        }
        es := es + [e];
        i := i + 1;
      }
      assert ws[..i] == ws;
      return Best(bestId, bestScore);
    }

    /**
     * `assignWindowID` (gui.go:339-421): nothing without an ID of its own to
     * find; otherwise the highest-scoring window of the process not held by
     * another note, the earliest on ties, when it scores above 0.
     */
    method AssignWindowId(shell: Shell)
      requires Valid()
      modifies this`windowId, noteSet.ext`available, noteSet.ext`connected
      ensures Valid()
      ensures (noteSet.ext.State(), windowId) ==
              AssignStep(old(noteSet.ext.State()), shell, noteSet.ext.currentPid, old(windowId),
                         old(noteSet.HeldByOthers(note)), gtkSize, lastKnownPos)
      ensures old(noteSet.HandlesDistinct()) ==> noteSet.HandlesDistinct()
    {
      if windowId != 0 {
        return;
      }
      var v := FindWindow(shell);
      assert noteSet.HeldByOthers(note) == old(noteSet.HeldByOthers(note));
      if v != 0 {
        TakeWindowId(v);
      }
    }

    /** The search of `assignWindowID` for a GUI without an ID: the ID to take, or 0. */
    method FindWindow(shell: Shell) returns (v: WindowId)
      requires windowId == 0
      modifies noteSet.ext`available, noteSet.ext`connected
      ensures (noteSet.ext.State(), v) ==
              AssignStep(old(noteSet.ext.State()), shell, noteSet.ext.currentPid, 0, noteSet.HeldByOthers(note), gtkSize, lastKnownPos)
      ensures v == 0 || v !in noteSet.HeldByOthers(note)
    {
      var ext := noteSet.ext;
      var windows := ext.GetCurrentProcessWindows(shell);
      if windows.None? || |windows.value| == 0 {
        assert AssignStep(old(ext.State()), shell, ext.currentPid, 0, noteSet.HeldByOthers(note), gtkSize, lastKnownPos) == (ext.State(), 0);
        return 0;
      }
      ghost var b1 := ext.State();
      ghost var claimed := noteSet.HeldByOthers(note);
      var best := ChooseWindow(shell, windows.value, claimed);
      assert claimed == noteSet.HeldByOthers(note);
      ChooseIsBestFree(b1, shell, windows.value, claimed, gtkSize, lastKnownPos);
      v := if best.id != 0 then best.id else 0;
      assert AssignStep(old(ext.State()), shell, ext.currentPid, 0, claimed, gtkSize, lastKnownPos) == (ext.State(), v);
    }

    /**
     * The first-fit size match (gui.go:244-264 with `checkHeld`,
     * gui.go:588-596 without it; window_calls.go:336-368): the first window
     * whose details come back within 10 pixels of the GTK size in both
     * dimensions, skipping windows held by other notes only when `checkHeld`.
     */
    method FirstFreeFit(shell: Shell, ws: seq<WindowInfo>, checkHeld: bool, ghost claimed: set<WindowId>) returns (r: Option<Fit>)
      requires claimed == (if checkHeld then noteSet.HeldByOthers(note) else {})
      modifies noteSet.ext`available, noteSet.ext`connected
      ensures (noteSet.ext.State(), r) == FirstFit(old(noteSet.ext.State()), shell, ws, claimed, gtkSize)
    {
      var ext := noteSet.ext;
      ghost var b0 := ext.State();
      r := None;
      var i := 0;
      while i < |ws| && r.None?
        invariant 0 <= i <= |ws| && claimed == (if checkHeld then noteSet.HeldByOthers(note) else {})
        invariant r.None? ==> FirstFit(b0, shell, ws, claimed, gtkSize) == FirstFit(ext.State(), shell, ws[i..], claimed, gtkSize)
        invariant r.Some? ==> FirstFit(b0, shell, ws, claimed, gtkSize) == (ext.State(), r)
      {
        assert ws[i..][0] == ws[i] && ws[i..][1..] == ws[i + 1..];
        var held := false;
        if checkHeld {
          held := noteSet.IsHeldByOther(ws[i].id, note);
        }
        if !held {
          var d := ext.GetWindowDetails(shell, ws[i].id);
          if d.Found? && AbsInt(d.details.width - gtkSize.0) < 10 && AbsInt(d.details.height - gtkSize.1) < 10 {
            r := Some(Fit(ws[i].id, d.details));
          }
        }
        i := i + 1;
      }
    }

    /**
     * The 300 ms callback of `buildNote` (gui.go:235-293): without an ID, the
     * first free window of the process that fits the GTK size; then a move to
     * the restore position through the extension when there is an ID, by GTK
     * otherwise (and after a refused move). The window is made opaque on
     * every path.
     */
    method OnFirstShowTimer(shell: Shell)
      requires Valid() && FirstShow in pending
      modifies this`windowId, this`opacity, this`placed, this`pending, noteSet.ext`available, noteSet.ext`connected
      ensures Valid()
      ensures (noteSet.ext.State(), windowId, placed) ==
              MatchAndPlaceStep(old(noteSet.ext.State()), shell, noteSet.ext.currentPid, old(windowId),
                                old(noteSet.HeldByOthers(note)), gtkSize, restorePos)
      ensures opacity == 1.0 && pending == old(pending) - multiset{FirstShow}
      ensures old(noteSet.HandlesDistinct()) ==> noteSet.HandlesDistinct()
    {
      MatchWindow(shell, true);
      PlaceOnFirstShow(shell);
    }

    /**
     * The first-fit match of the 300 ms callback (gui.go:243-265, checking
     * other notes' IDs) and of `onConfigure` (gui.go:583-600, not checking
     * them). From distinct handles, they stay distinct exactly when the ID
     * taken is the note's own or held by no other note, which with the check
     * is always so.
     */
    method MatchWindow(shell: Shell, checkHeld: bool)
      requires Valid()
      modifies this`windowId, noteSet.ext`available, noteSet.ext`connected
      ensures Valid()
      ensures (noteSet.ext.State(), windowId) ==
              MatchFirstFit(old(noteSet.ext.State()), shell, noteSet.ext.currentPid, old(windowId),
                            if checkHeld then old(noteSet.HeldByOthers(note)) else {}, gtkSize)
      ensures old(noteSet.HandlesDistinct()) && note in noteSet.notes ==>
                (noteSet.HandlesDistinct() <==> windowId == old(windowId) || windowId !in old(noteSet.HeldByOthers(note)))
      ensures old(noteSet.HandlesDistinct()) && checkHeld ==> noteSet.HandlesDistinct()
    {
      if windowId != 0 {
        return;
      }
      var v := FindFit(shell, checkHeld);
      assert noteSet.HeldByOthers(note) == old(noteSet.HeldByOthers(note));
      if v != 0 {
        TakeWindowId(v);
      }
    }

    /** The search of `MatchWindow` for a GUI without an ID: the ID to take, or 0. */
    method FindFit(shell: Shell, checkHeld: bool) returns (v: WindowId)
      requires windowId == 0
      modifies noteSet.ext`available, noteSet.ext`connected
      ensures (noteSet.ext.State(), v) ==
              MatchFirstFit(old(noteSet.ext.State()), shell, noteSet.ext.currentPid, 0,
                            if checkHeld then noteSet.HeldByOthers(note) else {}, gtkSize)
      ensures checkHeld ==> v == 0 || v !in noteSet.HeldByOthers(note)
    {
      ghost var claimed := if checkHeld then noteSet.HeldByOthers(note) else {};
      var ext := noteSet.ext;
      var windows := ext.GetCurrentProcessWindows(shell);
      if windows.None? {
        assert MatchFirstFit(old(ext.State()), shell, ext.currentPid, 0, claimed, gtkSize) == (ext.State(), 0);
        return 0;
      }
      ghost var b1 := ext.State();
      var f := FirstFreeFit(shell, windows.value, checkHeld, claimed);
      if f.Some? {
        FirstFitIsFirstFree(b1, shell, windows.value, claimed, gtkSize);
      }
      v := if f.Some? then f.value.id else 0;
      assert claimed == if checkHeld then noteSet.HeldByOthers(note) else {};
      assert MatchFirstFit(old(ext.State()), shell, ext.currentPid, 0, claimed, gtkSize) == (ext.State(), v);
    }

    /** The move of the 300 ms callback (gui.go:267-292), after which it has run. */
    method PlaceOnFirstShow(shell: Shell)
      requires FirstShow in pending
      modifies this`placed, this`opacity, this`pending, noteSet.ext`available, noteSet.ext`connected
      ensures (noteSet.ext.State(), placed) == Place(old(noteSet.ext.State()), shell, windowId, restorePos)
      ensures opacity == 1.0 && pending == old(pending) - multiset{FirstShow}
    {
      opacity := 1.0;
      pending := pending - multiset{FirstShow};
      if windowId != 0 {
        var ok := noteSet.ext.MoveWindow(shell, windowId, restorePos.0, restorePos.1);
        placed := if ok then MovedByShell(restorePos) else MovedByGtk(restorePos);
      } else {
        placed := MovedByGtk(restorePos);
      }
    }

    /**
     * The 1500 ms callback of `buildNote` (gui.go:307-323): `assignWindowID`
     * when there is no ID yet, then, with an ID, one details query whose
     * answer is not used.
     */
    method OnVerifyTimer(shell: Shell)
      requires Valid() && VerifyPosition in pending
      modifies this`windowId, this`pending, noteSet.ext`available, noteSet.ext`connected
      ensures Valid()
      ensures (noteSet.ext.State(), windowId) ==
              VerifyStep(old(noteSet.ext.State()), shell, noteSet.ext.currentPid, old(windowId),
                         old(noteSet.HeldByOthers(note)), gtkSize, lastKnownPos)
      ensures pending == old(pending) - multiset{VerifyPosition}
      ensures old(noteSet.HandlesDistinct()) ==> noteSet.HandlesDistinct()
    {
      AssignWindowId(shell);
      CheckPosition(shell);
    }

    /** The end of the 1500 ms callback (gui.go:314-322): with an ID, a details query; the callback has run. */
    method CheckPosition(shell: Shell)
      requires VerifyPosition in pending
      modifies this`pending, noteSet.ext`available, noteSet.ext`connected
      ensures noteSet.ext.State() == if windowId == 0 then old(noteSet.ext.State()) else DetailsStep(old(noteSet.ext.State()), shell, windowId).0
      ensures pending == old(pending) - multiset{VerifyPosition}
    {
      pending := pending - multiset{VerifyPosition};
      if windowId != 0 {
        var _ := noteSet.ext.GetWindowDetails(shell, windowId);
      }
    }

    /**
     * The 500 ms callbacks of `buildNote` (gui.go:330-333) and `Show`
     * (gui.go:433-436): `assignWindowID`.
     */
    method OnAssignTimer(shell: Shell, t: Timer)
      requires Valid() && (t == AssignLater || t == AssignOnShow) && t in pending
      modifies this`windowId, this`pending, noteSet.ext`available, noteSet.ext`connected
      ensures Valid()
      ensures (noteSet.ext.State(), windowId) ==
              AssignStep(old(noteSet.ext.State()), shell, noteSet.ext.currentPid, old(windowId),
                         old(noteSet.HeldByOthers(note)), gtkSize, lastKnownPos)
      ensures pending == old(pending) - multiset{t}
      ensures old(noteSet.HandlesDistinct()) ==> noteSet.HandlesDistinct()
    {
      AssignWindowId(shell);
      pending := pending - multiset{t};
    }

    /** The idle callback of `buildNote` without the extension (gui.go:296-300): a GTK move, then opaque. */
    method OnIdleMove()
      requires PlaceIdle in pending
      modifies this`placed, this`opacity, this`pending
      ensures placed == MovedByGtk(restorePos) && opacity == 1.0
      ensures pending == old(pending) - multiset{PlaceIdle}
    {
      pending := pending - multiset{PlaceIdle};
      placed := MovedByGtk(restorePos);
      opacity := 1.0;
    }

    /**
     * `UpdateNote` (gui.go:449-472): the buffer's text becomes the note's body;
     * the geometry comes from the extension when it answers for the window
     * ID, from GTK otherwise. The window ID is not touched.
     */
    method UpdateNote(shell: Shell)
      requires Valid()
      modifies note`body, this`lastKnownPos, this`lastKnownSize, noteSet.ext`available, noteSet.ext`connected
      ensures Valid() && note.body == text
      ensures (noteSet.ext.State(), lastKnownPos, lastKnownSize) == Refresh(old(noteSet.ext.State()), shell, windowId, gtkPos, gtkSize)
      ensures noteSet.Buffers() == old(noteSet.Buffers())
      ensures note in noteSet.notes ==>
                var k := FirstIndex(noteSet.notes, note);
                noteSet.FieldsAll() == old(noteSet.FieldsAll())[k := old(noteSet.FieldsAll())[k].(body := text)]
      ensures note in noteSet.notes ==>
                noteSet.Snaps() == old(noteSet.Snaps())[FirstIndex(noteSet.notes, note) := AsSnap()]
      ensures note !in noteSet.notes ==> noteSet.Snaps() == old(noteSet.Snaps())
      ensures note in noteSet.notes ==>
                (noteSet.ext.State(), noteSet.Snaps()) ==
                RefreshAt(old(noteSet.ext.State()), shell, old(noteSet.Snaps()), FirstIndex(noteSet.notes, note))
      ensures noteSet.HandlesDistinct() == old(noteSet.HandlesDistinct())
    {
      note.Update(text);
      assert Valid();
      RefreshGeometry(shell);
    }

    /** The geometry block of `UpdateNote` (gui.go:452-470). */
    method RefreshGeometry(shell: Shell)
      requires Valid()
      modifies this`lastKnownPos, this`lastKnownSize, noteSet.ext`available, noteSet.ext`connected
      ensures Valid()
      ensures noteSet.Buffers() == old(noteSet.Buffers()) && noteSet.FieldsAll() == old(noteSet.FieldsAll())
      ensures (noteSet.ext.State(), lastKnownPos, lastKnownSize) == Refresh(old(noteSet.ext.State()), shell, windowId, gtkPos, gtkSize)
      ensures note in noteSet.notes ==>
                noteSet.Snaps() == old(noteSet.Snaps())[FirstIndex(noteSet.notes, note) := AsSnap()]
      ensures note !in noteSet.notes ==> noteSet.Snaps() == old(noteSet.Snaps())
      ensures note in noteSet.notes ==>
                (noteSet.ext.State(), noteSet.Snaps()) ==
                RefreshAt(old(noteSet.ext.State()), shell, old(noteSet.Snaps()), FirstIndex(noteSet.notes, note))
      ensures noteSet.HandlesDistinct() == old(noteSet.HandlesDistinct())
    {
      ghost var before := noteSet.Snaps();
      SnapsOfIndex(noteSet.notes);
      var g: Option<(Point, Point)> := None;
      if noteSet.ext.IsAvailable() {
        g := LookupGeometry(shell);
      }
      assert noteSet.Snaps() == before;
      var (pos, size) := if g.Some? then g.value else (gtkPos, gtkSize);
      SetGeometry(pos, size);
      if note in noteSet.notes {
        assert before[FirstIndex(noteSet.notes, note)] == old(AsSnap());
      }
    }

    /** The details query for the window ID, as a position and size (gui.go:454-462, 603-615). */
    method LookupGeometry(shell: Shell) returns (g: Option<(Point, Point)>)
      modifies noteSet.ext`available, noteSet.ext`connected
      ensures (noteSet.ext.State(), g) == ShellGeometry(old(noteSet.ext.State()), shell, windowId)
      ensures noteSet.Snaps() == old(noteSet.Snaps()) && noteSet.HeldByOthers(note) == old(noteSet.HeldByOthers(note))
      ensures noteSet.Buffers() == old(noteSet.Buffers()) && noteSet.FieldsAll() == old(noteSet.FieldsAll())
    {
      if windowId == 0 {
        return None;
      }
      var d := noteSet.ext.GetWindowDetails(shell, windowId);
      g := if d.Found? then Some(((d.details.x, d.details.y), (d.details.width, d.details.height))) else None;
    }

    /**
     * Setting `LastKnownPos` and `LastKnownSize`: the snapshot list changes at
     * this note's index only, and the handles are as distinct as before.
     */
    method SetGeometry(pos: Point, size: Point)
      requires Valid()
      modifies this`lastKnownPos, this`lastKnownSize
      ensures Valid() && lastKnownPos == pos && lastKnownSize == size
      ensures noteSet.Buffers() == old(noteSet.Buffers()) && noteSet.FieldsAll() == old(noteSet.FieldsAll())
      ensures note in noteSet.notes ==>
                noteSet.Snaps() == old(noteSet.Snaps())[FirstIndex(noteSet.notes, note) := AsSnap()]
      ensures note !in noteSet.notes ==> noteSet.Snaps() == old(noteSet.Snaps())
      ensures noteSet.HandlesDistinct() == old(noteSet.HandlesDistinct())
    {
      ghost var before := noteSet.Snaps();
      SnapsOfIndex(noteSet.notes);
      lastKnownPos, lastKnownSize := pos, size;
      noteSet.OneGuiChanged(this);
      if note in noteSet.notes {
        var k := FirstIndex(noteSet.notes, note);
        ghost var after := noteSet.Snaps();
        SnapsOfIndex(noteSet.notes);
        assert before[k] == old(AsSnap()) && after[k] == AsSnap();
        if Distinct(before) {
          RetakeDistinct(before, k, AsSnap());
        }
        if Distinct(after) {
          assert before == after[k := before[k]];
          RetakeDistinct(after, k, before[k]);
        }
      }
    }

    /**
     * `StickyNote.Show` (gui.go:423-441) on a built window: `UpdateNote`,
     * then, with the extension available and no ID yet, a 500 ms
     * `assignWindowID`.
     */
    method Show(shell: Shell)
      requires Valid()
      modifies note`body, this`lastKnownPos, this`lastKnownSize, this`visible, this`pending
      modifies noteSet.ext`available, noteSet.ext`connected
      ensures Valid() && visible && note.body == text
      ensures (noteSet.ext.State(), lastKnownPos, lastKnownSize) == Refresh(old(noteSet.ext.State()), shell, windowId, gtkPos, gtkSize)
      ensures pending == old(pending) + if noteSet.ext.IsAvailable() && windowId == 0 then multiset{AssignOnShow} else multiset{}
      ensures note in noteSet.notes ==>
                noteSet.Snaps() == old(noteSet.Snaps())[FirstIndex(noteSet.notes, note) := AsSnap()]
      ensures note !in noteSet.notes ==> noteSet.Snaps() == old(noteSet.Snaps())
      ensures noteSet.HandlesDistinct() == old(noteSet.HandlesDistinct())
    {
      UpdateNote(shell);
      Reveal();
    }

    /** The end of `StickyNote.Show` (gui.go:429-437): the window is shown, and the 500 ms callback scheduled when it has no ID. */
    method Reveal()
      modifies this`visible, this`pending
      ensures visible
      ensures noteSet.Snaps() == old(noteSet.Snaps()) && noteSet.HandlesDistinct() == old(noteSet.HandlesDistinct())
      ensures pending == old(pending) + if noteSet.ext.IsAvailable() && windowId == 0 then multiset{AssignOnShow} else multiset{}
    {
      visible := true;
      if noteSet.ext.IsAvailable() && windowId == 0 {
        pending := pending + multiset{AssignOnShow};
      }
    }

    /** `StickyNote.Hide` (gui.go:443-447): the window is hidden and keeps its window ID. */
    method Hide()
      modifies this`visible
      ensures !visible && windowId == old(windowId)
    {
      visible := false;
    }

    /** `Properties` (gui.go:474-501) of this window. */
    function Properties(): Table
      reads this`lastKnownPos, this`lastKnownSize, this`gtkPos, this`gtkSize, this`locked
    {
      PropertiesOf(lastKnownPos, lastKnownSize, gtkPos, gtkSize, locked)
    }

    /**
     * `onConfigure` up to its `Save` (gui.go:574-629): with the extension, a
     * first size match that does not check other notes' IDs when there is no
     * ID yet, then the ID's details; GTK's values otherwise, keeping the old
     * ones for a (0, 0) position or a size not above 1x1. From distinct
     * handles, they stay distinct exactly when the ID taken was not held by
     * another note.
     */
    method ConfigureGeometry(shell: Shell)
      requires Valid()
      modifies this`windowId, this`lastKnownPos, this`lastKnownSize, noteSet.ext`available, noteSet.ext`connected
      ensures Valid()
      ensures var r := ConfigureStep(old(noteSet.ext.State()), shell, noteSet.ext.currentPid, old(windowId), gtkSize);
        && noteSet.ext.State() == r.0 && windowId == r.1
        && (lastKnownPos, lastKnownSize) ==
           (if r.2.Some? then r.2.value else ConfigureFallback(old(lastKnownPos), old(lastKnownSize), gtkPos, gtkSize))
      ensures noteSet.Buffers() == old(noteSet.Buffers()) && noteSet.FieldsAll() == old(noteSet.FieldsAll())
      ensures note in noteSet.notes ==>
                noteSet.Snaps() == old(noteSet.Snaps())[FirstIndex(noteSet.notes, note) := AsSnap()]
      ensures old(noteSet.HandlesDistinct()) && note in noteSet.notes ==>
                (noteSet.HandlesDistinct() <==> windowId == old(windowId) || windowId !in old(noteSet.HeldByOthers(note)))
    {
      var g := ConfigureFromShell(shell);
      var (pos, size) := if g.Some? then g.value else ConfigureFallback(lastKnownPos, lastKnownSize, gtkPos, gtkSize);
      SetGeometry(pos, size);
      noteSet.OneGuiChanged(this);
    }

    /** The extension part of `onConfigure` (gui.go:580-617): the match, then the ID's geometry. */
    method ConfigureFromShell(shell: Shell) returns (g: Option<(Point, Point)>)
      requires Valid()
      modifies this`windowId, noteSet.ext`available, noteSet.ext`connected
      ensures Valid()
      ensures (noteSet.ext.State(), windowId, g) == ConfigureStep(old(noteSet.ext.State()), shell, noteSet.ext.currentPid, old(windowId), gtkSize)
      ensures noteSet.Buffers() == old(noteSet.Buffers()) && noteSet.FieldsAll() == old(noteSet.FieldsAll())
      ensures old(noteSet.HandlesDistinct()) && note in noteSet.notes ==>
                (noteSet.HandlesDistinct() <==> windowId == old(windowId) || windowId !in old(noteSet.HeldByOthers(note)))
    {
      if !noteSet.ext.IsAvailable() {
        return None;
      }
      MatchWindow(shell, false);
      noteSet.BuffersKept();
      ghost var distinct := noteSet.HandlesDistinct();
      g := LookupGeometry(shell);
      assert noteSet.HandlesDistinct() == distinct;
    }

    /**
     * One note of `UpdateNotePositionsFromWindowCalls` (window_calls.go:313-368):
     * with an ID whose details come back, that geometry; otherwise the first
     * window not held by another note whose details fit the GTK size, with
     * its ID and geometry.
     */
    method SyncPosition(shell: Shell, ws: seq<WindowInfo>) returns (updated: bool)
      requires Valid()
      modifies this`windowId, this`lastKnownPos, this`lastKnownSize, noteSet.ext`available, noteSet.ext`connected
      ensures Valid()
      ensures SyncStep(old(noteSet.ext.State()), shell, ws, old(noteSet.HeldByOthers(note)), old(windowId),
                       old(lastKnownPos), old(lastKnownSize), gtkSize)
              == Sync(noteSet.ext.State(), windowId, lastKnownPos, lastKnownSize, updated)
      ensures note in noteSet.notes ==>
                noteSet.Snaps() == old(noteSet.Snaps())[FirstIndex(noteSet.notes, note) := AsSnap()]
    {
      var g: Option<(Point, Point)> := None;
      if windowId != 0 {
        g := LookupGeometry(shell);
      }
      if g.Some? {
        updated := g.value.0 != lastKnownPos;
        SetGeometry(g.value.0, g.value.1);
      } else {
        updated := MatchBySize(shell, ws);
      }
    }

    /** The size match of `UpdateNotePositionsFromWindowCalls` (window_calls.go:335-368). */
    method MatchBySize(shell: Shell, ws: seq<WindowInfo>) returns (updated: bool)
      requires Valid()
      modifies this`windowId, this`lastKnownPos, this`lastKnownSize, noteSet.ext`available, noteSet.ext`connected
      ensures Valid()
      ensures var (b, f) := FirstFit(old(noteSet.ext.State()), shell, ws, old(noteSet.HeldByOthers(note)), gtkSize);
        && noteSet.ext.State() == b && updated == f.Some?
        && (windowId, lastKnownPos, lastKnownSize) ==
           if f.Some? then (f.value.id, (f.value.details.x, f.value.details.y), (f.value.details.width, f.value.details.height))
           else (old(windowId), old(lastKnownPos), old(lastKnownSize))
      ensures note in noteSet.notes ==>
                noteSet.Snaps() == old(noteSet.Snaps())[FirstIndex(noteSet.notes, note) := AsSnap()]
    {
      ghost var claimed := noteSet.HeldByOthers(note);
      var f := FirstFreeFit(shell, ws, true, claimed);
      if f.Some? {
        Adopt(f.value.id, (f.value.details.x, f.value.details.y), (f.value.details.width, f.value.details.height));
        updated := true;
      } else {
        SnapsOfIndex(noteSet.notes);
        updated := false;
      }
    }

    /** The assignments of a size match in `UpdateNotePositionsFromWindowCalls` (window_calls.go:358-364). */
    method Adopt(v: WindowId, pos: Point, size: Point)
      requires Valid()
      modifies this`windowId, this`lastKnownPos, this`lastKnownSize
      ensures Valid() && windowId == v && lastKnownPos == pos && lastKnownSize == size
      ensures note in noteSet.notes ==>
                noteSet.Snaps() == old(noteSet.Snaps())[FirstIndex(noteSet.notes, note) := AsSnap()]
    {
      windowId, lastKnownPos, lastKnownSize := v, pos, size;
      noteSet.OneGuiChanged(this);
    }

    /** `SetLockedState` (gui.go:534-549): only `Locked` changes. */
    method SetLockedState(l: bool)
      modifies this`locked
      ensures locked == l
    {
      locked := l;
    }

    /** `onLockClicked` (gui.go:530-532): the lock state flips. */
    method OnLockClicked()
      modifies this`locked
      ensures locked == !old(locked)
    {
      SetLockedState(!locked);
    }

    /**
     * `onFocusOut` (gui.go:569-572): `UpdateNote`, then the set is saved. The
     * window ID is not touched, and the file written carries the buffer's
     * text as this note's body.
     */
    method OnFocusOut(shell: Shell) returns (w: Write)
      requires Valid()
      modifies note`body, this`lastKnownPos, this`lastKnownSize
      modifies noteSet.Notes()`body, noteSet.Notes()`properties, noteSet.Guis()`lastKnownPos, noteSet.Guis()`lastKnownSize
      modifies noteSet.ext`available, noteSet.ext`connected
      ensures Valid() && windowId == old(windowId)
      ensures noteSet.HandlesDistinct() == old(noteSet.HandlesDistinct())
      ensures w == Write(DataPath(noteSet.dataFile, noteSet.home), Document(noteSet.FieldsAll(), noteSet.properties, noteSet.categories))
      ensures noteSet.Buffers() == old(noteSet.Buffers())
      ensures note in noteSet.notes ==>
                var r := RefreshAt(old(noteSet.ext.State()), shell, old(noteSet.Snaps()), FirstIndex(noteSet.notes, note));
                (noteSet.ext.State(), noteSet.Snaps()) == RefreshUpTo(r.0, shell, r.1, |noteSet.notes|)
      ensures note in noteSet.notes ==> note.body == text && note.properties == Properties()
    {
      UpdateNote(shell);
      w := SaveSet(shell);
    }

    /**
     * `sn.NoteSet.Save()` from a window's callback: the set is saved, and this
     * note's entry carries the buffer's text and the window's `Properties`.
     */
    method SaveSet(shell: Shell) returns (w: Write)
      requires Valid()
      modifies noteSet.Notes()`body, noteSet.Notes()`properties, noteSet.Guis()`lastKnownPos, noteSet.Guis()`lastKnownSize
      modifies noteSet.ext`available, noteSet.ext`connected
      ensures Valid() && windowId == old(windowId)
      ensures (noteSet.ext.State(), noteSet.Snaps()) ==
              RefreshUpTo(old(noteSet.ext.State()), shell, old(noteSet.Snaps()), |noteSet.notes|)
      ensures noteSet.HandlesDistinct() == old(noteSet.HandlesDistinct())
      ensures w == Write(DataPath(noteSet.dataFile, noteSet.home), Document(noteSet.FieldsAll(), noteSet.properties, noteSet.categories))
      ensures Exported(noteSet.FieldsAll(), old(noteSet.FieldsAll()), noteSet.Snaps(), noteSet.Buffers()) && noteSet.Buffers() == old(noteSet.Buffers())
      ensures note in noteSet.notes ==> note.body == text && note.properties == Properties()
    {
      w := noteSet.Save(shell);
      SavedEntry();
    }

    /**
     * `onConfigure` (gui.go:574-629): the geometry of `ConfigureGeometry`,
     * then the set is saved. The window ID is the one the size match and
     * lookup leave; from distinct handles they stay distinct exactly when
     * that ID is the old one or was held by no other note.
     */
    method OnConfigure(shell: Shell) returns (w: Write)
      requires Valid()
      modifies this`windowId, this`lastKnownPos, this`lastKnownSize
      modifies noteSet.Notes()`body, noteSet.Notes()`properties, noteSet.Guis()`lastKnownPos, noteSet.Guis()`lastKnownSize
      modifies noteSet.ext`available, noteSet.ext`connected
      ensures Valid() && windowId == ConfigureStep(old(noteSet.ext.State()), shell, noteSet.ext.currentPid, old(windowId), gtkSize).1
      ensures old(noteSet.HandlesDistinct()) && note in noteSet.notes ==>
                (noteSet.HandlesDistinct() <==> windowId == old(windowId) || windowId !in old(noteSet.HeldByOthers(note)))
      ensures w == Write(DataPath(noteSet.dataFile, noteSet.home), Document(noteSet.FieldsAll(), noteSet.properties, noteSet.categories))
      ensures noteSet.Buffers() == old(noteSet.Buffers())
      ensures note in noteSet.notes ==>
                var c := ConfigureStep(old(noteSet.ext.State()), shell, noteSet.ext.currentPid, old(windowId), gtkSize);
                var g := if c.2.Some? then c.2.value else ConfigureFallback(old(lastKnownPos), old(lastKnownSize), gtkPos, gtkSize);
                (noteSet.ext.State(), noteSet.Snaps()) ==
                RefreshUpTo(c.0, shell, old(noteSet.Snaps())[FirstIndex(noteSet.notes, note) := Gui(c.1, g.0, g.1, gtkPos, gtkSize)], |noteSet.notes|)
      ensures Exported(noteSet.FieldsAll(), old(noteSet.FieldsAll()), noteSet.Snaps(), noteSet.Buffers())
      ensures note in noteSet.notes ==> note.body == text && note.properties == Properties()
    {
      ConfigureGeometry(shell);
      w := SaveSet(shell);
    }

    /**
     * `setCategory` (gui.go:706-720): a category the set does not have, or
     * the note's own, changes nothing and writes nothing; otherwise the note
     * takes it and the set is saved (the CSS and font reloads are not
     * modelled).
     */
    method SetCategory(shell: Shell, cat: string) returns (w: Option<Write>)
      requires Valid()
      modifies note`category
      modifies noteSet.Notes()`body, noteSet.Notes()`properties, noteSet.Guis()`lastKnownPos, noteSet.Guis()`lastKnownSize
      modifies noteSet.ext`available, noteSet.ext`connected
      ensures Valid() && windowId == old(windowId)
      ensures w.None? <==> cat !in noteSet.categories || old(note.category) == cat
      ensures note.category == if w.None? then old(note.category) else cat
      ensures w.None? ==> noteSet.ext.State() == old(noteSet.ext.State()) && noteSet.Snaps() == old(noteSet.Snaps())
      ensures w.None? ==> noteSet.FieldsAll() == old(noteSet.FieldsAll())
      ensures noteSet.Buffers() == old(noteSet.Buffers())
      ensures w.Some? ==> (noteSet.ext.State(), noteSet.Snaps()) == RefreshUpTo(old(noteSet.ext.State()), shell, old(noteSet.Snaps()), |noteSet.notes|)
      ensures w.Some? ==>
                w.value == Write(DataPath(noteSet.dataFile, noteSet.home), Document(noteSet.FieldsAll(), noteSet.properties, noteSet.categories))
      ensures noteSet.HandlesDistinct() == old(noteSet.HandlesDistinct())
    {
      if cat !in noteSet.categories || note.category == cat {
        return None;
      }
      var x := ChangeCategory(shell, cat);
      w := Some(x);
    }

    /** The note takes the category `cat`, then the set is saved. */
    method ChangeCategory(shell: Shell, cat: string) returns (w: Write)
      requires Valid()
      modifies note`category
      modifies noteSet.Notes()`body, noteSet.Notes()`properties, noteSet.Guis()`lastKnownPos, noteSet.Guis()`lastKnownSize
      modifies noteSet.ext`available, noteSet.ext`connected
      ensures Valid() && windowId == old(windowId) && note.category == cat
      ensures w == Write(DataPath(noteSet.dataFile, noteSet.home), Document(noteSet.FieldsAll(), noteSet.properties, noteSet.categories))
      ensures noteSet.Buffers() == old(noteSet.Buffers())
      ensures (noteSet.ext.State(), noteSet.Snaps()) == RefreshUpTo(old(noteSet.ext.State()), shell, old(noteSet.Snaps()), |noteSet.notes|)
      ensures noteSet.HandlesDistinct() == old(noteSet.HandlesDistinct())
    {
      WriteCategory(cat);
      w := SaveSet(shell);
    }

    /** `note.Category = cat`: nothing this GUI depends on changes. */
    method WriteCategory(cat: string)
      requires Valid()
      modifies note`category
      ensures Valid() && note.category == cat && noteSet.HandlesDistinct() == old(noteSet.HandlesDistinct())
      ensures noteSet.Snaps() == old(noteSet.Snaps()) && noteSet.Buffers() == old(noteSet.Buffers())
      ensures noteSet.ext.State() == old(noteSet.ext.State()) && noteSet.notes == old(noteSet.notes)
    {
      note.category := cat;
    }

    /**
     * `onAdd` (gui.go:503-513): a new note in the set, with this note's
     * category, whose window is moved 10 pixels below this one's as the
     * toolkit reports it.
     */
    method OnAdd(shell: Shell, freshId: string, reportedPos: Point, reportedSize: Point) returns (n: Note)
      requires Valid() && freshId != ""
      modifies noteSet`notes, noteSet.ext`available, noteSet.ext`connected
      ensures Valid() && fresh(n) && n.noteSet == noteSet && noteSet.notes == old(noteSet.notes) + [n]
      ensures n.Fields() == NoteFields(freshId, "", map[], note.category)
      ensures n.gui != null && fresh(n.gui) && n.gui.windowId == 0 && n.gui.visible
      ensures n.gui.placed == MovedByGtk((gtkPos.0, gtkPos.1 + gtkSize.1 + 10))
      ensures n.gui.Built(map[], noteSet.ext.IsAvailable())
      ensures n.gui.gtkPos == reportedPos && n.gui.gtkSize == reportedSize && n.gui.text == ""
      ensures noteSet.Snaps() == old(noteSet.Snaps()) + [n.gui.AsSnap()]
      ensures old(noteSet.HandlesDistinct()) ==> noteSet.HandlesDistinct()
    {
      n := noteSet.New(shell, freshId, reportedPos, reportedSize);
      noteSet.PlaceAdded(n, note.category, (gtkPos.0, gtkPos.1 + gtkSize.1 + 10));
    }

    /**
     * `onDelete` (gui.go:515-528): with the dialog's answer `confirmed`, the
     * note is deleted and the set saved; otherwise nothing happens.
     * Destroying the window is not modelled.
     */
    method OnDelete(shell: Shell, confirmed: bool) returns (w: Option<Write>)
      requires Valid()
      modifies noteSet`notes, noteSet.Notes()`body, noteSet.Notes()`properties
      modifies noteSet.Guis()`lastKnownPos, noteSet.Guis()`lastKnownSize, noteSet.ext`available, noteSet.ext`connected
      ensures noteSet.Valid() && (w.Some? <==> confirmed)
      ensures !confirmed ==> noteSet.notes == old(noteSet.notes) && noteSet.ext.State() == old(noteSet.ext.State())
      ensures !confirmed ==>
                noteSet.FieldsAll() == old(noteSet.FieldsAll()) && noteSet.Snaps() == old(noteSet.Snaps()) && noteSet.Buffers() == old(noteSet.Buffers())
      ensures confirmed ==> noteSet.notes == RemoveFirst(old(noteSet.notes), note) && note !in noteSet.notes
      ensures confirmed ==>
                w.value == Write(DataPath(noteSet.dataFile, noteSet.home), Document(noteSet.FieldsAll(), noteSet.properties, noteSet.categories))
      ensures confirmed && note in old(noteSet.notes) ==>
                var k := FirstIndex(old(noteSet.notes), note);
                && noteSet.Buffers() == old(noteSet.Buffers())[..k] + old(noteSet.Buffers())[k + 1..]
                && (noteSet.ext.State(), noteSet.Snaps()) ==
                   RefreshUpTo(old(noteSet.ext.State()), shell, old(noteSet.Snaps())[..k] + old(noteSet.Snaps())[k + 1..], |noteSet.notes|)
                && Exported(noteSet.FieldsAll(), old(noteSet.FieldsAll())[..k] + old(noteSet.FieldsAll())[k + 1..], noteSet.Snaps(), noteSet.Buffers())
      ensures old(noteSet.HandlesDistinct()) ==> noteSet.HandlesDistinct()
    {
      if !confirmed {
        return None;
      }
      var x := note.Delete(shell);
      w := Some(x);
    }

    /** After `Save`, this note's fields are what `Export` makes of its window. */
    twostate lemma SavedEntry()
      requires Valid() && noteSet.notes == old(noteSet.notes)
      requires Exported(noteSet.FieldsAll(), old(noteSet.FieldsAll()), noteSet.Snaps(), noteSet.Buffers())
      ensures note in noteSet.notes ==> note.body == text && note.properties == Properties()
    {
      if note in noteSet.notes {
        var k := FirstIndex(noteSet.notes, note);
        SnapsOfIndex(noteSet.notes);
        BuffersOfIndex(noteSet.notes);
        FieldsOfIndex(noteSet.notes);
        assert noteSet.Snaps()[k] == AsSnap() && noteSet.Buffers()[k] == (text, locked);
        assert Entry(noteSet.FieldsAll(), k) == noteSet.FieldsAll()[k];
      }
    }
  }

  class NoteSet {
    var notes: seq<Note>
    var properties: Table
    var categories: map<string, Table>
    /** `DataFile` */
    const dataFile: string
    /** What `os.UserHomeDir` returns. */
    const home: string
    /** The extension globals of stickynotes/window_calls.go. */
    const ext: Extension

    /** `NewNoteSet` */
    constructor Init(path: string, homeDir: string, extension: Extension)
      requires IndexablePath(path)
      ensures notes == [] && properties == map[] && categories == map[]
      ensures dataFile == path && home == homeDir && ext == extension
      ensures Valid()
    {
      notes, properties, categories := [], map[], map[];
      dataFile, home, ext := path, homeDir, extension;
    }

    ghost function Notes(): set<Note>
      reads this`notes
    {
      set n | n in notes
    }

    ghost function Guis(): set<StickyNote>
      reads this`notes, Notes()`gui
    {
      set n | n in notes && n.gui != null :: n.gui
    }

    ghost predicate Valid()
      reads this`notes, Notes()`gui, Notes()`uuid
    {
      && IndexablePath(dataFile)
      && (forall i, j :: 0 <= i < j < |notes| ==> notes[i] != notes[j])
      && (forall n :: n in notes ==> n.noteSet == this && n.uuid != "")
      && (forall n :: n in notes && n.gui != null ==> n.gui.note == n && n.gui.noteSet == this)
    }

    ghost function Snaps(): seq<Snap>
      reads this`notes, Notes()`gui, Guis()`windowId, Guis()`lastKnownPos, Guis()`lastKnownSize
      reads Guis()`gtkPos, Guis()`gtkSize
    {
      SnapsOf(notes)
    }

    /** No two notes' GUIs hold the same non-zero window ID. */
    ghost predicate HandlesDistinct()
      reads this`notes, Notes()`gui, Guis()`windowId, Guis()`lastKnownPos, Guis()`lastKnownSize
      reads Guis()`gtkPos, Guis()`gtkSize
    {
      Distinct(Snaps())
    }

    /** The window IDs the claimed-by-other loop compares against, for note `me`. */
    ghost function HeldByOthers(me: Note): set<WindowId>
      reads this`notes, Notes()`gui, Guis()`windowId
    {
      set n | n in notes && n != me && n.gui != null :: n.gui.windowId
    }

    /** The heap's claimed set is the one of the snapshot list. */
    lemma HeldByOthersAt(me: Note)
      requires Valid()
      ensures me in notes ==> HeldByOthers(me) == Bookkeeping.HeldByOthers(Snaps(), FirstIndex(notes, me))
      ensures me !in notes ==> HeldByOthers(me) == Bookkeeping.HeldByOthers(Snaps(), -1)
    {
      var k := if me in notes then FirstIndex(notes, me) else -1;
      var s := Snaps();
      SnapsOfIndex(notes);
      forall v | v in HeldByOthers(me) ensures v in Bookkeeping.HeldByOthers(s, k) {
        var n :| n in notes && n != me && n.gui != null && n.gui.windowId == v;
        var j :| 0 <= j < |notes| && notes[j] == n;
        assert s[j].Gui? && s[j].id == v;
      }
      forall v | v in Bookkeeping.HeldByOthers(s, k) ensures v in HeldByOthers(me) {
        var j :| 0 <= j < |s| && j != k && s[j].Gui? && s[j].id == v;
        assert notes[j] in notes;
      }
    }

    /**
     * After a change to one GUI's fields (and nothing else the snapshots
     * read), the snapshot list changes at that note's index only.
     */
    twostate lemma OneGuiChanged(g: StickyNote)
      requires old(Valid()) && old(g.note.gui) == g && notes == old(notes)
      requires forall n :: n in notes ==> n.gui == old(n.gui)
      requires forall n :: n in notes && n.gui != null && n.gui != g ==> n.gui.AsSnap() == old(n.gui.AsSnap())
      ensures g.note in notes ==> Snaps() == old(Snaps())[FirstIndex(notes, g.note) := g.AsSnap()]
      ensures g.note !in notes ==> Snaps() == old(Snaps())
    {
      SnapsOfIndex(notes);
      OldSnapsOfIndex(notes);
    }

    /** When no GUI and no note's GUI link changed, neither did the snapshot list. */
    twostate lemma SnapsKept()
      requires notes == old(notes)
      requires forall n :: n in notes ==> n.gui == old(n.gui) && (n.gui != null ==> n.gui.AsSnap() == old(n.gui.AsSnap()))
      ensures Snaps() == old(Snaps())
    {
      SnapsOfIndex(notes);
      OldSnapsOfIndex(notes);
    }

    /** When no note and no GUI changed, none of the three lists did. */
    twostate lemma NotesUntouched()
      requires notes == old(notes)
      requires forall n :: n in old(notes) ==> unchanged(n) && (n.gui != null ==> unchanged(n.gui))
      ensures FieldsAll() == old(FieldsAll()) && Buffers() == old(Buffers()) && Snaps() == old(Snaps())
    {
      SnapsKept();
      BuffersKept();
      FieldsOfIndex(notes);
      OldFieldsOfIndex(notes);
    }

    /** When no note's GUI link, text or lock changed, neither did the buffer list. */
    twostate lemma BuffersKept()
      requires notes == old(notes)
      requires forall n :: n in notes ==> n.gui == old(n.gui) && (n.gui != null ==> n.gui.text == old(n.gui.text) && n.gui.locked == old(n.gui.locked))
      ensures Buffers() == old(Buffers())
    {
      BuffersOfIndex(notes);
      OldBuffersOfIndex(notes);
    }

    ghost function FieldsAll(): seq<NoteFields>
      reads this`notes, Notes()`uuid, Notes()`body, Notes()`properties, Notes()`category
    {
      FieldsOf(notes)
    }

    ghost function Buffers(): seq<(string, bool)>
      reads this`notes, Notes()`gui, Guis()`text, Guis()`locked
    {
      BuffersOf(notes)
    }

    /**
     * After a change to one note (and to no other note's fields), the field
     * list changes at that note's index only.
     */
    twostate lemma OneNoteChanged(n: Note)
      requires old(Valid()) && notes == old(notes) && n in notes
      requires forall m :: m in notes && m != n ==> m.Fields() == old(m.Fields())
      ensures FieldsAll() == old(FieldsAll())[FirstIndex(notes, n) := n.Fields()]
    {
      FieldsOfIndex(notes);
      OldFieldsOfIndex(notes);
    }

    /** In a valid set, a note's first index is its index. */
    lemma IndexOfNote(i: nat)
      requires Valid() && i < |notes|
      ensures FirstIndex(notes, notes[i]) == i
    {
      var k := FirstIndex(notes, notes[i]);
      assert notes[k] == notes[i];
    }

    /**
     * `Save` (backend.go:186-211): `Dumps` extracts every note in order
     * (re-reading each GUI's geometry as `UpdateNote` does and taking its
     * text and `Properties`), and the document is written to the data path
     * with `~` expanded.
     */
    method Save(shell: Shell) returns (w: Write)
      requires Valid()
      modifies Notes()`body, Notes()`properties, Guis()`lastKnownPos, Guis()`lastKnownSize
      modifies ext`available, ext`connected
      ensures Valid() && Buffers() == old(Buffers()) && notes == old(notes) && categories == old(categories)
      ensures (ext.State(), Snaps()) == RefreshUpTo(old(ext.State()), shell, old(Snaps()), |notes|)
      ensures HandlesDistinct() == old(HandlesDistinct())
      ensures Exported(FieldsAll(), old(FieldsAll()), Snaps(), Buffers())
      ensures w == Write(DataPath(dataFile, home), Document(FieldsAll(), properties, categories))
    {
      ghost var b0, s0, f0, bs := ext.State(), Snaps(), FieldsAll(), Buffers();
      var docs: seq<NoteFields> := [];
      var i := 0;
      while i < |notes|
        invariant i == |docs| && Dumped(b0, shell, s0, f0, bs, docs)
      {
        var f := ExtractNext(i, shell, b0, s0, f0, bs, docs);
        docs := docs + [f];
        i := i + 1;
      }
      assert f0[i..] == [] && FieldsAll() == docs;
      RefreshUpToProps(b0, shell, s0, |notes|);
      w := Write(DataPath(dataFile, home), Document(docs, properties, categories));
    }

    /**
     * The state of `Dumps` after the notes of `docs`: their geometry re-read,
     * their fields extracted into `docs`, the remaining notes untouched.
     */
    ghost predicate Dumped(b0: Bus, shell: Shell, s0: seq<Snap>, f0: seq<NoteFields>, bs: seq<(string, bool)>, docs: seq<NoteFields>)
      reads this`notes, Notes()`gui, Notes()`uuid, Notes()`body, Notes()`properties, Notes()`category
      reads Guis()`windowId, Guis()`lastKnownPos, Guis()`lastKnownSize, Guis()`gtkPos, Guis()`gtkSize
      reads Guis()`text, Guis()`locked, ext`available, ext`connected
    {
      && Valid() && |docs| <= |notes| == |s0| == |f0|
      && (ext.State(), Snaps()) == RefreshUpTo(b0, shell, s0, |docs|)
      && FieldsAll() == docs + f0[|docs|..]
      && Buffers() == bs
      && forall j :: 0 <= j < |docs| ==> docs[j] == Export(f0[j], Snaps()[j], bs[j])
    }

    /** One iteration of `Dumps`: `Extract` of the next note. */
    method ExtractNext(i: nat, shell: Shell, ghost b0: Bus, ghost s0: seq<Snap>, ghost f0: seq<NoteFields>,
                       ghost bs: seq<(string, bool)>, ghost docs: seq<NoteFields>)
      returns (f: NoteFields)
      requires i == |docs| < |notes| && Dumped(b0, shell, s0, f0, bs, docs)
      modifies Notes()`body, Notes()`properties, Guis()`lastKnownPos, Guis()`lastKnownSize
      modifies ext`available, ext`connected
      ensures Dumped(b0, shell, s0, f0, bs, docs + [f])
    {
      f := ExtractAt(i, shell);
      ExtendDump(docs, f0, old(FieldsAll()), f);
    }

    /** `Extract` of the note at index `i`. */
    method ExtractAt(i: nat, shell: Shell) returns (f: NoteFields)
      requires Valid() && i < |notes|
      modifies Notes()`body, Notes()`properties, Guis()`lastKnownPos, Guis()`lastKnownSize
      modifies ext`available, ext`connected
      ensures Valid() && Buffers() == old(Buffers())
      ensures (ext.State(), Snaps()) == RefreshAt(old(ext.State()), shell, old(Snaps()), i)
      ensures FieldsAll() == old(FieldsAll())[i := f]
      ensures f == Export(old(FieldsAll())[i], Snaps()[i], Buffers()[i])
    {
      IndexOfNote(i);
      f := notes[i].Extract(shell);
      OneNoteChanged(notes[i]);
      OldFieldsOfIndex(notes);
      BuffersOfIndex(notes);
    }

    /**
     * `AssignWindowIDs` (backend.go:317-324): `assignWindowID` for every note
     * with a GUI and no window ID, in list order; window IDs stay distinct.
     */
    method AssignWindowIds(shell: Shell)
      requires Valid()
      modifies Guis()`windowId, ext`available, ext`connected
      ensures Valid()
      ensures (ext.State(), Snaps()) == AssignUpTo(old(ext.State()), shell, ext.currentPid, old(Snaps()), |notes|)
      ensures old(HandlesDistinct()) ==> HandlesDistinct()
    {
      ghost var b0, s0 := ext.State(), Snaps();
      var i := 0;
      while i < |notes|
        invariant i <= |notes| && Assigned(b0, shell, s0, i)
      {
        AssignAt(i, shell, b0, s0);
        i := i + 1;
      }
      AssignUpToProps(b0, shell, ext.currentPid, s0, |notes|);
    }

    /** The state of `AssignWindowIDs` after the first `i` notes. */
    ghost predicate Assigned(b0: Bus, shell: Shell, s0: seq<Snap>, i: nat)
      reads this`notes, Notes()`gui, Notes()`uuid
      reads Guis()`windowId, Guis()`lastKnownPos, Guis()`lastKnownSize, Guis()`gtkPos, Guis()`gtkSize, ext`available, ext`connected
    {
      Valid() && i <= |notes| == |s0| && (ext.State(), Snaps()) == AssignUpTo(b0, shell, ext.currentPid, s0, i)
    }

    /** One iteration of `AssignWindowIDs`. */
    method AssignAt(i: nat, shell: Shell, ghost b0: Bus, ghost s0: seq<Snap>)
      requires i < |notes| && Assigned(b0, shell, s0, i)
      modifies Guis()`windowId, ext`available, ext`connected
      ensures Assigned(b0, shell, s0, i + 1)
    {
      SnapsOfIndex(notes);
      HeldByOthersAt(notes[i]);
      IndexOfNote(i);
      var g := notes[i].gui;
      if g != null && g.windowId == 0 {
        assert g.Valid();
        g.AssignWindowId(shell);
        OneGuiChanged(g);
      }
    }

    /**
     * `UpdateNotePositionsFromWindowCalls` (window_calls.go:284-376): with the
     * extension available and windows of this process listed, every GUI
     * note's geometry from the shell (its known ID, or the first free window
     * of its size), then `Save` exactly when a note counts as updated.
     * Window IDs stay distinct.
     */
    method UpdateNotePositionsFromWindowCalls(shell: Shell) returns (w: Option<Write>)
      requires Valid()
      modifies Notes()`body, Notes()`properties, Guis()`windowId, Guis()`lastKnownPos, Guis()`lastKnownSize
      modifies ext`available, ext`connected
      ensures Valid()
      ensures var r := SyncAll(old(ext.State()), shell, ext.currentPid, old(Snaps()));
        && (w.None? <==> !r.2)
        && (!r.2 ==> (ext.State(), Snaps()) == (r.0, r.1))
        && (r.2 ==> (ext.State(), Snaps()) == RefreshUpTo(r.0, shell, r.1, |notes|)
                    && w == Some(Write(DataPath(dataFile, home), Document(FieldsAll(), properties, categories))))
      ensures Buffers() == old(Buffers())
      ensures w.None? ==> FieldsAll() == old(FieldsAll())
      ensures w.Some? ==> Exported(FieldsAll(), old(FieldsAll()), Snaps(), Buffers())
      ensures old(HandlesDistinct()) ==> HandlesDistinct()
    {
      ghost var b0, s0 := ext.State(), Snaps();
      SyncAllProps(b0, shell, ext.currentPid, s0);
      if !ext.IsAvailable() {
        return None;
      }
      var windows := ListOwnWindows(shell);
      if windows.None? || |windows.value| == 0 {
        return None;
      }
      w := SyncAndSave(shell, windows.value);
    }

    /** `GetCurrentProcessWindows` on the set's extension: no note or GUI changes. */
    method ListOwnWindows(shell: Shell) returns (r: Option<seq<WindowInfo>>)
      requires Valid()
      modifies ext`available, ext`connected
      ensures (ext.State(), r) == ProcessWindows(old(ext.State()), shell, ext.currentPid)
      ensures Valid() && Snaps() == old(Snaps()) && HandlesDistinct() == old(HandlesDistinct())
    {
      r := ext.GetCurrentProcessWindows(shell);
    }

    /** The note loop of `UpdateNotePositionsFromWindowCalls` over the listed windows `ws`, then `Save` when a note counts as updated. */
    method SyncAndSave(shell: Shell, ws: seq<WindowInfo>) returns (w: Option<Write>)
      requires Valid()
      modifies Notes()`body, Notes()`properties, Guis()`windowId, Guis()`lastKnownPos, Guis()`lastKnownSize
      modifies ext`available, ext`connected
      ensures Valid()
      ensures var r := SyncUpTo(old(ext.State()), shell, ws, old(Snaps()), |notes|);
        && (w.None? <==> !r.2)
        && (!r.2 ==> (ext.State(), Snaps()) == (r.0, r.1))
        && (r.2 ==> (ext.State(), Snaps()) == RefreshUpTo(r.0, shell, r.1, |notes|)
                    && w == Some(Write(DataPath(dataFile, home), Document(FieldsAll(), properties, categories))))
      ensures Buffers() == old(Buffers())
      ensures w.None? ==> FieldsAll() == old(FieldsAll())
      ensures w.Some? ==> Exported(FieldsAll(), old(FieldsAll()), Snaps(), Buffers())
      ensures old(HandlesDistinct()) ==> HandlesDistinct()
    {
      ghost var b0, s0 := ext.State(), Snaps();
      if Distinct(s0) {
        SyncUpToDistinct(b0, shell, ws, s0, |notes|);
      }
      var updated := SyncNotes(shell, ws);
      assert notes == old(notes);
      if updated {
        var s := Save(shell);
        w := Some(s);
      } else {
        w := None;
      }
    }

    /** The note loop of `UpdateNotePositionsFromWindowCalls` (window_calls.go:306-370). */
    method SyncNotes(shell: Shell, ws: seq<WindowInfo>) returns (updated: bool)
      requires Valid()
      modifies Guis()`windowId, Guis()`lastKnownPos, Guis()`lastKnownSize, ext`available, ext`connected
      ensures Valid() && (ext.State(), Snaps(), updated) == SyncUpTo(old(ext.State()), shell, ws, old(Snaps()), |notes|)
      ensures Buffers() == old(Buffers()) && FieldsAll() == old(FieldsAll())
    {
      ghost var b1, s0 := ext.State(), Snaps();
      updated := false;
      var count, i := |notes|, 0;
      while i < count
        invariant i <= count == |s0| && Synced(b1, shell, ws, s0, i, updated) && Guis() == old(Guis())
      {
        updated := SyncAt(i, shell, ws, b1, s0, updated);
        i := i + 1;
      }
    }

    /** The state of the note loop after the first `i` notes. */
    ghost predicate Synced(b1: Bus, shell: Shell, ws: seq<WindowInfo>, s0: seq<Snap>, i: nat, updated: bool)
      reads this`notes, Notes()`gui, Notes()`uuid
      reads Guis()`windowId, Guis()`lastKnownPos, Guis()`lastKnownSize, Guis()`gtkPos, Guis()`gtkSize, ext`available, ext`connected
    {
      Valid() && i <= |notes| == |s0| && (ext.State(), Snaps(), updated) == SyncUpTo(b1, shell, ws, s0, i)
    }

    /** One iteration of the note loop: notes without a GUI are skipped. */
    method SyncAt(i: nat, shell: Shell, ws: seq<WindowInfo>, ghost b1: Bus, ghost s0: seq<Snap>, updated0: bool)
      returns (updated: bool)
      requires i < |notes| && Synced(b1, shell, ws, s0, i, updated0)
      modifies Guis()`windowId, Guis()`lastKnownPos, Guis()`lastKnownSize, ext`available, ext`connected
      ensures Synced(b1, shell, ws, s0, i + 1, updated) && notes == old(notes) && Guis() == old(Guis())
    {
      SnapsOfIndex(notes);
      HeldByOthersAt(notes[i]);
      IndexOfNote(i);
      var g := notes[i].gui;
      if g == null {
        return updated0;
      }
      assert g.Valid();
      var u := g.SyncPosition(shell, ws);
      updated := updated0 || u;
    }

    /**
     * After one note's GUI changed (and nothing else the snapshots read), the
     * snapshot list changes at that note's index only.
     */
    twostate lemma GuiAdded(n: Note)
      requires old(Valid()) && notes == old(notes) && n.gui != null
      requires forall m :: m in notes && m != n ==> m.gui == old(m.gui)
      requires forall m :: m in notes && m != n && m.gui != null ==> m.gui.AsSnap() == old(m.gui.AsSnap())
      ensures n in notes ==> Snaps() == old(Snaps())[FirstIndex(notes, n) := n.gui.AsSnap()]
      ensures n !in notes ==> Snaps() == old(Snaps())
    {
      SnapsOfIndex(notes);
      OldSnapsOfIndex(notes);
    }

    /** The splice of `Note.Delete` (backend.go:93-98): the first occurrence of `n` leaves the list. */
    method RemoveNote(n: Note)
      requires Valid()
      modifies this`notes
      ensures Valid() && notes == RemoveFirst(old(notes), n) && n !in notes
      ensures forall m :: m in notes ==> m in old(notes)
      ensures n in old(notes) ==>
                var k := FirstIndex(old(notes), n);
                && Snaps() == old(Snaps())[..k] + old(Snaps())[k + 1..]
                && FieldsAll() == old(FieldsAll())[..k] + old(FieldsAll())[k + 1..]
                && Buffers() == old(Buffers())[..k] + old(Buffers())[k + 1..]
      ensures n !in old(notes) ==> notes == old(notes)
      ensures old(HandlesDistinct()) ==> HandlesDistinct()
    {
      var r := FindFirst(notes, n);
      assert notes == old(notes) && Snaps() == old(Snaps()) && FieldsAll() == old(FieldsAll()) && Buffers() == old(Buffers());
      if r.None? {
        RemoveFirstAbsent(notes, n);
      } else {
        FirstIndexUnique(notes, n, r.value);
        RemoveFirstIsSplice(notes, n);
        DropAt(r.value);
      }
    }

    /** Removing the note at index `i`: the other notes keep their order and their handles. */
    method DropAt(i: nat)
      requires Valid() && i < |notes|
      modifies this`notes
      ensures Valid() && notes == old(notes[..i] + notes[i + 1..]) && old(notes[i]) !in notes
      ensures forall m :: m in notes ==> m in old(notes)
      ensures Snaps() == old(Snaps())[..i] + old(Snaps())[i + 1..]
      ensures FieldsAll() == old(FieldsAll())[..i] + old(FieldsAll())[i + 1..]
      ensures Buffers() == old(Buffers())[..i] + old(Buffers())[i + 1..]
      ensures old(HandlesDistinct()) ==> HandlesDistinct()
    {
      SpliceInjective(notes, i);
      ghost var s0 := Snaps();
      var rest := notes[..i] + notes[i + 1..];
      SnapsOfSplice(notes, i);
      FieldsOfSplice(notes, i);
      BuffersOfSplice(notes, i);
      if Distinct(s0) {
        SpliceDistinct(s0, i);
      }
      notes := rest;
      assert Snaps() == SnapsOf(rest) && FieldsAll() == FieldsOf(rest) && Buffers() == BuffersOf(rest);
    }

    /**
     * `New` (backend.go:296-305): a note made by `NewNote` with no content, the
     * fresh UUID `freshId` and `default_cat` (when it is a string, else "")
     * as its category, appended and shown, which builds its GUI.
     */
    method New(shell: Shell, freshId: string, reportedPos: Point, reportedSize: Point) returns (n: Note)
      requires Valid() && freshId != ""
      modifies this`notes
      ensures Valid() && fresh(n) && n.noteSet == this && notes == old(notes) + [n]
      ensures n.Fields() == NoteFields(freshId, "", map[], GetString(properties, "default_cat").GetOr(""))
      ensures n.gui != null && fresh(n.gui) && n.gui.windowId == 0 && n.gui.visible
      ensures n.gui.Built(map[], ext.IsAvailable()) && n.gui.placed == NotPlaced
      ensures n.gui.gtkPos == reportedPos && n.gui.gtkSize == reportedSize && n.gui.text == ""
      ensures Snaps() == old(Snaps()) + [n.gui.AsSnap()]
      ensures old(HandlesDistinct()) ==> HandlesDistinct()
    {
      n := AppendNew(freshId);
      // `Show` on a note without a GUI builds one.
      n.BuildGui(reportedPos, reportedSize);
    }

    /** The end of `onAdd` for the note `n`: its category is set and its window moved, which no handle depends on. */
    method PlaceAdded(n: Note, cat: string, at: Point)
      requires Valid() && n in notes && n.gui != null
      modifies n`category, n.gui`placed
      ensures Valid() && Snaps() == old(Snaps()) && HandlesDistinct() == old(HandlesDistinct())
      ensures n.Fields() == old(n.Fields()).(category := cat) && n.gui == old(n.gui) && n.gui.placed == MovedByGtk(at)
      ensures && n.gui.windowId == old(n.gui.windowId) && n.gui.visible == old(n.gui.visible) && n.gui.text == old(n.gui.text)
              && n.gui.gtkPos == old(n.gui.gtkPos) && n.gui.gtkSize == old(n.gui.gtkSize)
      ensures old(n.gui.Built(map[], ext.IsAvailable())) ==> n.gui.Built(map[], ext.IsAvailable())
    {
      n.category := cat;
      n.gui.placed := MovedByGtk(at);
    }

    /** The first half of `New`: the note made by `NewNote`, appended without a GUI. */
    method AppendNew(freshId: string) returns (n: Note)
      requires Valid() && freshId != ""
      modifies this`notes
      ensures Valid() && fresh(n) && n.noteSet == this && notes == old(notes) + [n] && n.gui == null
      ensures n.Fields() == NoteFields(freshId, "", map[], GetString(properties, "default_cat").GetOr(""))
      ensures Snaps() == old(Snaps()) + [Bare] && FirstIndex(notes, n) == |notes| - 1
      ensures old(HandlesDistinct()) ==> HandlesDistinct()
    {
      var defaultCat := GetString(properties, "default_cat").GetOr("");
      var f := NewNoteFields(None, defaultCat, freshId);
      n := NoteOf(f);
      AppendNote(n);
    }

    /** A new note of this set with the fields `f`, without a GUI: nothing the set holds changes. */
    method NoteOf(f: NoteFields) returns (n: Note)
      requires Valid()
      ensures fresh(n) && n.Fields() == f && n.gui == null && n.noteSet == this
      ensures Valid() && Snaps() == old(Snaps()) && HandlesDistinct() == old(HandlesDistinct())
    {
      n := new Note.FromFields(f, this);
    }

    /** `ns.Notes = append(ns.Notes, note)` for a note without a GUI. */
    method AppendNote(n: Note)
      requires Valid() && n.noteSet == this && n.uuid != "" && n.gui == null && n !in notes
      modifies this`notes
      ensures Valid() && notes == old(notes) + [n] && Snaps() == old(Snaps()) + [Bare]
      ensures FirstIndex(notes, n) == |notes| - 1
      ensures old(HandlesDistinct()) ==> HandlesDistinct()
    {
      notes := notes + [n];
      assert notes[..|notes| - 1] == old(notes);
      IndexOfNote(|notes| - 1);
    }

    /** The GUIs of the notes, in list order (`null` for none). */
    ghost function GuiList(): (r: seq<StickyNote?>)
      reads this`notes, Notes()`gui
      ensures |r| == |notes| && forall j :: 0 <= j < |notes| ==> r[j] == notes[j].gui
    {
      GuisOf(notes)
    }

    /**
     * `ShowAll` (backend.go:308-313): every note is shown, in order: notes
     * without a GUI get one (whose window the toolkit reports at
     * `reported(uuid)`), and notes with one run its `Show`, which takes the
     * window's text as the body. `all_visible` becomes true.
     */
    method ShowAll(shell: Shell, reported: string -> (Point, Point)) returns (ghost buses: seq<Bus>, ghost refreshed: seq<Snap>)
      requires Valid()
      modifies Notes()`gui, Notes()`body, Guis()`lastKnownPos, Guis()`lastKnownSize, Guis()`visible, Guis()`pending
      modifies ext`available, ext`connected, this`properties
      ensures Valid() && properties == old(properties)["all_visible" := Bool(true)]
      ensures notes == old(notes) && categories == old(categories)
      ensures unchanged(Notes()`uuid, Notes()`properties, Notes()`category)
      ensures forall j {:trigger notes[j].gui} :: 0 <= j < |notes| ==> notes[j].gui != null && notes[j].gui.visible
      ensures forall j {:trigger notes[j].gui} :: 0 <= j < |notes| && old(notes[j].gui) != null ==>
                notes[j].gui == old(notes[j].gui) && notes[j].body == notes[j].gui.text
      ensures forall j {:trigger notes[j].gui} :: 0 <= j < |notes| && old(notes[j].gui) == null ==>
                fresh(notes[j].gui) && notes[j].gui.windowId == 0 && notes[j].body == old(notes[j].body)
      ensures (buses, refreshed) == Trace(old(ext.State()), shell, old(Snaps())) && ext.State() == buses[|notes|]
      ensures forall j {:trigger notes[j].gui} :: 0 <= j < |notes| ==>
                notes[j].gui != null &&
                notes[j].gui.AsSnap() == (if old(notes[j].gui) == null then BuiltSnap(notes[j].properties, reported(notes[j].uuid)) else refreshed[j])
      ensures forall j {:trigger notes[j].gui} :: 0 <= j < |notes| && old(notes[j].gui) == null ==>
                notes[j].gui != null && notes[j].gui.Built(notes[j].properties, Available(buses[j]))
      ensures forall j {:trigger notes[j].gui} :: 0 <= j < |notes| && old(notes[j].gui) != null ==>
                notes[j].gui != null && notes[j].gui.pending == old(notes[j].gui.pending) +
                  if Available(buses[j + 1]) && notes[j].gui.windowId == 0 then multiset{AssignOnShow} else multiset{}
      ensures old(HandlesDistinct()) ==> HandlesDistinct()
    {
      buses, refreshed := Trace(ext.State(), shell, Snaps()).0, Trace(ext.State(), shell, Snaps()).1;
      ghost var p := Progress(GuiList(), Bodies(), HandlesDistinct(), shell, Snaps(), Pendings(), reported, buses, refreshed);
      ShowVisible(shell, reported, p);
    }

    /**
     * `ns.Properties["all_visible"] = visible`, which no other state depends
     * on: whatever `p` recorded of the notes, their GUIs and the bus still
     * holds.
     */
    method SetAllVisible(visible: bool, ghost p: Progress)
      modifies this`properties
      ensures properties == old(properties)["all_visible" := Bool(visible)]
      ensures old(Records(p)) ==> Records(p)
    {
      properties := properties["all_visible" := Bool(visible)];
    }

    /**
     * `ShowAll` stated against the state and trace `p` records: the shown
     * state of every note, as `ShowTraced` leaves it, spelled out note by
     * note.
     */
    method ShowVisible(shell: Shell, reported: string -> (Point, Point), ghost p: Progress)
      requires p.shell == shell && p.reported == reported && Records(p)
      modifies Notes()`gui, Notes()`body, Guis()`lastKnownPos, Guis()`lastKnownSize, Guis()`visible, Guis()`pending
      modifies ext`available, ext`connected, this`properties
      ensures Valid() && (p.d0 ==> HandlesDistinct()) && notes == old(notes)
      ensures properties == old(properties)["all_visible" := Bool(true)]
      ensures |p.g0| == |p.b0| == |p.p0| == |p.refreshed| == |notes| == |p.buses| - 1
      ensures forall j {:trigger notes[j].gui} :: 0 <= j < |notes| ==> notes[j].ShownFrom(p.g0[j], p.b0[j])
      ensures forall j {:trigger notes[j].gui} :: 0 <= j < |notes| && p.g0[j] == null ==> fresh(notes[j].gui)
      ensures ext.State() == p.buses[|notes|]
      ensures forall j {:trigger notes[j].gui} :: 0 <= j < |notes| ==>
                notes[j].gui != null &&
                notes[j].gui.AsSnap() == (if p.g0[j] == null then BuiltSnap(notes[j].properties, p.reported(notes[j].uuid)) else p.refreshed[j])
      ensures forall j {:trigger notes[j].gui} :: 0 <= j < |notes| && p.g0[j] == null ==>
                notes[j].gui != null && notes[j].gui.Built(notes[j].properties, Available(p.buses[j]))
      ensures forall j {:trigger notes[j].gui} :: 0 <= j < |notes| && p.g0[j] != null ==>
                notes[j].gui != null && notes[j].gui.pending == p.p0[j] +
                  if Available(p.buses[j + 1]) && notes[j].gui.windowId == 0 then multiset{AssignOnShow} else multiset{}
    {
      ghost var made := ShowTraced(shell, reported, p);
      ShownEnd(p, made);
    }

    /**
     * The body of `ShowAll` from the state `p` records, with `made` the GUIs
     * it builds. `all_visible` is written before the notes are shown rather
     * than after (backend.go:312): showing neither reads nor writes the set's
     * own properties (`ShowEach` leaves them out of its frame), so the state
     * reached is the same.
     */
    method ShowTraced(shell: Shell, reported: string -> (Point, Point), ghost p: Progress) returns (ghost made: set<StickyNote?>)
      requires p.shell == shell && p.reported == reported && Records(p)
      modifies Notes()`gui, Notes()`body, Guis()`lastKnownPos, Guis()`lastKnownSize, Guis()`visible, Guis()`pending
      modifies ext`available, ext`connected, this`properties
      ensures properties == old(properties)["all_visible" := Bool(true)]
      ensures Traced(p) && Shown(p, |notes|, made) && fresh(made) && notes == old(notes)
    {
      SetAllVisible(true, p);
      ShownStart(p);
      made := ShowEach(shell, reported, p);
    }

    /** The loop of `ShowAll`, from the state `p` records; `made` holds the GUIs it builds. */
    method ShowEach(shell: Shell, reported: string -> (Point, Point), ghost p: Progress) returns (ghost made: set<StickyNote?>)
      requires p.shell == shell && p.reported == reported && Traced(p) && Shown(p, 0, {})
      modifies Notes()`gui, Notes()`body, Guis()`lastKnownPos, Guis()`lastKnownSize, Guis()`visible, Guis()`pending
      modifies ext`available, ext`connected
      ensures Shown(p, |notes|, made) && fresh(made) && notes == old(notes)
    {
      made := {};
      var i := 0;
      while i < |notes|
        invariant i <= |notes| && Shown(p, i, made) && fresh(made)
      {
        ghost var built := ShowAt(i, shell, reported, p, made);
        made := made + built;
        i := i + 1;
      }
    }

    /** The notes' bodies, in list order. */
    ghost function Bodies(): (r: seq<string>)
      reads this`notes, Notes()`body
      ensures |r| == |notes| && forall j :: 0 <= j < |notes| ==> r[j] == notes[j].body
    {
      BodiesOf(notes)
    }

    /** The GUIs' pending callbacks, in list order (none without a GUI). */
    ghost function Pendings(): (r: seq<multiset<Timer>>)
      reads this`notes, Notes()`gui, Guis()`pending
      ensures |r| == |notes| && forall j :: 0 <= j < |notes| ==> r[j] == if notes[j].gui == null then multiset{} else notes[j].gui.pending
    {
      PendingsOf(notes)
    }

    /**
     * The state of `ShowAll` after the first `i` notes, from GUIs `p.g0`,
     * bodies `p.b0`, snapshots `p.s0` and callbacks `p.p0`: the notes shown
     * so far are shown with the geometry saving would re-read for them (the
     * GUIs built for them in `made`), the others untouched, and the bus
     * where saving the first `i` notes would leave it.
     */
    ghost predicate Shown(p: Progress, i: nat, made: set<StickyNote?>)
      reads this`notes, Notes()`gui, Notes()`uuid, Notes()`body, Notes()`properties, ext`available, ext`connected
      reads Guis()`windowId, Guis()`lastKnownPos, Guis()`lastKnownSize, Guis()`gtkPos, Guis()`gtkSize, Guis()`visible, Guis()`text
      reads Guis()`locked, Guis()`opacity, Guis()`pending
    {
      && Valid() && i <= |notes| == |p.g0| == |p.b0| == |p.s0| == |p.p0| == |p.refreshed| == |p.buses| - 1
      && ext.State() == p.buses[i]
      && ShownBefore(p, i, made) && ShownAfter(p, i)
      && (p.d0 ==> HandlesDistinct())
    }

    /** The notes before `i` are shown as `ShowAll` leaves them, each new GUI in `made`. */
    ghost predicate ShownBefore(p: Progress, i: nat, made: set<StickyNote?>)
      requires i <= |notes| == |p.g0| == |p.b0| == |p.p0| == |p.refreshed| == |p.buses| - 1
      reads this`notes, Notes()`gui, Notes()`uuid, Notes()`body, Notes()`properties
      reads Guis()`windowId, Guis()`lastKnownPos, Guis()`lastKnownSize, Guis()`gtkPos, Guis()`gtkSize, Guis()`visible, Guis()`text
      reads Guis()`locked, Guis()`opacity, Guis()`pending
    {
      forall j {:trigger notes[j].gui} :: 0 <= j < i ==>
        && notes[j].ShownFrom(p.g0[j], p.b0[j])
        && notes[j].ShownGeometry(p.g0[j], p.buses[j], p.buses[j + 1], p.refreshed[j], p.reported(notes[j].uuid), p.p0[j])
        && (p.g0[j] == null ==> notes[j].gui in made)
    }

    /** The notes from `i` on still have the GUIs, bodies, snapshots and callbacks `p` records. */
    ghost predicate ShownAfter(p: Progress, i: nat)
      requires |notes| == |p.g0| == |p.b0| == |p.s0| == |p.p0|
      reads this`notes, Notes()`gui, Notes()`body, Guis()`windowId, Guis()`lastKnownPos, Guis()`lastKnownSize
      reads Guis()`gtkPos, Guis()`gtkSize, Guis()`pending
    {
      forall j {:trigger notes[j].gui} :: i <= j < |notes| ==>
        && notes[j].gui == p.g0[j] && notes[j].body == p.b0[j]
        && p.s0[j] == (if notes[j].gui == null then Bare else notes[j].gui.AsSnap())
        && (notes[j].gui != null ==> notes[j].gui.pending == p.p0[j])
    }

    /**
     * `p` records the state now: its GUIs, bodies, distinctness, snapshots
     * and callbacks, and the trace of saving those snapshots from the bus
     * as it is.
     */
    ghost predicate Records(p: Progress)
      reads this`notes, Notes()`gui, Notes()`uuid, Notes()`body, Guis()`windowId, Guis()`lastKnownPos, Guis()`lastKnownSize
      reads Guis()`gtkPos, Guis()`gtkSize, Guis()`pending, ext`available, ext`connected
    {
      && Valid() && p.g0 == GuiList() && p.b0 == Bodies() && (p.d0 ==> HandlesDistinct())
      && p.s0 == Snaps() && p.p0 == Pendings() && (p.buses, p.refreshed) == Trace(ext.State(), p.shell, p.s0)
    }

    /** `Shown` holds before the first note, from the state `p` records. */
    lemma ShownStart(p: Progress)
      requires Records(p)
      ensures Traced(p) && Shown(p, 0, {})
    {
      SnapsOfIndex(notes);
    }

    /** After the last note, `Shown` gives `ShowAll`'s geometry, bus and callbacks. */
    lemma ShownEnd(p: Progress, made: set<StickyNote?>)
      requires Shown(p, |notes|, made)
      ensures forall j {:trigger notes[j].gui} :: 0 <= j < |notes| && p.g0[j] == null ==> notes[j].gui in made
      ensures Valid() && (p.d0 ==> HandlesDistinct()) && |p.g0| == |p.b0| == |p.p0| == |p.refreshed| == |notes| == |p.buses| - 1
      ensures forall j {:trigger notes[j].gui} :: 0 <= j < |notes| ==> notes[j].ShownFrom(p.g0[j], p.b0[j])
      ensures ext.State() == p.buses[|notes|]
      ensures forall j {:trigger notes[j].gui} :: 0 <= j < |notes| ==>
                notes[j].gui != null &&
                notes[j].gui.AsSnap() == (if p.g0[j] == null then BuiltSnap(notes[j].properties, p.reported(notes[j].uuid)) else p.refreshed[j])
      ensures forall j {:trigger notes[j].gui} :: 0 <= j < |notes| && p.g0[j] == null ==> notes[j].gui.Built(notes[j].properties, Available(p.buses[j]))
      ensures forall j {:trigger notes[j].gui} :: 0 <= j < |notes| && p.g0[j] != null ==>
                notes[j].gui.pending == p.p0[j] + if Available(p.buses[j + 1]) && notes[j].gui.windowId == 0 then multiset{AssignOnShow} else multiset{}
    {
      forall j | 0 <= j < |notes|
        ensures notes[j].ShownFrom(p.g0[j], p.b0[j])
        ensures notes[j].gui != null
        ensures notes[j].gui.AsSnap() == if p.g0[j] == null then BuiltSnap(notes[j].properties, p.reported(notes[j].uuid)) else p.refreshed[j]
        ensures p.g0[j] == null ==> notes[j].gui.Built(notes[j].properties, Available(p.buses[j]))
        ensures p.g0[j] != null ==>
                  notes[j].gui.pending == p.p0[j] + if Available(p.buses[j + 1]) && notes[j].gui.windowId == 0 then multiset{AssignOnShow} else multiset{}
      {
        assert notes[j].ShownGeometry(p.g0[j], p.buses[j], p.buses[j + 1], p.refreshed[j], p.reported(notes[j].uuid), p.p0[j]);
      }
    }

    /** One iteration of `ShowAll`. */
    method ShowAt(i: nat, shell: Shell, reported: string -> (Point, Point), ghost p: Progress, ghost made: set<StickyNote?>)
      returns (ghost built: set<StickyNote?>)
      requires i < |notes| && p.shell == shell && p.reported == reported && Traced(p) && Shown(p, i, made)
      modifies {notes[i]}`gui, {notes[i]}`body, notes[i].GuiSet()`lastKnownPos, notes[i].GuiSet()`lastKnownSize
      modifies notes[i].GuiSet()`visible, notes[i].GuiSet()`pending, ext`available, ext`connected
      ensures Shown(p, i + 1, made + built) && fresh(built)
    {
      var n := notes[i];
      var at := reported(n.uuid);
      ShowFramed(i, n, shell, at.0, at.1);
      ShownKept((p, i, made));
      ShownOne((p, i));
      built := if p.g0[i] == null then {n.gui} else {};
      ShownBeforeNext(p, i, made, built);
    }

    /** `ShowNote`, with what it leaves unchanged spelled out. */
    method ShowFramed(i: nat, n: Note, shell: Shell, pos: Point, size: Point)
      requires i < |notes| && n == notes[i] && Valid()
      modifies n`gui, n`body, n.GuiSet()`lastKnownPos, n.GuiSet()`lastKnownSize, n.GuiSet()`visible, n.GuiSet()`pending
      modifies ext`available, ext`connected
      ensures notes == old(notes) && Valid() && (old(HandlesDistinct()) ==> HandlesDistinct())
      ensures forall m: Note :: old(allocated(m)) && m != n ==> m.gui == old(m.gui) && m.body == old(m.body)
      ensures forall m: Note :: old(allocated(m)) ==> m.properties == old(m.properties) && m.uuid == old(m.uuid)
      ensures forall g: StickyNote :: old(allocated(g)) && g != old(n.gui) ==>
                && g.visible == old(g.visible) && g.pending == old(g.pending)
                && g.lastKnownPos == old(g.lastKnownPos) && g.lastKnownSize == old(g.lastKnownSize)
      ensures forall g: StickyNote :: old(allocated(g)) ==>
                && g.windowId == old(g.windowId) && g.text == old(g.text) && g.gtkPos == old(g.gtkPos) && g.gtkSize == old(g.gtkSize)
                && g.locked == old(g.locked) && g.opacity == old(g.opacity)
      ensures n.ShownFrom(old(n.gui), old(n.body))
      ensures old(n.gui) == null ==> fresh(n.gui)
      ensures old(n.gui) == null ==>
                && ext.State() == old(ext.State()) && n.gui.AsSnap() == BuiltSnap(n.properties, (pos, size))
                && n.gui.Built(n.properties, ext.IsAvailable())
      ensures old(n.gui) != null ==>
                && (ext.State(), n.gui.lastKnownPos, n.gui.lastKnownSize) ==
                   Refresh(old(ext.State()), shell, n.gui.windowId, n.gui.gtkPos, n.gui.gtkSize)
                && n.gui.pending == old(n.gui.pending) + if ext.IsAvailable() && n.gui.windowId == 0 then multiset{AssignOnShow} else multiset{}
    {
      ShowNote(i, n, shell, pos, size);
    }

    /** `n.Show` for the note `notes[i]`: only that note and its GUI change. */
    method ShowNote(i: nat, n: Note, shell: Shell, pos: Point, size: Point)
      requires i < |notes| && n == notes[i] && Valid()
      modifies n`gui, n`body, n.GuiSet()`lastKnownPos, n.GuiSet()`lastKnownSize, n.GuiSet()`visible, n.GuiSet()`pending
      modifies ext`available, ext`connected
      ensures notes == old(notes) && Valid() && (old(HandlesDistinct()) ==> HandlesDistinct())
      ensures n.ShownFrom(old(n.gui), old(n.body))
      ensures old(n.gui) == null ==> fresh(n.gui)
      ensures old(n.gui) == null ==>
                && ext.State() == old(ext.State()) && n.gui.AsSnap() == BuiltSnap(n.properties, (pos, size))
                && n.gui.Built(n.properties, ext.IsAvailable())
      ensures old(n.gui) != null ==>
                && (ext.State(), n.gui.lastKnownPos, n.gui.lastKnownSize) ==
                   Refresh(old(ext.State()), shell, n.gui.windowId, n.gui.gtkPos, n.gui.gtkSize)
                && n.gui.pending == old(n.gui.pending) + if ext.IsAvailable() && n.gui.windowId == 0 then multiset{AssignOnShow} else multiset{}
    {
      n.Show(shell, pos, size);
    }

    /**
     * Note `notes[i]`, shown from the state `Shown` recorded for it, has the
     * geometry and callbacks `ShowAll` gives it, and the bus is where saving
     * it would leave it.
     */
    twostate lemma ShownOne(at: (Progress, nat))
      requires Traced(at.0) && old(exists made :: at.1 < |notes| && Shown(at.0, at.1, made)) && notes == old(notes)
      requires var g := old(notes[at.1].gui);
               g != null ==> g.windowId == old(g.windowId) && g.gtkPos == old(g.gtkPos) && g.gtkSize == old(g.gtkSize)
      requires notes[at.1].ShownFrom(at.0.g0[at.1], at.0.b0[at.1])
      requires var n := notes[at.1];
               old(n.gui) == null ==>
                 && ext.State() == old(ext.State()) && n.gui.AsSnap() == BuiltSnap(n.properties, at.0.reported(n.uuid))
                 && n.gui.Built(n.properties, ext.IsAvailable())
      requires var n := notes[at.1];
               old(n.gui) != null ==>
                 && (ext.State(), n.gui.lastKnownPos, n.gui.lastKnownSize) ==
                    Refresh(old(ext.State()), at.0.shell, n.gui.windowId, n.gui.gtkPos, n.gui.gtkSize)
                 && n.gui.pending == old(n.gui.pending) + if ext.IsAvailable() && n.gui.windowId == 0 then multiset{AssignOnShow} else multiset{}
      ensures var (p, i) := at;
              notes[i].ShownGeometry(p.g0[i], p.buses[i], p.buses[i + 1], p.refreshed[i], p.reported(notes[i].uuid), p.p0[i])
              && ext.State() == p.buses[i + 1]
    {
      var (p, i) := at;
      var (g0, n) := (p.g0, notes[i]);
      assert old(ext.State()) == p.buses[i] && g0[i] == old(n.gui);
      assert (p.buses[i + 1], p.refreshed[i]) == RefreshOne(p.buses[i], p.shell, p.s0[i]);
      if g0[i] == null {
        assert p.s0[i] == Bare;
      } else {
        assert p.s0[i] == old(n.gui.AsSnap()) && n.gui == g0[i];
      }
    }

    /** `ShownBefore` takes in note `notes[i]` once it is shown, a GUI built for it in `built`. */
    lemma ShownBeforeNext(p: Progress, i: nat, made: set<StickyNote?>, built: set<StickyNote?>)
      requires i < |notes| == |p.g0| == |p.b0| == |p.p0| == |p.refreshed| == |p.buses| - 1
      requires ShownBefore(p, i, made) && notes[i].ShownFrom(p.g0[i], p.b0[i])
      requires notes[i].ShownGeometry(p.g0[i], p.buses[i], p.buses[i + 1], p.refreshed[i], p.reported(notes[i].uuid), p.p0[i])
      requires p.g0[i] == null ==> notes[i].gui in built
      ensures ShownBefore(p, i + 1, made + built)
    {
      forall j | 0 <= j < i + 1
        ensures notes[j].ShownFrom(p.g0[j], p.b0[j])
        ensures notes[j].ShownGeometry(p.g0[j], p.buses[j], p.buses[j + 1], p.refreshed[j], p.reported(notes[j].uuid), p.p0[j])
        ensures p.g0[j] == null ==> notes[j].gui in made + built
      {
      }
    }

    /** The notes other than `notes[i]` keep what `Shown` says of them when only that note and its old GUI changed. */
    twostate lemma ShownKept(at: (Progress, nat, set<StickyNote?>))
      requires old(at.1 < |notes| && Shown(at.0, at.1, at.2)) && notes == old(notes)
      requires forall m: Note :: old(allocated(m)) && m != notes[at.1] ==> m.gui == old(m.gui) && m.body == old(m.body)
      requires forall m: Note :: old(allocated(m)) ==> m.properties == old(m.properties) && m.uuid == old(m.uuid)
      requires forall g: StickyNote :: old(allocated(g)) && g != old(notes[at.1].gui) ==>
                 && g.visible == old(g.visible) && g.pending == old(g.pending)
                 && g.lastKnownPos == old(g.lastKnownPos) && g.lastKnownSize == old(g.lastKnownSize)
      requires forall g: StickyNote :: old(allocated(g)) ==>
                 && g.windowId == old(g.windowId) && g.text == old(g.text) && g.gtkPos == old(g.gtkPos) && g.gtkSize == old(g.gtkSize)
                 && g.locked == old(g.locked) && g.opacity == old(g.opacity)
      ensures ShownBefore(at.0, at.1, at.2) && ShownAfter(at.0, at.1 + 1)
    {
      var (p, i, made) := at;
      var n := notes[i];
      forall j | 0 <= j < |notes| && j != i
        ensures notes[j].gui == old(notes[j].gui) && notes[j].body == old(notes[j].body)
        ensures notes[j].properties == old(notes[j].properties) && notes[j].uuid == old(notes[j].uuid)
        ensures notes[j].gui != null ==> notes[j].gui.visible == old(notes[j].gui.visible)
        ensures notes[j].gui != null ==> notes[j].gui.windowId == old(notes[j].gui.windowId) && notes[j].gui.text == old(notes[j].gui.text)
        ensures notes[j].gui != null ==> notes[j].gui.AsSnap() == old(notes[j].gui.AsSnap()) && notes[j].gui.pending == old(notes[j].gui.pending)
        ensures notes[j].gui != null ==> notes[j].gui.locked == old(notes[j].gui.locked) && notes[j].gui.opacity == old(notes[j].gui.opacity)
      {
        var m := notes[j];
        assert m in notes && m != n;
        assert old(m.gui) != null ==> old(m.gui) in old(Guis()) && old(m.gui.note) != n;
      }
    }

    /**
     * `HideAll` (backend.go:326-332): `Save` first, then every GUI is hidden
     * and `all_visible` becomes false; the file written still carries the
     * previous `all_visible`.
     */
    method HideAll(shell: Shell) returns (w: Write)
      requires Valid()
      modifies Notes()`body, Notes()`properties, Guis()`lastKnownPos, Guis()`lastKnownSize, Guis()`visible
      modifies ext`available, ext`connected, this`properties
      ensures Valid() && properties == old(properties)["all_visible" := Bool(false)]
      ensures notes == old(notes) && categories == old(categories)
      ensures forall n :: n in notes ==> n.gui == old(n.gui)
      ensures w == Write(DataPath(dataFile, home), Document(FieldsAll(), old(properties), categories))
      ensures forall n :: n in notes && n.gui != null ==> !n.gui.visible
      ensures (ext.State(), Snaps()) == RefreshUpTo(old(ext.State()), shell, old(Snaps()), |notes|)
      ensures Buffers() == old(Buffers())
      ensures Exported(FieldsAll(), old(FieldsAll()), Snaps(), Buffers())
      ensures HandlesDistinct() == old(HandlesDistinct())
    {
      w := Save(shell);
      HideEach();
    }

    /** The loop of `HideAll`, then `all_visible`; hiding touches neither the handles nor the notes. */
    method HideEach()
      requires Valid()
      modifies Guis()`visible, this`properties
      ensures Valid() && forall n :: n in notes && n.gui != null ==> !n.gui.visible
      ensures properties == old(properties)["all_visible" := Bool(false)]
      ensures Snaps() == old(Snaps()) && FieldsAll() == old(FieldsAll()) && Buffers() == old(Buffers())
      ensures notes == old(notes) && categories == old(categories) && forall n :: n in notes ==> n.gui == old(n.gui)
    {
      var i := 0;
      while i < |notes|
        invariant i <= |notes| && properties == old(properties) && Valid()
        invariant forall j :: 0 <= j < i && notes[j].gui != null ==> !notes[j].gui.visible
      {
        // `note.Hide()` (backend.go:114-118): a GUI, if any, is hidden.
        var g := notes[i].gui;
        if g != null {
          g.Hide();
        }
        i := i + 1;
      }
      SnapsKept();
      BuffersKept();
      properties := properties["all_visible" := Bool(false)];
    }

    /** The UUIDs of the notes. */
    ghost function Uuids(): set<string>
      reads this`notes, Notes()`uuid
    {
      set n | n in notes :: n.uuid
    }

    /**
     * `Loads` (backend.go:154-181) of a decoded document, `None` for text that
     * does not decode to a JSON object: `properties` and `categories` objects
     * replace the set's, and a `notes` array replaces the note list with a new
     * note, without a GUI, for each of its objects (the i-th drawing the fresh
     * UUID `ids[i]` if it has none).
     */
    method Loads(doc: Option<Table>, ids: seq<string>) returns (ok: bool)
      requires Valid() && FreshIds(ids)
      requires doc.Some? ==> |ids| == |NoteObjects(doc.value)|
      modifies this`notes, this`properties, this`categories
      ensures Valid() && ok == doc.Some?
      ensures !ok ==> notes == old(notes) && properties == old(properties) && categories == old(categories)
      ensures ok ==> properties == LoadProperties(old(properties), doc.value)
      ensures ok ==> categories == LoadCategories(old(categories), doc.value)
      ensures ok && !Get(doc.value, "notes").List? ==> notes == old(notes)
      ensures ok && Get(doc.value, "notes").List? ==>
                && FieldsAll() == LoadedFields(NoteObjects(doc.value), ids)
                && forall n :: n in notes ==> fresh(n) && n.gui == null
      ensures old(HandlesDistinct()) ==> HandlesDistinct()
    {
      if doc.None? {
        return false;
      }
      var d := doc.value;
      properties := LoadProperties(properties, d);
      categories := LoadCategories(categories, d);
      if Get(d, "notes").List? {
        var made := MakeNotes(NoteObjects(d), ids);
        SetNotes(made);
      }
      return true;
    }

    /** `ns.Notes = notes` with new GUI-less notes: the fields are theirs and no note holds a handle. */
    method SetNotes(made: seq<Note>)
      requires IndexablePath(dataFile)
      requires forall n :: n in made ==> n.gui == null && n.noteSet == this && n.uuid != ""
      requires forall i, j :: 0 <= i < j < |made| ==> made[i] != made[j]
      modifies this`notes
      ensures notes == made && Valid() && HandlesDistinct()
      ensures FieldsAll() == old(FieldsOf(made))
    {
      notes := made;
      SnapsOfIndex(notes);
    }

    /** The note loop of `Loads`: one new note per object, in order. */
    method MakeNotes(objs: seq<Table>, ids: seq<string>) returns (made: seq<Note>)
      requires |ids| == |objs| && FreshIds(ids)
      ensures FieldsOf(made) == LoadedFields(objs, ids)
      ensures forall n :: n in made ==> fresh(n) && n.gui == null && n.noteSet == this && n.uuid != ""
      ensures forall i, j :: 0 <= i < j < |made| ==> made[i] != made[j]
    {
      var fs := LoadedFields(objs, ids);
      made := NotesOf(fs);
    }

    /** New GUI-less notes of this set, one per entry of `fs`, with those fields. */
    method NotesOf(fs: seq<NoteFields>) returns (made: seq<Note>)
      requires forall j :: 0 <= j < |fs| ==> fs[j].uuid != ""
      ensures FieldsOf(made) == fs
      ensures forall n :: n in made ==> fresh(n) && n.gui == null && n.noteSet == this && n.uuid != ""
      ensures forall i, j :: 0 <= i < j < |made| ==> made[i] != made[j]
    {
      made := [];
      var i := 0;
      while i < |fs|
        invariant i <= |fs| && |made| == i
        invariant forall n :: n in made ==> fresh(n) && n.gui == null && n.noteSet == this && n.uuid != ""
        invariant forall a, b :: 0 <= a < b < i ==> made[a] != made[b]
        invariant forall j :: 0 <= j < i ==> made[j].Fields() == fs[j]
      {
        var n := new Note.FromFields(fs[i], this);
        made := made + [n];
        i := i + 1;
      }
      FieldsOfIndex(made);
      assert FieldsOf(made) == fs;
    }

    /**
     * `Open` (backend.go:214-226): the data file is read at the path with `~`
     * expanded, from the files `files` (a path not in it is a read error,
     * `None` a file that does not decode), and loaded.
     */
    method Open(files: map<string, Option<Table>>, ids: seq<string>) returns (ok: bool)
      requires Valid() && FreshIds(ids)
      requires var p := DataPath(dataFile, home); p in files && files[p].Some? ==> |ids| == |NoteObjects(files[p].value)|
      modifies this`notes, this`properties, this`categories
      ensures Valid() && (old(HandlesDistinct()) ==> HandlesDistinct())
      ensures var p := DataPath(dataFile, home); ok <==> p in files && files[p].Some?
      ensures !ok ==> notes == old(notes) && properties == old(properties) && categories == old(categories)
      ensures ok ==> var doc := files[DataPath(dataFile, home)].value;
                && properties == LoadProperties(old(properties), doc)
                && categories == LoadCategories(old(categories), doc)
                && (Get(doc, "notes").List? ==> FieldsAll() == LoadedFields(NoteObjects(doc), ids))
                && (!Get(doc, "notes").List? ==> notes == old(notes))
    {
      var path := DataPath(dataFile, home);
      if path !in files {
        return false;
      }
      ok := Loads(files[path], ids);
    }

    /**
     * The `dnotes` loop of `Merge` (backend.go:253-258): every note with a
     * UUID filed under it, a later note replacing an earlier one.
     */
    method IndexNotes() returns (d: map<string, Note>)
      requires Valid()
      ensures Filed(d) && FieldsMap(d) == IndexFields(FieldsAll())
      ensures forall u :: u in d ==> d[u] in notes
      ensures forall i :: 0 <= i < |notes| ==> notes[i].uuid in d
      ensures forall i :: 0 <= i < |notes| && LastWithUuid(i) ==> d[notes[i].uuid] == notes[i]
    {
      d := map[];
      ghost var fs := FieldsAll();
      var i := 0;
      while i < |notes|
        invariant Indexed(fs, d, i)
      {
        // Every note has a UUID, so the test `note.UUID != ""` always holds.
        IndexStep(fs, d, i);
        d := d[notes[i].uuid := notes[i]];
        i := i + 1;
      }
      IndexedAll(fs, d);
    }

    /** Once every note is filed, the index holds each UUID's last note. */
    lemma IndexedAll(fs: seq<NoteFields>, d: map<string, Note>)
      requires Indexed(fs, d, |notes|)
      ensures Filed(d) && FieldsMap(d) == IndexFields(fs)
      ensures forall u :: u in d ==> d[u] in notes
      ensures forall i :: 0 <= i < |notes| ==> notes[i].uuid in d
      ensures forall i :: 0 <= i < |notes| && LastWithUuid(i) ==> d[notes[i].uuid] == notes[i]
    {
      assert fs[..|notes|] == fs;
      forall k | 0 <= k < |notes| && LastWithUuid(k) ensures d[notes[k].uuid] == notes[k] {
        assert !RepeatedBefore(k, |notes|);
      }
    }

    /** The state of the `dnotes` loop after the first `i` notes, whose fields are `fs`. */
    ghost predicate Indexed(fs: seq<NoteFields>, d: map<string, Note>, i: nat)
      reads this`notes, Notes()`uuid, set u | u in d :: d[u]
    {
      && i <= |notes| == |fs| && Filed(d) && (forall u :: u in d ==> d[u] in notes)
      && FieldsMap(d) == IndexFields(fs[..i])
      && forall k :: 0 <= k < i ==> notes[k].uuid in d && (d[notes[k].uuid] == notes[k] || RepeatedBefore(k, i))
    }

    /** Filing note `i` advances the `dnotes` loop. */
    lemma IndexStep(fs: seq<NoteFields>, d: map<string, Note>, i: nat)
      requires Valid() && fs == FieldsAll() && i < |notes| && Indexed(fs, d, i)
      ensures Indexed(fs, d[notes[i].uuid := notes[i]], i + 1)
    {
      IndexFieldsStep(fs, d, i);
      IndexOrderStep(d, i);
    }

    /** Filing note `i` keeps every earlier note filed, or replaced by a later one with its UUID. */
    lemma IndexOrderStep(d: map<string, Note>, i: nat)
      requires i < |notes|
      requires forall k :: 0 <= k < i ==> notes[k].uuid in d && (d[notes[k].uuid] == notes[k] || RepeatedBefore(k, i))
      ensures var d' := d[notes[i].uuid := notes[i]];
        forall k :: 0 <= k < i + 1 ==> notes[k].uuid in d' && (d'[notes[k].uuid] == notes[k] || RepeatedBefore(k, i + 1))
    {
      var n := notes[i];
      var d' := d[n.uuid := n];
      forall k | 0 <= k < i + 1
        ensures notes[k].uuid in d' && (d'[notes[k].uuid] == notes[k] || RepeatedBefore(k, i + 1))
      {
        if k < i && notes[k].uuid == n.uuid {
          assert k < i < |notes| && notes[i].uuid == notes[k].uuid;
        } else if k < i && d[notes[k].uuid] != notes[k] {
          var j :| k < j < i && j < |notes| && notes[j].uuid == notes[k].uuid;
          assert k < j < i + 1;
        }
      }
    }

    /** Filing note `i` extends the index of the fields by entry `i`. */
    lemma IndexFieldsStep(fs: seq<NoteFields>, d: map<string, Note>, i: nat)
      requires Valid() && fs == FieldsAll() && i < |notes| && FieldsMap(d) == IndexFields(fs[..i])
      ensures FieldsMap(d[notes[i].uuid := notes[i]]) == IndexFields(fs[..i + 1])
    {
      var n := notes[i];
      FieldsOfIndex(notes);
      assert fs[..i + 1][..i] == fs[..i] && fs[..i + 1][i] == fs[i] == n.Fields();
      assert IndexFields(fs[..i + 1]) == IndexFields(fs[..i])[n.uuid := fs[i]];
      FieldsMapUpdate(d, n.uuid, n);
    }

    /** A note after note `k` and before index `i` carries `k`'s UUID. */
    ghost predicate RepeatedBefore(k: nat, i: nat)
      reads this`notes, Notes()`uuid
    {
      k < |notes| && exists j :: k < j < i && j < |notes| && notes[j].uuid == notes[k].uuid
    }

    /**
     * The object loop of `Merge` (backend.go:260-281) from the index `d0`: an
     * object whose UUID is filed patches that note in place; any other
     * becomes a new note, without a GUI, filed under its UUID.
     */
    method MergeObjects(d0: map<string, Note>, objs: seq<Table>, ids: seq<string>) returns (d: map<string, Note>)
      requires Valid() && Filed(d0) && (forall u :: u in d0 ==> d0[u] in notes)
      requires |ids| == |objs| && FreshIds(ids)
      modifies Notes()`body, Notes()`properties, Notes()`category
      ensures Valid() && Filed(d) && FieldsMap(d) == MergeFields(old(FieldsMap(d0)), objs, ids)
      ensures forall u :: u in d ==> d[u] in notes || (fresh(d[u]) && d[u].gui == null && d[u].noteSet == this)
      ensures forall u :: u in d0 && u !in ids ==> u in d && d[u] == d0[u]
    {
      ghost var m0 := FieldsMap(d0);
      d := d0;
      var i := 0;
      while i < |objs|
        invariant Merging(d, m0, objs, ids, i) && KeptFrom(d0, d, ids)
        invariant forall u :: u in d ==> d[u] in notes || fresh(d[u])
      {
        d := MergeNext(d, objs, ids, i, m0, d0);
        i := i + 1;
      }
      assert objs[..i] == objs && ids[..i] == ids;
    }

    /** The filed map `d` holds `m0` with the first `i` objects merged in. */
    ghost predicate Merging(d: map<string, Note>, m0: map<string, NoteFields>, objs: seq<Table>, ids: seq<string>, i: nat)
      reads this`notes, set u | u in d :: d[u]
    {
      && |ids| == |objs| && FreshIds(ids) && i <= |objs|
      && Filed(d) && FieldsMap(d) == MergeFields(m0, objs[..i], ids[..i]) && Spare(d)
    }

    /** One turn of the object loop of `Merge`, stated on the prefix of objects merged so far. */
    method MergeNext(d: map<string, Note>, objs: seq<Table>, ids: seq<string>, i: nat, ghost m0: map<string, NoteFields>, ghost d0: map<string, Note>)
      returns (d': map<string, Note>)
      requires Merging(d, m0, objs, ids, i) && i < |objs| && KeptFrom(d0, d, ids)
      modifies d.Values`body, d.Values`properties, d.Values`category
      ensures Merging(d', m0, objs, ids, i + 1) && KeptFrom(d0, d', ids)
      ensures forall u :: u in d' ==> (u in d && d'[u] == d[u]) || fresh(d'[u])
    {
      MergeFieldsSnoc(m0, objs, ids, i);
      d' := MergeObject(d, objs[i], ids[i]);
    }

    /** Every note of `d` is one of this set's notes or a GUI-less note made for it. */
    ghost predicate Spare(d: map<string, Note>)
      reads this`notes, set u | u in d :: d[u]
    {
      forall u :: u in d ==> d[u] in notes || (d[u].gui == null && d[u].noteSet == this)
    }

    /** One object of `Merge`'s loop. */
    method MergeObject(d0: map<string, Note>, t: Table, freshId: string) returns (d: map<string, Note>)
      requires Filed(d0) && freshId != "" && Spare(d0)
      modifies d0.Values`body, d0.Values`properties, d0.Values`category
      ensures Filed(d) && FieldsMap(d) == MergeStep(old(FieldsMap(d0)), t, freshId) && Spare(d)
      ensures forall u :: u in d ==> (u in d0 && d[u] == d0[u]) || fresh(d[u])
      ensures forall u :: u in d0 && u != freshId ==> u in d && d[u] == d0[u]
    {
      var u := GetString(t, "uuid").GetOr("");
      if u != "" && u in d0 {
        PatchFiled(d0, d0[u], t);
        d := d0;
      } else {
        var n := new Note.FromFields(NewNoteFields(Some(t), "", freshId), this);
        d := d0[n.uuid := n];
        FieldsMapUpdate(d0, n.uuid, n);
      }
    }

    /** Patching the filed note `n` changes only that entry of the map's fields. */
    static method PatchFiled(d: map<string, Note>, n: Note, t: Table)
      requires Filed(d) && n.uuid in d && d[n.uuid] == n
      modifies n`body, n`properties, n`category
      ensures FieldsMap(d) == old(FieldsMap(d))[n.uuid := PatchFields(old(n.Fields()), t)]
    {
      n.Patch(t);
      forall v | v in d ensures FieldsMap(d)[v] == old(FieldsMap(d))[n.uuid := n.Fields()][v] {
        if v != n.uuid { assert d[v].uuid != n.uuid; }
      }
    }

    /** `ns.Notes` rebuilt from the values of `dnotes` (backend.go:283-286), in an order the map does not fix. */
    method Rebuild(d: map<string, Note>)
      requires Valid() && Filed(d)
      requires forall u :: u in d ==> d[u].noteSet == this && (d[u] in notes || d[u].gui == null)
      modifies this`notes
      ensures Valid() && (forall n :: n in notes <==> n in d.Values)
      ensures forall i, j :: 0 <= i < j < |notes| ==> notes[i].uuid != notes[j].uuid
      ensures old(HandlesDistinct()) ==> HandlesDistinct()
    {
      ghost var was := notes;
      var vs := MapValues(d);
      FiledValuesUuids(d, vs);
      forall n | n in vs ensures n in was || n.gui == null {
        var u :| u in d && d[u] == n;
      }
      DistinctKeptBy(was, vs);
      notes := vs;
    }

    /**
     * The notes carry the merged index `merged`: one note per UUID filed in
     * it, with the properties and category filed under its UUID.
     */
    ghost predicate Carries(merged: map<string, NoteFields>)
      reads this`notes, Notes()`uuid, Notes()`properties, Notes()`category
    {
      && (forall i, j :: 0 <= i < j < |notes| ==> notes[i].uuid != notes[j].uuid)
      && (forall u :: u in merged <==> u in Uuids())
      && forall n :: n in notes ==> n.uuid in merged && n.properties == merged[n.uuid].properties && n.category == merged[n.uuid].category
    }

    /**
     * The notes are the merge of the fields `fs` (indexed by UUID) and the
     * imported objects `objs`: they carry the merged index, bodies included.
     */
    ghost predicate MergedFrom(fs: seq<NoteFields>, objs: seq<Table>, ids: seq<string>)
      requires |ids| == |objs| && FreshIds(ids)
      reads this`notes, Notes()`uuid, Notes()`body, Notes()`properties, Notes()`category
    {
      var merged := MergeFields(IndexFields(fs), objs, ids);
      && Carries(merged)
      && forall n :: n in notes ==> n.Fields() == merged[n.uuid]
    }

    /**
     * The index and object phases of `Merge` (backend.go:253-281): the map
     * they leave holds the merged fields of the notes' index and the imported
     * objects; the list and every GUI are as they were.
     */
    method IndexAndMerge(objs: seq<Table>, ids: seq<string>) returns (d: map<string, Note>)
      requires Valid() && |ids| == |objs| && FreshIds(ids)
      modifies Notes()`body, Notes()`properties, Notes()`category
      ensures Valid() && notes == old(notes) && Snaps() == old(Snaps())
      ensures Filed(d) && FieldsMap(d) == MergeFields(IndexFields(old(FieldsAll())), objs, ids)
      ensures forall u :: u in d ==> d[u] in notes || (fresh(d[u]) && d[u].gui == null && d[u].noteSet == this)
      ensures forall i :: 0 <= i < |notes| && old(LastWithUuid(i)) && notes[i].uuid !in ids ==> notes[i] in d.Values
    {
      var d0 := IndexNotes();
      LastKept();
      d := MergeObjects(d0, objs, ids);
      SnapsKept();
      forall i | 0 <= i < |notes| && old(LastWithUuid(i)) && notes[i].uuid !in ids ensures notes[i] in d.Values {
        assert d[notes[i].uuid] == notes[i];
      }
    }

    /** Notes that are exactly the values of a filed map carry the map's fields. */
    lemma CarriesFiled(d: map<string, Note>, merged: map<string, NoteFields>)
      requires Filed(d) && FieldsMap(d) == merged && forall n :: n in notes <==> n in d.Values
      requires forall i, j :: 0 <= i < j < |notes| ==> notes[i].uuid != notes[j].uuid
      ensures Carries(merged) && forall n :: n in notes ==> n.Fields() == merged[n.uuid]
    {
      forall n | n in notes ensures n.uuid in merged && n.Fields() == merged[n.uuid] {
        var u :| u in d && d[u] == n;
      }
      forall u | u in merged ensures u in Uuids() {
        assert d[u] in notes;
      }
    }

    /**
     * The note part of `Merge` (backend.go:253-286): the merged index of the
     * notes' fields and the imported objects `objs` is what the rebuilt list
     * holds, one note per UUID; notes keep their GUIs, imported ones have none.
     */
    method MergeNotes(objs: seq<Table>, ids: seq<string>)
      requires Valid() && |ids| == |objs| && FreshIds(ids)
      modifies this`notes, Notes()`body, Notes()`properties, Notes()`category
      ensures Valid() && MergedFrom(old(FieldsAll()), objs, ids)
      ensures forall n :: n in notes ==> n in old(notes) || (fresh(n) && n.gui == null)
      ensures forall i :: 0 <= i < |old(notes)| && old(LastWithUuid(i)) && old(notes[i].uuid) !in ids ==>
                old(notes[i]) in notes
      ensures old(HandlesDistinct()) ==> HandlesDistinct()
    {
      ghost var merged := MergeFields(IndexFields(FieldsAll()), objs, ids);
      var d := IndexAndMerge(objs, ids);
      Rebuild(d);
      CarriesFiled(d, merged);
    }

    /**
     * The data part of `Merge` (backend.go:242-289) for a decoded document:
     * its notes merged as `MergeNotes` says and its category objects laid
     * over the set's.
     */
    method MergeData(doc: Table, ids: seq<string>)
      requires Valid() && FreshIds(ids) && |ids| == |NoteObjects(doc)|
      modifies this`notes, this`categories, Notes()`body, Notes()`properties, Notes()`category
      ensures Valid() && MergedFrom(old(FieldsAll()), NoteObjects(doc), ids)
      ensures categories == MergeCategories(old(categories), doc)
      ensures forall n :: n in notes ==> n in old(notes) || (fresh(n) && n.gui == null)
      ensures forall n :: n in old(notes) ==> n.gui == old(n.gui)
      ensures forall i :: 0 <= i < |old(notes)| && old(LastWithUuid(i)) && old(notes[i].uuid) !in ids ==>
                old(notes[i]) in notes
      ensures old(HandlesDistinct()) ==> HandlesDistinct()
    {
      categories := MergeCategories(categories, doc);
      OnlySetFields();
      MergeNotes(NoteObjects(doc), ids);
    }

    /**
     * `Merge` (backend.go:234-293) up to `ShowAll`: `HideAll` saves the set
     * (the `Write` returned) and hides it, then the document's data is merged
     * into what was saved.
     */
    method MergeIn(doc: Table, ids: seq<string>, shell: Shell) returns (w: Write)
      requires Valid() && FreshIds(ids) && |ids| == |NoteObjects(doc)|
      modifies this`notes, this`categories, this`properties, Notes()`body, Notes()`properties, Notes()`category
      modifies Guis()`lastKnownPos, Guis()`lastKnownSize, Guis()`visible, ext`available, ext`connected
      ensures Valid() && MergedFrom(w.doc.notes, NoteObjects(doc), ids)
      ensures w.path == DataPath(dataFile, home) && w.doc.properties == old(properties) && w.doc.categories == old(categories)
      ensures var r := RefreshUpTo(old(ext.State()), shell, old(Snaps()), |old(notes)|);
              ext.State() == r.0 && Exported(w.doc.notes, old(FieldsAll()), r.1, old(Buffers()))
      ensures properties == old(properties)["all_visible" := Bool(false)] && categories == MergeCategories(old(categories), doc)
      ensures forall n :: n in notes ==> n in old(notes) || (fresh(n) && n.gui == null)
      ensures forall n :: n in old(notes) ==> n.gui == old(n.gui)
      ensures forall i :: 0 <= i < |old(notes)| && old(LastWithUuid(i)) && old(notes[i].uuid) !in ids ==>
                old(notes[i]) in notes
      ensures old(HandlesDistinct()) ==> HandlesDistinct()
    {
      w := HideAll(shell);
      LastKept();
      MergeData(doc, ids);
    }

    /**
     * `Merge` (backend.go:234-293) of a document, `None` for text that does
     * not decode to a JSON object: then nothing happens, otherwise
     * `MergeDoc` does.
     */
    method Merge(doc: Option<Table>, ids: seq<string>, shell: Shell, reported: string -> (Point, Point)) returns (w: Option<Write>)
      requires Valid() && FreshIds(ids) && (doc.Some? ==> |ids| == |NoteObjects(doc.value)|)
      modifies this`notes, this`categories, this`properties, Notes()`gui, Notes()`body, Notes()`properties, Notes()`category
      modifies Guis()`lastKnownPos, Guis()`lastKnownSize, Guis()`visible, Guis()`pending, ext`available, ext`connected
      ensures Valid() && (w.Some? <==> doc.Some?)
      ensures doc.None? ==> unchanged(this) && unchanged(Notes()) && unchanged(Guis()) && unchanged(ext)
      ensures doc.Some? ==>
                && w.value.path == DataPath(dataFile, home)
                && w.value.doc.properties == old(properties) && w.value.doc.categories == old(categories)
                && properties == old(properties)["all_visible" := Bool(true)]
                && categories == MergeCategories(old(categories), doc.value)
                && Carries(MergeFields(IndexFields(w.value.doc.notes), NoteObjects(doc.value), ids))
                && Exported(w.value.doc.notes, old(FieldsAll()), RefreshUpTo(old(ext.State()), shell, old(Snaps()), |old(notes)|).1, old(Buffers()))
      ensures doc.Some? ==> forall n :: n in notes ==> n.gui != null && n.gui.visible
      ensures doc.Some? ==> forall n :: n in notes && n in old(notes) && old(n.gui) != null ==>
                n.gui == old(n.gui) && n.body == n.gui.text
      ensures doc.Some? ==> forall n :: n in notes && !(n in old(notes) && old(n.gui) != null) ==>
                && fresh(n.gui) && n.gui.windowId == 0
                && n.body == MergeFields(IndexFields(w.value.doc.notes), NoteObjects(doc.value), ids)[n.uuid].body
      ensures doc.Some? ==> forall i :: 0 <= i < |old(notes)| && old(LastWithUuid(i)) && old(notes[i].uuid) !in ids ==>
                old(notes[i]) in notes
      ensures old(HandlesDistinct()) ==> HandlesDistinct()
    {
      if doc.None? {
        return None;
      }
      var saved := MergeDoc(doc.value, ids, shell, reported);
      w := Some(saved);
    }

    /**
     * `Merge` (backend.go:240-292) of a decoded document: the set is saved
     * (the `Write` returned) and hidden, and the document merged into what
     * was saved: every UUID of the merged index names exactly one note,
     * carrying its merged properties and category. Then `ShowAll` shows
     * every note: a note that already had a window keeps it and takes the
     * window's text as its body, over the merged one; the others get a new
     * window, without a window ID, and keep their merged body.
     */
    method MergeDoc(doc: Table, ids: seq<string>, shell: Shell, reported: string -> (Point, Point)) returns (w: Write)
      requires Valid() && FreshIds(ids) && |ids| == |NoteObjects(doc)|
      modifies this`notes, this`categories, this`properties, Notes()`gui, Notes()`body, Notes()`properties, Notes()`category
      modifies Guis()`lastKnownPos, Guis()`lastKnownSize, Guis()`visible, Guis()`pending, ext`available, ext`connected
      ensures Valid()
      ensures && w.path == DataPath(dataFile, home)
              && w.doc.properties == old(properties) && w.doc.categories == old(categories)
              && properties == old(properties)["all_visible" := Bool(true)]
              && categories == MergeCategories(old(categories), doc)
              && Carries(MergeFields(IndexFields(w.doc.notes), NoteObjects(doc), ids))
      ensures Exported(w.doc.notes, old(FieldsAll()), RefreshUpTo(old(ext.State()), shell, old(Snaps()), |old(notes)|).1, old(Buffers()))
      ensures forall n :: n in notes ==> n.gui != null && n.gui.visible
      ensures forall n :: n in notes && n in old(notes) && old(n.gui) != null ==>
                n.gui == old(n.gui) && n.body == n.gui.text
      ensures forall n :: n in notes && !(n in old(notes) && old(n.gui) != null) ==>
                && fresh(n.gui) && n.gui.windowId == 0
                && n.body == MergeFields(IndexFields(w.doc.notes), NoteObjects(doc), ids)[n.uuid].body
      ensures forall i :: 0 <= i < |old(notes)| && old(LastWithUuid(i)) && old(notes[i].uuid) !in ids ==>
                old(notes[i]) in notes
      ensures old(HandlesDistinct()) ==> HandlesDistinct()
    {
      assert properties["all_visible" := Bool(false)]["all_visible" := Bool(true)] == properties["all_visible" := Bool(true)];
      w := MergeIn(doc, ids, shell);
      ghost var merged := MergeFields(IndexFields(w.doc.notes), NoteObjects(doc), ids);
      ghost var buses, refreshed := ShowMerged(shell, reported, merged);
    }

    /**
     * `ShowAll` at the end of `Merge` (backend.go:291), on notes that carry
     * the merged index `merged`: they still carry it; a note that had a GUI
     * keeps it and takes the window's text as its body, and one that had
     * none gets a new GUI without a window ID and keeps its merged body.
     * The geometry, bus and callbacks are `ShowAll`'s, along the trace
     * `buses`/`refreshed` of the snapshots before it.
     */
    method ShowMerged(shell: Shell, reported: string -> (Point, Point), ghost merged: map<string, NoteFields>)
      returns (ghost buses: seq<Bus>, ghost refreshed: seq<Snap>)
      requires Valid() && Carries(merged) && forall n :: n in notes ==> n.body == merged[n.uuid].body
      modifies Notes()`gui, Notes()`body, Guis()`lastKnownPos, Guis()`lastKnownSize, Guis()`visible, Guis()`pending
      modifies ext`available, ext`connected, this`properties
      ensures Valid() && notes == old(notes) && properties == old(properties)["all_visible" := Bool(true)] && Carries(merged)
      ensures categories == old(categories)
      ensures (buses, refreshed) == Trace(old(ext.State()), shell, old(Snaps())) && ext.State() == buses[|notes|]
      ensures forall j {:trigger notes[j].gui} :: 0 <= j < |notes| ==>
                notes[j].gui != null &&
                notes[j].gui.AsSnap() == (if old(notes[j].gui) == null then BuiltSnap(notes[j].properties, reported(notes[j].uuid)) else refreshed[j])
      ensures forall j {:trigger notes[j].gui} :: 0 <= j < |notes| && old(notes[j].gui) == null ==>
                notes[j].gui != null && notes[j].gui.Built(notes[j].properties, Available(buses[j]))
      ensures forall j {:trigger notes[j].gui} :: 0 <= j < |notes| && old(notes[j].gui) != null ==>
                notes[j].gui != null && notes[j].gui.pending == old(notes[j].gui.pending) +
                  if Available(buses[j + 1]) && notes[j].gui.windowId == 0 then multiset{AssignOnShow} else multiset{}
      ensures forall n :: n in notes ==> n.gui != null && n.gui.visible
      ensures forall n :: n in notes && old(n.gui) != null ==> n.gui == old(n.gui) && n.body == n.gui.text
      ensures forall n :: n in notes && old(n.gui) == null ==> fresh(n.gui) && n.gui.windowId == 0 && n.body == merged[n.uuid].body
      ensures old(HandlesDistinct()) ==> HandlesDistinct()
    {
      buses, refreshed := ShowAll(shell, reported);
      IdsKept();
      CarriesKept(merged);
      ShownByNote();
    }

    /** `ShowAll`'s postconditions, note by note instead of index by index. */
    twostate lemma ShownByNote()
      requires notes == old(notes)
      requires forall j :: 0 <= j < |notes| ==> notes[j].gui != null && notes[j].gui.visible
      requires forall j :: 0 <= j < |notes| && old(notes[j].gui) != null ==>
                 notes[j].gui == old(notes[j].gui) && notes[j].body == notes[j].gui.text
      requires forall j :: 0 <= j < |notes| && old(notes[j].gui) == null ==>
                 fresh(notes[j].gui) && notes[j].gui.windowId == 0 && notes[j].body == old(notes[j].body)
      ensures forall n :: n in notes ==> n.gui != null && n.gui.visible
      ensures forall n :: n in notes && old(n.gui) != null ==> n.gui == old(n.gui) && n.body == n.gui.text
      ensures forall n :: n in notes && old(n.gui) == null ==> fresh(n.gui) && n.gui.windowId == 0 && n.body == old(n.body)
    {
      forall n | n in notes
        ensures n.gui != null && n.gui.visible
        ensures old(n.gui) != null ==> n.gui == old(n.gui) && n.body == n.gui.text
        ensures old(n.gui) == null ==> fresh(n.gui) && n.gui.windowId == 0 && n.body == old(n.body)
      {
        var j :| 0 <= j < |notes| && notes[j] == n;
      }
    }

    /** The notes' UUIDs, properties and categories, left unchanged, note by note. */
    twostate lemma IdsKept()
      requires notes == old(notes) && unchanged(Notes()`uuid, Notes()`properties, Notes()`category)
      ensures forall n :: n in notes ==> n.uuid == old(n.uuid) && n.properties == old(n.properties) && n.category == old(n.category)
    {
    }

    /** `Carries` holds on while the list and the notes' UUIDs, properties and categories stay. */
    twostate lemma CarriesKept(merged: map<string, NoteFields>)
      requires old(Carries(merged)) && notes == old(notes)
      requires forall n :: n in notes ==> n.uuid == old(n.uuid) && n.properties == old(n.properties) && n.category == old(n.category)
      ensures Carries(merged)
    {
      assert Uuids() == old(Uuids());
    }

    /** A change to the set's own fields other than its list leaves the notes' fields and handles as they were. */
    twostate lemma OnlySetFields()
      requires notes == old(notes) && unchanged(Notes()) && unchanged(Guis())
      ensures FieldsAll() == old(FieldsAll()) && HandlesDistinct() == old(HandlesDistinct())
      ensures forall i :: LastWithUuid(i) == old(LastWithUuid(i))
    {
    }

    /** When no UUID changed, neither did which note is the last with its UUID. */
    twostate lemma LastKept()
      requires notes == old(notes) && forall n :: n in notes ==> n.uuid == old(n.uuid)
      ensures forall i :: LastWithUuid(i) == old(LastWithUuid(i))
    {
    }

    /** Note `i` is the last one carrying its UUID. */
    ghost predicate LastWithUuid(i: nat)
      reads this`notes, Notes()`uuid
    {
      i < |notes| && forall j :: i < j < |notes| ==> notes[j].uuid != notes[i].uuid
    }

    /** The claimed-by-other loop (gui.go:246-252, 366-372; window_calls.go:339-345). */
    method IsHeldByOther(id: WindowId, me: Note) returns (held: bool)
      ensures held <==> id in HeldByOthers(me)
    {
      held := false;
      var i := 0;
      while i < |notes| && !held
        invariant 0 <= i <= |notes|
        invariant held <==> exists j :: 0 <= j < i && notes[j] != me && notes[j].gui != null && notes[j].gui.windowId == id
      {
        var other := notes[i];
        if other.gui != null && other.gui.windowId == id && other != me {
          held := true;
        }
        i := i + 1;
      }
    }
  }
}
