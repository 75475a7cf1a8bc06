/**
 * The client side of the GNOME Shell "window-calls" extension
 * (`org.gnome.Shell.Extensions.Windows` on the session bus).
 *
 * The bus itself is an oracle: a `Shell` value says what the extension would
 * answer to each call during one callback. The process-wide globals
 * (`windowCallsAvailable`, the cached connection) live in class `Extension`;
 * every call is specified by a pure step function over the `Bus` value those
 * globals form, so that the matchers built on top can be specified purely.
 */
module WindowCalls {
  import opened Wrappers

  /** D-Bus type `u`; 0 is the "no window" sentinel of the notes. */
  type WindowId = x: int | 0 <= x < 0x1_0000_0000

  /** One entry of the extension's `List` reply. */
  datatype WindowInfo = WindowInfo(
    id: WindowId, pid: int, x: int, y: int, width: int, height: int,
    wmClass: string, title: string)

  /** The extension's `Details` reply. */
  datatype WindowDetails = WindowDetails(
    id: WindowId, pid: int, x: int, y: int, width: int, height: int,
    wmClass: string, title: string, maximized: int, focus: bool)

  /** The error names the client tells apart; everything else is `OtherError`. */
  datatype BusError =
    | ServiceUnknown   // org.freedesktop.DBus.Error.ServiceUnknown
    | UnknownMethod    // org.freedesktop.DBus.Error.UnknownMethod
    | JSError          // org.gnome.gjs.JSError.Error
    | OtherError

  predicate MarksUnavailable(e: BusError) {
    e == ServiceUnknown || e == UnknownMethod
  }

  /** What `json.Unmarshal` makes of the `List` output: a list, JSON `null` (a nil slice), or a parse error. */
  datatype Decoded = Windows(windows: seq<WindowInfo>) | Null | Malformed

  datatype ListReply = ListOutput(text: string, decoded: Decoded) | ListFailure(error: BusError)

  /** `None` in `DetailsOutput` is output that does not parse. */
  datatype DetailsReply = DetailsOutput(decoded: Option<WindowDetails>) | DetailsFailure(error: BusError)

  /** The oracle: whether the session bus can be reached and what each method answers. */
  datatype Shell = Shell(
    busUp: bool,
    list: ListReply,
    details: map<WindowId, DetailsReply>,
    moveRefused: set<WindowId>)
  {
    /** A window the extension does not know makes its script throw. */
    function DetailsFor(id: WindowId): DetailsReply {
      if id in details then details[id] else DetailsFailure(JSError)
    }
  }

  /** The globals `windowCallsAvailable` and `dbusConn != nil`, with the constant result of `IsWayland()`. */
  datatype Bus = Bus(wayland: bool, available: bool, connected: bool)

  /** `IsWindowCallsAvailable` */
  predicate Available(b: Bus) {
    b.wayland && b.available
  }

  /** The invariant `init` establishes: the flag is only set with a live connection, on Wayland. */
  predicate Sound(b: Bus) {
    b.available ==> b.connected && b.wayland
  }

  /** Result of `ListWindows`: a list, `(nil, nil)`, or an error. */
  datatype Listing = Listed(windows: seq<WindowInfo>) | NoListing | ListError

  /** Result of `GetWindowDetails`: details, `(nil, nil)`, or an error. */
  datatype Lookup = Found(details: WindowDetails) | NoDetails | LookupError

  /** `getDBusConnection`: reuses the cached connection or opens one. */
  function Connect(b: Bus, shell: Shell): (r: (Bus, bool))
    ensures r.1 <==> b.connected || shell.busUp
    ensures r.0 == b.(connected := r.1)
  {
    if b.connected then (b, true)
    else if shell.busUp then (b.(connected := true), true)
    else (b, false)
  }

  /** `ListWindows` */
  function ListStep(b: Bus, shell: Shell): (Bus, Listing) {
    if !Available(b) then (b, NoListing)
    else
      var (b1, ok) := Connect(b, shell);
      if !ok then (b1, ListError)
      else match shell.list
        case ListFailure(e) =>
          if MarksUnavailable(e) then (b1.(available := false), NoListing) else (b1, ListError)
        case ListOutput(_, d) =>
          match d
          case Windows(ws) => (b1, Listed(ws))
          case Null => (b1, NoListing)
          case Malformed => (b1, ListError)
  }

  /** `GetWindowDetails` */
  function DetailsStep(b: Bus, shell: Shell, id: WindowId): (Bus, Lookup) {
    if !Available(b) then (b, NoDetails)
    else
      var (b1, ok) := Connect(b, shell);
      if !ok then (b1, LookupError)
      else match shell.DetailsFor(id)
        case DetailsFailure(e) =>
          if e == JSError then (b1, NoDetails)
          else if MarksUnavailable(e) then (b1.(available := false), NoDetails)
          else (b1, LookupError)
        case DetailsOutput(d) =>
          if d.Some? then (b1, Found(d.value)) else (b1, LookupError)
  }

  /** `MoveWindow`: true when the call returned no error. */
  function MoveStep(b: Bus, shell: Shell, id: WindowId): (Bus, bool) {
    if !Available(b) then (b, false)
    else
      var (b1, ok) := Connect(b, shell);
      if !ok then (b1, false) else (b1, id !in shell.moveRefused)
  }

  /** `checkWindowCallsExtension`: a `List` call whose output starts like JSON. */
  function CheckStep(b: Bus, shell: Shell): (Bus, bool) {
    var (b1, ok) := Connect(b, shell);
    if !ok then (b1, false)
    else match shell.list
      case ListFailure(_) => (b1, false)
      case ListOutput(text, _) => (b1, |text| > 0 && (text[0] == '[' || text[0] == '{'))
  }

  /** The package `init`: the flag is set from the check on Wayland only. */
  function InitBus(wayland: bool, shell: Shell): Bus {
    var start := Bus(wayland, false, false);
    if wayland then
      var (b1, ok) := CheckStep(start, shell);
      b1.(available := ok)
    else start
  }

  /** The windows of one process, in list order (the loop of `GetCurrentProcessWindows`). */
  function OwnWindows(ws: seq<WindowInfo>, pid: int): seq<WindowInfo> {
    if ws == [] then []
    else (if ws[0].pid == pid then [ws[0]] else []) + OwnWindows(ws[1..], pid)
  }

  /** `GetCurrentProcessWindows`: `None` is the error result. */
  function ProcessWindows(b: Bus, shell: Shell, pid: int): (Bus, Option<seq<WindowInfo>>) {
    var (b1, l) := ListStep(b, shell);
    match l
    case Listed(ws) => (b1, Some(OwnWindows(ws, pid)))
    case NoListing => (b1, None)
    case ListError => (b1, None)
  }

  /** The search of `FindWindowByPID`. */
  function FirstWithPid(ws: seq<WindowInfo>, pid: int): Option<WindowId> {
    if ws == [] then None
    else if ws[0].pid == pid then Some(ws[0].id)
    else FirstWithPid(ws[1..], pid)
  }

  /** `FindWindowByPID`: `None` is the error result (no list, or no window with that PID). */
  function FindStep(b: Bus, shell: Shell, pid: int): (Bus, Option<WindowId>) {
    var (b1, l) := ListStep(b, shell);
    match l
    case Listed(ws) => (b1, FirstWithPid(ws, pid))
    case NoListing => (b1, None)
    case ListError => (b1, None)
  }

  /** `min` */
  function Min(a: int, b: int): (m: int)
    ensures m <= a && m <= b
    ensures m == a || m == b
  {
    if a < b then a else b
  }

  // ---------------------------------------------------------------------------
  // Properties of the calls

  /** No call ever sets the availability flag, moves off Wayland, or drops the connection. */
  lemma CallsNeverEnable(b: Bus, shell: Shell, id: WindowId)
    ensures var b' := ListStep(b, shell).0; b'.wayland == b.wayland && (b'.available ==> b.available) && (b.connected ==> b'.connected)
    ensures var b' := DetailsStep(b, shell, id).0; b'.wayland == b.wayland && (b'.available ==> b.available) && (b.connected ==> b'.connected)
    ensures MoveStep(b, shell, id).0.available == b.available && MoveStep(b, shell, id).0.wayland == b.wayland
  {
  }

  /** The only transitions of the flag are the two error names, in `List` and in `Details`. */
  lemma OnlyServiceErrorsDisable(b: Bus, shell: Shell, id: WindowId)
    ensures Available(b) && !ListStep(b, shell).0.available ==>
              (b.connected || shell.busUp) && shell.list.ListFailure? && MarksUnavailable(shell.list.error)
    ensures Available(b) && !DetailsStep(b, shell, id).0.available ==>
              (b.connected || shell.busUp) && shell.DetailsFor(id).DetailsFailure? && MarksUnavailable(shell.DetailsFor(id).error)
  {
  }

  /** Unavailable: `(nil, nil)` from both queries and an error from `Move`, with no call made (the shell does not matter). */
  lemma UnavailableIsQuiet(b: Bus, s1: Shell, s2: Shell, id: WindowId)
    requires !Available(b)
    ensures ListStep(b, s1) == ListStep(b, s2) == (b, NoListing)
    ensures DetailsStep(b, s1, id) == DetailsStep(b, s2, id) == (b, NoDetails)
    ensures MoveStep(b, s1, id) == MoveStep(b, s2, id) == (b, false)
    ensures ProcessWindows(b, s1, 0).1 == None
  {
  }

  /** A script error in `Details` is "no data" and leaves the flag alone. */
  lemma JSErrorIsNoData(b: Bus, shell: Shell, id: WindowId)
    requires Sound(b)
    requires shell.DetailsFor(id) == DetailsFailure(JSError)
    ensures DetailsStep(b, shell, id).1 == NoDetails
    ensures DetailsStep(b, shell, id).0.available == b.available
  {
  }

  /** Calls keep `Sound`: the flag can only fall. */
  lemma StepsKeepSound(b: Bus, shell: Shell, id: WindowId)
    requires Sound(b)
    ensures Sound(ListStep(b, shell).0) && Sound(DetailsStep(b, shell, id).0) && Sound(MoveStep(b, shell, id).0)
    ensures Sound(ProcessWindows(b, shell, 0).0)
  {
  }

  /** On a sound bus every call leaves the cached connection as it was. */
  lemma SoundCallsKeepConnection(b: Bus, shell: Shell, id: WindowId)
    requires Sound(b)
    ensures ListStep(b, shell).0.connected == b.connected
    ensures DetailsStep(b, shell, id).0.connected == b.connected
  {
  }

  /** `init` leaves a sound bus, and sets the flag exactly when the check passed on Wayland. */
  lemma InitIsSound(wayland: bool, shell: Shell)
    ensures Sound(InitBus(wayland, shell))
    ensures InitBus(wayland, shell).available <==>
              wayland && shell.busUp && shell.list.ListOutput? && |shell.list.text| > 0 &&
              (shell.list.text[0] == '[' || shell.list.text[0] == '{')
  {
  }

  /** `GetCurrentProcessWindows` answers with an error, not an empty list, when `ListWindows` yields nil. */
  lemma NilListIsError(b: Bus, shell: Shell, pid: int)
    requires ListStep(b, shell).1 == NoListing
    ensures ProcessWindows(b, shell, pid).1 == None
  {
  }

  /** Membership in `OwnWindows` is exactly "listed with that PID". */
  lemma {:induction false} OwnWindowsMembers(ws: seq<WindowInfo>, pid: int)
    ensures forall w :: w in OwnWindows(ws, pid) <==> w in ws && w.pid == pid
  {
    if ws != [] {
      OwnWindowsMembers(ws[1..], pid);
      assert ws == [ws[0]] + ws[1..];
    }
  }

  /** `OwnWindows` keeps list order: it distributes over concatenation. */
  lemma {:induction false} OwnWindowsAppend(a: seq<WindowInfo>, c: seq<WindowInfo>, pid: int)
    ensures OwnWindows(a + c, pid) == OwnWindows(a, pid) + OwnWindows(c, pid)
  {
    if a != [] {
      assert (a + c)[0] == a[0] && (a + c)[1..] == a[1..] + c;
      OwnWindowsAppend(a[1..], c, pid);
    } else {
      assert a + c == c;
    }
  }

  /** Every window with a title replaced by ""; the title has no say in membership. */
  function Untitled(ws: seq<WindowInfo>): (r: seq<WindowInfo>)
    ensures |r| == |ws|
    ensures forall i :: 0 <= i < |ws| ==> r[i] == ws[i].(title := "")
  {
    if ws == [] then [] else [ws[0].(title := "")] + Untitled(ws[1..])
  }

  lemma {:induction false} OwnWindowsIgnoreTitles(ws: seq<WindowInfo>, pid: int)
    ensures OwnWindows(Untitled(ws), pid) == Untitled(OwnWindows(ws, pid))
  {
    if ws != [] {
      OwnWindowsIgnoreTitles(ws[1..], pid);
      assert Untitled(ws)[1..] == Untitled(ws[1..]);
      var rest := OwnWindows(ws[1..], pid);
      if ws[0].pid == pid {
        assert Untitled([ws[0]] + rest) == [ws[0].(title := "")] + Untitled(rest);
      }
    }
  }

  /** `FindWindowByPID` finds the first window of the PID; it is the head of `OwnWindows`. */
  lemma {:induction false} FirstWithPidIsFirstOwn(ws: seq<WindowInfo>, pid: int)
    ensures FirstWithPid(ws, pid) == if OwnWindows(ws, pid) == [] then None else Some(OwnWindows(ws, pid)[0].id)
  {
    if ws != [] {
     FirstWithPidIsFirstOwn(ws[1..], pid);
    }
  }

  lemma {:induction false} FirstWithPidSpec(ws: seq<WindowInfo>, pid: int)
    ensures FirstWithPid(ws, pid).None? <==> forall i :: 0 <= i < |ws| ==> ws[i].pid != pid
    ensures FirstWithPid(ws, pid).Some? ==>
              exists k :: 0 <= k < |ws| && ws[k].id == FirstWithPid(ws, pid).value && ws[k].pid == pid &&
                          forall j :: 0 <= j < k ==> ws[j].pid != pid
  {
    if ws != [] && ws[0].pid != pid {
      FirstWithPidSpec(ws[1..], pid);
      if FirstWithPid(ws[1..], pid).Some? {
        var k :| 0 <= k < |ws[1..]| && ws[1..][k].id == FirstWithPid(ws[1..], pid).value && ws[1..][k].pid == pid &&
                 forall j :: 0 <= j < k ==> ws[1..][j].pid != pid;
        assert ws[k + 1].pid == pid;
        assert forall j :: 0 <= j < k + 1 ==> ws[j].pid != pid by {
          forall j | 0 <= j < k + 1 ensures ws[j].pid != pid {
            if j > 0 { assert ws[j] == ws[1..][j - 1]; }
          }
        }
      } else {
        forall i | 0 <= i < |ws| ensures ws[i].pid != pid {
          if i > 0 { assert ws[i] == ws[1..][i - 1]; }
        }
      }
    }
  }

  // ---------------------------------------------------------------------------
  // The loops, as methods

  /** The filtering loop of `GetCurrentProcessWindows`. */
  method SelectOwn(ws: seq<WindowInfo>, pid: int) returns (own: seq<WindowInfo>)
    ensures own == OwnWindows(ws, pid)
    ensures forall w :: w in own <==> w in ws && w.pid == pid
  {
    own := [];
    var i := 0;
    while i < |ws|
      invariant 0 <= i <= |ws|
      invariant own == OwnWindows(ws[..i], pid)
    {
      assert ws[..i + 1] == ws[..i] + [ws[i]];
      OwnWindowsAppend(ws[..i], [ws[i]], pid);
      assert OwnWindows([ws[i]], pid) == if ws[i].pid == pid then [ws[i]] else [] by {
        assert [ws[i]][1..] == [];
      }
      if ws[i].pid == pid {
        own := own + [ws[i]];
      }
      i := i + 1;
    }
    assert ws[..i] == ws;
    OwnWindowsMembers(ws, pid);
  }

  /** The search loop of `FindWindowByPID`. */
  method SearchPid(ws: seq<WindowInfo>, pid: int) returns (r: Option<WindowId>)
    ensures r == FirstWithPid(ws, pid)
  {
    var i := 0;
    while i < |ws|
      invariant 0 <= i <= |ws|
      invariant FirstWithPid(ws, pid) == FirstWithPid(ws[i..], pid)
    {
      if ws[i].pid == pid {
        return Some(ws[i].id);
      }
      assert ws[i..][1..] == ws[i + 1..];
      i := i + 1;
    }
    return None;
  }

  // ---------------------------------------------------------------------------
  // The globals

  class Extension {
    /** `IsWayland()`, fixed for the process. */
    const wayland: bool
    /** `currentPID := os.Getpid()` */
    const currentPid: int
    /** `windowCallsAvailable` */
    var available: bool
    /** `dbusConn != nil` */
    var connected: bool

    ghost function State(): Bus
      reads this`available, this`connected
    {
      Bus(wayland, available, connected)
    }

    ghost predicate Valid()
      reads this`available, this`connected
    {
      Sound(State())
    }

    /** The package `init`, with `checkWindowCallsExtension` on Wayland. */
    constructor Init(onWayland: bool, pid: int, shell: Shell)
      ensures State() == InitBus(onWayland, shell) && currentPid == pid
      ensures Valid()
    {
      wayland := onWayland;
      currentPid := pid;
      available := false;
      connected := false;
      new;
      InitIsSound(onWayland, shell);
      if onWayland {
        var ok := CheckWindowCallsExtension(shell);
        available := ok;
      }
    }

    /** `IsWindowCallsAvailable` */
    predicate IsAvailable()
      reads this`available
    {
      wayland && available
    }

    method GetDBusConnection(shell: Shell) returns (ok: bool)
      modifies this`connected
      ensures (State(), ok) == Connect(old(State()), shell)
      ensures old(Valid()) ==> Valid()
    {
      if connected {
        return true;
      }
      if shell.busUp {
        connected := true;
        return true;
      }
      return false;
    }

    method CheckWindowCallsExtension(shell: Shell) returns (ok: bool)
      modifies this`connected
      ensures (State(), ok) == CheckStep(old(State()), shell)
    {
      var conn := GetDBusConnection(shell);
      if !conn {
        return false;
      }
      match shell.list
      case ListFailure(_) =>
        return false;
      case ListOutput(text, _) =>
        return |text| > 0 && (text[0] == '[' || text[0] == '{');
    }

    method ListWindows(shell: Shell) returns (r: Listing)
      modifies this`available, this`connected
      ensures (State(), r) == ListStep(old(State()), shell)
      ensures old(Valid()) ==> Valid()
    {
      if !IsAvailable() {
        return NoListing;
      }
      var conn := GetDBusConnection(shell);
      if !conn {
        return ListError;
      }
      match shell.list
      case ListFailure(e) =>
        if MarksUnavailable(e) {
          available := false;
          return NoListing;
        }
        return ListError;
      case ListOutput(_, d) =>
        match d
        case Windows(ws) => return Listed(ws);
        case Null => return NoListing;
        case Malformed => return ListError;
    }

    method GetWindowDetails(shell: Shell, id: WindowId) returns (r: Lookup)
      modifies this`available, this`connected
      ensures (State(), r) == DetailsStep(old(State()), shell, id)
      ensures old(Valid()) ==> Valid()
    {
      if !IsAvailable() {
        return NoDetails;
      }
      var conn := GetDBusConnection(shell);
      if !conn {
        return LookupError;
      }
      match shell.DetailsFor(id)
      case DetailsFailure(e) =>
        if e == JSError {
          return NoDetails;
        }
        if MarksUnavailable(e) {
          available := false;
          return NoDetails;
        }
        return LookupError;
      case DetailsOutput(d) =>
        if d.Some? {
          return Found(d.value);
        }
        return LookupError;
    }

    /** `MoveWindow`; where the shell then puts the window is outside the model. */
    method MoveWindow(shell: Shell, id: WindowId, x: int, y: int) returns (ok: bool)
      modifies this`connected
      ensures (State(), ok) == MoveStep(old(State()), shell, id)
      ensures old(Valid()) ==> Valid()
    {
      if !IsAvailable() {
        return false;
      }
      var conn := GetDBusConnection(shell);
      if !conn {
        return false;
      }
      return id !in shell.moveRefused;
    }

    /** `GetCurrentProcessWindows`; `None` is the error result. */
    method GetCurrentProcessWindows(shell: Shell) returns (r: Option<seq<WindowInfo>>)
      modifies this`available, this`connected
      ensures (State(), r) == ProcessWindows(old(State()), shell, currentPid)
      ensures old(Valid()) ==> Valid()
    {
      var l := ListWindows(shell);
      match l
      case Listed(ws) =>
        var own := SelectOwn(ws, currentPid);
        return Some(own);
      case NoListing =>
        return None;
      case ListError =>
        return None;
    }

    /** `FindWindowByPID`; `None` is the error result. */
    method FindWindowByPid(shell: Shell, pid: int) returns (r: Option<WindowId>)
      modifies this`available, this`connected
      ensures (State(), r) == FindStep(old(State()), shell, pid)
      ensures old(Valid()) ==> Valid()
    {
      var l := ListWindows(shell);
      match l
      case Listed(ws) =>
        r := SearchPid(ws, pid);
      case NoListing =>
        r := None;
      case ListError =>
        r := None;
    }
  }
}
