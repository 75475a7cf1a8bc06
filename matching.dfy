/**
 * The four ways a note learns which shell window is its own
 * (stickynotes/gui.go, stickynotes/window_calls.go), as pure functions over
 * the bus state and the shell oracle:
 *
 *  - the first-fit size match of the 300 ms callback of `buildNote`, of
 *    `UpdateNotePositionsFromWindowCalls` and of `onConfigure` (`FirstFit`;
 *    `onConfigure` passes no claimed IDs, because it does not look at the
 *    other notes);
 *  - the scoring match of `assignWindowID` (`Evals`, `Pick`, `AssignStep`).
 *
 * `claimed` is the set of window IDs held by the other notes that have a GUI.
 */
module Matching {
  import opened Wrappers
  import opened WindowCalls
  import opened Geometry

  /** The size test shared by all matchers: both dimensions within 10 pixels. */
  predicate Fits(width: int, height: int, size: Point) {
    AbsInt(width - size.0) < 10 && AbsInt(height - size.1) < 10
  }

  /** The shell would describe window `id` with details that fit `size`. */
  predicate FitsIn(shell: Shell, id: WindowId, size: Point) {
    var r := shell.DetailsFor(id);
    r.DetailsOutput? && r.decoded.Some? && Fits(r.decoded.value.width, r.decoded.value.height, size)
  }

  /** A matched window and the details it was matched on. */
  datatype Fit = Fit(id: WindowId, details: WindowDetails)

  // ---------------------------------------------------------------------------
  // First fit

  /** The loop that breaks at the first unclaimed window whose `GetWindowDetails` fits. */
  function FirstFit(b: Bus, shell: Shell, ws: seq<WindowInfo>, claimed: set<WindowId>, size: Point): (Bus, Option<Fit>)
    decreases |ws|
  {
    if ws == [] then (b, None)
    else if ws[0].id in claimed then FirstFit(b, shell, ws[1..], claimed, size)
    else
      var (b1, l) := DetailsStep(b, shell, ws[0].id);
      if l.Found? && Fits(l.details.width, l.details.height, size) then (b1, Some(Fit(ws[0].id, l.details)))
      else FirstFit(b1, shell, ws[1..], claimed, size)
  }

  /** A match needs the extension to be available and the bus reachable from the start. */
  lemma {:induction false} FirstFitNeedsBus(b: Bus, shell: Shell, ws: seq<WindowInfo>, claimed: set<WindowId>, size: Point)
    requires FirstFit(b, shell, ws, claimed, size).1.Some?
    ensures Available(b) && (b.connected || shell.busUp)
    decreases |ws|
  {
    if ws[0].id in claimed {
      FirstFitNeedsBus(b, shell, ws[1..], claimed, size);
    } else {
      var (b1, l) := DetailsStep(b, shell, ws[0].id);
      if !(l.Found? && Fits(l.details.width, l.details.height, size)) {
        FirstFitNeedsBus(b1, shell, ws[1..], claimed, size);
      }
    }
  }

  /**
   * A first-fit match is a listed, unclaimed window whose details, as the
   * shell gives them, fit the size; every unclaimed window listed before it
   * does not fit.
   */
  lemma {:induction false} FirstFitIsFirstFree(b: Bus, shell: Shell, ws: seq<WindowInfo>, claimed: set<WindowId>, size: Point)
    requires FirstFit(b, shell, ws, claimed, size).1.Some?
    ensures var f := FirstFit(b, shell, ws, claimed, size).1.value;
      && f.id !in claimed
      && Fits(f.details.width, f.details.height, size)
      && shell.DetailsFor(f.id) == DetailsOutput(Some(f.details))
      && exists k :: 0 <= k < |ws| && ws[k].id == f.id &&
           forall j :: 0 <= j < k ==> ws[j].id in claimed || !FitsIn(shell, ws[j].id, size)
    decreases |ws|
  {
    var f := FirstFit(b, shell, ws, claimed, size).1.value;
    if ws[0].id in claimed {
      FirstFitIsFirstFree(b, shell, ws[1..], claimed, size);
      var k :| 0 <= k < |ws[1..]| && ws[1..][k].id == f.id &&
           forall j :: 0 <= j < k ==> ws[1..][j].id in claimed || !FitsIn(shell, ws[1..][j].id, size);
      assert ws[k + 1].id == f.id;
      assert forall j :: 0 <= j < k + 1 ==> ws[j].id in claimed || !FitsIn(shell, ws[j].id, size) by {
        forall j | 0 <= j < k + 1 ensures ws[j].id in claimed || !FitsIn(shell, ws[j].id, size) {
          if j > 0 { assert ws[j] == ws[1..][j - 1]; }
        }
      }
    } else {
      var (b1, l) := DetailsStep(b, shell, ws[0].id);
      if l.Found? && Fits(l.details.width, l.details.height, size) {
        assert ws[0].id == f.id;
      } else {
        FirstFitNeedsBus(b1, shell, ws[1..], claimed, size);
        FirstFitIsFirstFree(b1, shell, ws[1..], claimed, size);
        var k :| 0 <= k < |ws[1..]| && ws[1..][k].id == f.id &&
             forall j :: 0 <= j < k ==> ws[1..][j].id in claimed || !FitsIn(shell, ws[1..][j].id, size);
        assert !FitsIn(shell, ws[0].id, size);
        assert ws[k + 1].id == f.id;
        assert forall j :: 0 <= j < k + 1 ==> ws[j].id in claimed || !FitsIn(shell, ws[j].id, size) by {
          forall j | 0 <= j < k + 1 ensures ws[j].id in claimed || !FitsIn(shell, ws[j].id, size) {
            if j > 0 { assert ws[j] == ws[1..][j - 1]; }
          }
        }
      }
    }
  }

  /** A first fit is a listed window whose details fit. */
  lemma FirstFitIsListed(b: Bus, shell: Shell, ws: seq<WindowInfo>, claimed: set<WindowId>, size: Point)
    requires FirstFit(b, shell, ws, claimed, size).1.Some?
    ensures var f := FirstFit(b, shell, ws, claimed, size).1.value;
      FitsIn(shell, f.id, size) && exists w :: w in ws && w.id == f.id
  {
    FirstFitIsFirstFree(b, shell, ws, claimed, size);
    var f := FirstFit(b, shell, ws, claimed, size).1.value;
    var k :| 0 <= k < |ws| && ws[k].id == f.id;
    assert ws[k] in ws;
  }

  /** The first-fit answer computed from the shell alone, when every lookup gets through. */
  function FirstFitting(shell: Shell, ws: seq<WindowInfo>, claimed: set<WindowId>, size: Point): Option<Fit>
    decreases |ws|
  {
    if ws == [] then None
    else if ws[0].id !in claimed && FitsIn(shell, ws[0].id, size) then
      Some(Fit(ws[0].id, shell.DetailsFor(ws[0].id).decoded.value))
    else FirstFitting(shell, ws[1..], claimed, size)
  }

  /** No lookup reply that switches the extension off. */
  predicate QuietDetails(shell: Shell, ws: seq<WindowInfo>) {
    forall w :: w in ws ==> !(shell.DetailsFor(w.id).DetailsFailure? && MarksUnavailable(shell.DetailsFor(w.id).error))
  }

  /** With the extension up and connected, and no lookup switching it off, first fit is the shell's first fitting window. */
  lemma {:induction false} FirstFitOnLiveBus(b: Bus, shell: Shell, ws: seq<WindowInfo>, claimed: set<WindowId>, size: Point)
    requires Available(b) && b.connected
    requires QuietDetails(shell, ws)
    ensures FirstFit(b, shell, ws, claimed, size) == (b, FirstFitting(shell, ws, claimed, size))
    decreases |ws|
  {
    if ws != [] {
      assert QuietDetails(shell, ws[1..]) by {
        forall w | w in ws[1..] ensures w in ws { }
      }
      FirstFitOnLiveBus(b, shell, ws[1..], claimed, size);
    }
  }

  /** With the extension unavailable no window is ever matched and nothing changes. */
  lemma {:induction false} FirstFitUnavailable(b: Bus, shell: Shell, ws: seq<WindowInfo>, claimed: set<WindowId>, size: Point)
    requires !Available(b)
    ensures FirstFit(b, shell, ws, claimed, size) == (b, None)
    decreases |ws|
  {
    if ws != [] {
      FirstFitUnavailable(b, shell, ws[1..], claimed, size);
    }
  }

  /**
   * Without the claimed IDs (as in `onConfigure`) the first fit can pick a
   * window another note already holds: here window 7 is held by another
   * note, fits, and is chosen, while the same search with 7 claimed finds nothing.
   */
  lemma ConfigureMatchIgnoresClaims()
    ensures var d := WindowDetails(7, 1, 0, 0, 200, 150, "", "", 0, false);
      var shell := Shell(true, ListOutput("[]", Windows([])), map[7 := DetailsOutput(Some(d))], {});
      var w := WindowInfo(7, 1, 0, 0, 0, 0, "", "");
      var b := Bus(true, true, true);
      && FirstFit(b, shell, [w], {}, (200, 150)) == (b, Some(Fit(7, d)))
      && FirstFit(b, shell, [w], {7}, (200, 150)) == (b, None)
  {
  }

  // ---------------------------------------------------------------------------
  // Scoring (assignWindowID)

  /**
   * The score of a candidate: 10 for a size within 10 pixels, plus 5 for a
   * position within 50 pixels of `expected`, which counts only when it is not (0, 0).
   */
  function Score(pos: Point, dims: Point, size: Point, expected: Point): (s: nat)
    ensures s == 0 || s == 5 || s == 10 || s == 15
    ensures s >= 10 <==> Fits(dims.0, dims.1, size)
    ensures s % 10 == 5 <==> expected != (0, 0) && AbsInt(pos.0 - expected.0) < 50 && AbsInt(pos.1 - expected.1) < 50
  {
    (if Fits(dims.0, dims.1, size) then 10 else 0) +
    (if expected != (0, 0) && AbsInt(pos.0 - expected.0) < 50 && AbsInt(pos.1 - expected.1) < 50 then 5 else 0)
  }

  /** A size match always outscores any candidate that only matches by position. */
  lemma SizeBeatsPosition(p1: Point, d1: Point, p2: Point, d2: Point, size: Point, expected: Point)
    requires Fits(d1.0, d1.1, size) && !Fits(d2.0, d2.1, size)
    ensures Score(p1, d1, size, expected) > Score(p2, d2, size, expected)
  {
  }

  /** The outcome for one listed window: skipped (`continue`), or a score. */
  datatype Eval = Skipped | Scored(score: nat)

  /** One iteration of the candidate loop of `assignWindowID`. */
  function Evaluate(b: Bus, shell: Shell, w: WindowInfo, claimed: set<WindowId>, size: Point, expected: Point): (Bus, Eval) {
    if w.id in claimed then (b, Skipped)
    else if w.width == 0 && w.height == 0 then
      var (b1, l) := DetailsStep(b, shell, w.id);
      if l.Found? then (b1, Scored(Score((l.details.x, l.details.y), (l.details.width, l.details.height), size, expected)))
      else (b1, Skipped)
    else (b, Scored(Score((w.x, w.y), (w.width, w.height), size, expected)))
  }

  /** The outcomes of the candidate loop over `ws`, in order, and the bus state after it. */
  function Evals(b: Bus, shell: Shell, ws: seq<WindowInfo>, claimed: set<WindowId>, size: Point, expected: Point): (Bus, seq<Eval>)
    decreases |ws|
  {
    if ws == [] then (b, [])
    else
      var (b1, es) := Evals(b, shell, ws[..|ws| - 1], claimed, size, expected);
      var (b2, e) := Evaluate(b1, shell, ws[|ws| - 1], claimed, size, expected);
      (b2, es + [e])
  }

  /** `bestMatch` */
  datatype Best = Best(id: WindowId, score: nat)

  /** `bestMatch` after the outcomes `es` of the windows `ws`: replaced only on a strictly higher score. */
  function Pick(ws: seq<WindowInfo>, es: seq<Eval>): Best
    requires |ws| == |es|
    decreases |ws|
  {
    if ws == [] then Best(0, 0)
    else
      var acc := Pick(ws[..|ws| - 1], es[..|es| - 1]);
      var e := es[|es| - 1];
      if e.Scored? && e.score > acc.score then Best(ws[|ws| - 1].id, e.score) else acc
  }

  /** One more window: the loop's step. */
  lemma EvalsSnoc(b: Bus, shell: Shell, ws: seq<WindowInfo>, w: WindowInfo, claimed: set<WindowId>, size: Point, expected: Point)
    ensures var (b1, es) := Evals(b, shell, ws, claimed, size, expected);
      var (b2, e) := Evaluate(b1, shell, w, claimed, size, expected);
      Evals(b, shell, ws + [w], claimed, size, expected) == (b2, es + [e])
  {
    assert (ws + [w])[..|ws|] == ws;
  }

  /** One more outcome: `bestMatch` is replaced only on a strictly higher score. */
  lemma PickSnoc(ws: seq<WindowInfo>, w: WindowInfo, es: seq<Eval>, e: Eval)
    requires |ws| == |es|
    ensures var acc := Pick(ws, es);
      Pick(ws + [w], es + [e]) == if e.Scored? && e.score > acc.score then Best(w.id, e.score) else acc
  {
    assert (ws + [w])[..|ws|] == ws;
    assert (es + [e])[..|es|] == es;
  }

  lemma {:induction false} EvalsShape(b: Bus, shell: Shell, ws: seq<WindowInfo>, claimed: set<WindowId>, size: Point, expected: Point)
    ensures var es := Evals(b, shell, ws, claimed, size, expected).1;
      && |es| == |ws|
      && (forall k :: 0 <= k < |ws| && ws[k].id in claimed ==> es[k] == Skipped)
      && (forall k :: 0 <= k < |ws| && ws[k].id !in claimed && (ws[k].width != 0 || ws[k].height != 0) ==>
            es[k] == Scored(Score((ws[k].x, ws[k].y), (ws[k].width, ws[k].height), size, expected)))
    decreases |ws|
  {
    if ws != [] {
      EvalsShape(b, shell, ws[..|ws| - 1], claimed, size, expected);
    }
  }

  /** The loop keeps the bus invariant. */
  lemma {:induction false} EvalsKeepSound(b: Bus, shell: Shell, ws: seq<WindowInfo>, claimed: set<WindowId>, size: Point, expected: Point)
    requires Sound(b)
    ensures Sound(Evals(b, shell, ws, claimed, size, expected).0)
    decreases |ws|
  {
    if ws != [] {
      EvalsKeepSound(b, shell, ws[..|ws| - 1], claimed, size, expected);
      var b1 := Evals(b, shell, ws[..|ws| - 1], claimed, size, expected).0;
      StepsKeepSound(b1, shell, ws[|ws| - 1].id);
    }
  }

  /**
   * `bestMatch` holds the highest score seen, and the earliest window that
   * reached it; a zero score never replaces the initial (0, 0).
   */
  lemma {:induction false} PickIsBest(ws: seq<WindowInfo>, es: seq<Eval>)
    requires |ws| == |es|
    ensures var r := Pick(ws, es);
      && (forall k :: 0 <= k < |es| && es[k].Scored? ==> es[k].score <= r.score)
      && (r.score == 0 ==> r == Best(0, 0))
      && (r.score > 0 ==>
            exists k :: 0 <= k < |es| && es[k] == Scored(r.score) && ws[k].id == r.id &&
              forall j :: 0 <= j < k && es[j].Scored? ==> es[j].score < r.score)
    decreases |ws|
  {
    if ws != [] {
      var n := |ws|;
      var ws', es' := ws[..n - 1], es[..n - 1];
      PickIsBest(ws', es');
      var acc := Pick(ws', es');
      var r := Pick(ws, es);
      forall k | 0 <= k < n - 1 ensures es[k] == es'[k] && ws[k] == ws'[k] { }
      if es[n - 1].Scored? && es[n - 1].score > acc.score {
        assert r == Best(ws[n - 1].id, es[n - 1].score);
      } else {
        assert r == acc;
        if r.score > 0 {
          var k :| 0 <= k < |es'| && es'[k] == Scored(r.score) && ws'[k].id == r.id &&
                   forall j :: 0 <= j < k && es'[j].Scored? ==> es'[j].score < r.score;
          assert es[k] == Scored(r.score) && ws[k].id == r.id;
        }
      }
    }
  }

  /** The candidate loop as a whole: the bus state after it and `bestMatch`. */
  function Choose(b: Bus, shell: Shell, ws: seq<WindowInfo>, claimed: set<WindowId>, size: Point, expected: Point): (Bus, Best) {
    EvalsShape(b, shell, ws, claimed, size, expected);
    var (b1, es) := Evals(b, shell, ws, claimed, size, expected);
    (b1, Pick(ws, es))
  }

  /** The chosen window is one of the candidates, not claimed, and no candidate scores higher. */
  lemma ChooseIsBestFree(b: Bus, shell: Shell, ws: seq<WindowInfo>, claimed: set<WindowId>, size: Point, expected: Point)
    ensures var r := Choose(b, shell, ws, claimed, size, expected).1;
      var es := Evals(b, shell, ws, claimed, size, expected).1;
      && |es| == |ws|
      && (r.score > 0 ==> r.id !in claimed && exists k :: 0 <= k < |ws| && ws[k].id == r.id)
      && (r.score == 0 ==> r.id == 0)
      && (forall k :: 0 <= k < |ws| && es[k].Scored? ==> es[k].score <= r.score)
  {
    EvalsShape(b, shell, ws, claimed, size, expected);
    var es := Evals(b, shell, ws, claimed, size, expected).1;
    PickIsBest(ws, es);
  }

  /** A window with a nonzero listed size that fits beats every candidate that does not fit. */
  lemma ChooseFavoursSize(b: Bus, shell: Shell, ws: seq<WindowInfo>, claimed: set<WindowId>, size: Point, expected: Point, k: nat)
    requires k < |ws| && ws[k].id !in claimed && (ws[k].width != 0 || ws[k].height != 0)
    requires Fits(ws[k].width, ws[k].height, size)
    ensures Choose(b, shell, ws, claimed, size, expected).1.score >= 10
  {
    EvalsShape(b, shell, ws, claimed, size, expected);
    var es := Evals(b, shell, ws, claimed, size, expected).1;
    PickIsBest(ws, es);
    assert es[k].Scored? && es[k].score >= 10;
  }

  /** A lookup that is skipped without touching the bus. */
  predicate SkippedQuietly(shell: Shell, w: WindowInfo, claimed: set<WindowId>) {
    w.id in claimed || (w.width == 0 && w.height == 0 && shell.DetailsFor(w.id) == DetailsFailure(JSError))
  }

  lemma {:induction false} EvalsInsertSkipped(b: Bus, shell: Shell, pre: seq<WindowInfo>, w: WindowInfo, post: seq<WindowInfo>,
                                               claimed: set<WindowId>, size: Point, expected: Point)
    requires Sound(b) && SkippedQuietly(shell, w, claimed)
    ensures var (b1, es1) := Evals(b, shell, pre + post, claimed, size, expected);
      var (b2, es2) := Evals(b, shell, pre + [w] + post, claimed, size, expected);
      && |es1| == |pre| + |post|
      && b2 == b1 && es2 == es1[..|pre|] + [Skipped] + es1[|pre|..]
    decreases |post|
  {
    EvalsShape(b, shell, pre + post, claimed, size, expected);
    if post == [] {
      assert pre + [w] + post == pre + [w];
      assert pre + post == pre;
      assert (pre + [w])[..|pre|] == pre;
      EvalsShape(b, shell, pre, claimed, size, expected);
      EvalsKeepSound(b, shell, pre, claimed, size, expected);
      var bp := Evals(b, shell, pre, claimed, size, expected).0;
      if w.id !in claimed {
        JSErrorIsNoData(bp, shell, w.id);
        SoundCallsKeepConnection(bp, shell, w.id);
      }
    } else {
      var n := |post|;
      var post' := post[..n - 1];
      var x := post[n - 1];
      assert (pre + [w] + post)[..|pre + [w] + post| - 1] == pre + [w] + post';
      assert (pre + [w] + post)[|pre + [w] + post| - 1] == x;
      assert (pre + post)[..|pre + post| - 1] == pre + post';
      assert (pre + post)[|pre + post| - 1] == x;
      EvalsInsertSkipped(b, shell, pre, w, post', claimed, size, expected);
      var (bq, es1') := Evals(b, shell, pre + post', claimed, size, expected);
      var e := Evaluate(bq, shell, x, claimed, size, expected).1;
      var es1 := es1' + [e];
      assert es1[..|pre|] == es1'[..|pre|];
      assert es1[|pre|..] == es1'[|pre|..] + [e];
    }
  }

  lemma {:induction false} PickIgnoresSkipped(pre: seq<WindowInfo>, w: WindowInfo, post: seq<WindowInfo>, es: seq<Eval>)
    requires |es| == |pre| + |post|
    ensures Pick(pre + [w] + post, es[..|pre|] + [Skipped] + es[|pre|..]) == Pick(pre + post, es)
    decreases |post|
  {
    var ws2, es2 := pre + [w] + post, es[..|pre|] + [Skipped] + es[|pre|..];
    if post == [] {
      assert ws2[..|ws2| - 1] == pre + post;
      assert es2[..|es2| - 1] == es;
    } else {
      var n := |post|;
      var post' := post[..n - 1];
      var es' := es[..|es| - 1];
      PickIgnoresSkipped(pre, w, post', es');
      assert ws2[..|ws2| - 1] == pre + [w] + post';
      assert es2[..|es2| - 1] == es'[..|pre|] + [Skipped] + es'[|pre|..];
      assert (pre + post)[..|pre + post| - 1] == pre + post';
      assert ws2[|ws2| - 1] == (pre + post)[|pre + post| - 1];
      assert es2[|es2| - 1] == es[|es| - 1];
    }
  }

  /**
   * A window that is skipped without a bus effect (claimed, or listed with
   * size 0x0 and unknown to the extension) does not change the choice.
   */
  lemma SkippedWindowIsIrrelevant(b: Bus, shell: Shell, pre: seq<WindowInfo>, w: WindowInfo, post: seq<WindowInfo>,
                                  claimed: set<WindowId>, size: Point, expected: Point)
    requires Sound(b) && SkippedQuietly(shell, w, claimed)
    ensures Choose(b, shell, pre + [w] + post, claimed, size, expected) == Choose(b, shell, pre + post, claimed, size, expected)
  {
    EvalsInsertSkipped(b, shell, pre, w, post, claimed, size, expected);
    var es := Evals(b, shell, pre + post, claimed, size, expected).1;
    PickIgnoresSkipped(pre, w, post, es);
  }

  /** `assignWindowID`: the new bus state and the window ID. */
  function AssignStep(b: Bus, shell: Shell, pid: int, current: WindowId, claimed: set<WindowId>,
                      size: Point, expected: Point): (Bus, WindowId)
  {
    if current != 0 then (b, current)
    else
      var (b1, r) := ProcessWindows(b, shell, pid);
      if r.None? || |r.value| == 0 then (b1, current)
      else
        var (b2, best) := Choose(b1, shell, r.value, claimed, size, expected);
        (b2, if best.id != 0 then best.id else current)
  }

  /**
   * An assigned ID is never replaced; a new ID is one of this process's
   * listed windows, not held by another note.
   */
  lemma AssignStepChoice(b: Bus, shell: Shell, pid: int, current: WindowId, claimed: set<WindowId>, size: Point, expected: Point)
    ensures current != 0 ==> AssignStep(b, shell, pid, current, claimed, size, expected) == (b, current)
    ensures var id := AssignStep(b, shell, pid, current, claimed, size, expected).1;
      id != current ==>
        && id != 0 && id !in claimed
        && shell.list.ListOutput? && shell.list.decoded.Windows?
        && exists w :: w in shell.list.decoded.windows && w.id == id && w.pid == pid
  {
    if current == 0 {
      var (b1, r) := ProcessWindows(b, shell, pid);
      if r.Some? && |r.value| > 0 {
        var ws := r.value;
        ChooseIsBestFree(b1, shell, ws, claimed, size, expected);
        var best := Choose(b1, shell, ws, claimed, size, expected).1;
        if best.id != 0 {
          var all := ListStep(b, shell).1.windows;
          OwnWindowsMembers(all, pid);
          var k :| 0 <= k < |ws| && ws[k].id == best.id;
          assert ws[k] in OwnWindows(all, pid);
        }
      }
    }
  }

  // ---------------------------------------------------------------------------
  // The per-callback steps

  /** How the window was last placed. */
  datatype Placement = NotPlaced | MovedByShell(to: Point) | MovedByGtk(to: Point)

  /**
   * The first-fit match of the 300 ms callback of `buildNote` and of
   * `onConfigure`: with no ID yet, the first window of the process that fits
   * the size and is not claimed.
   */
  function MatchFirstFit(b: Bus, shell: Shell, pid: int, current: WindowId, claimed: set<WindowId>, size: Point): (Bus, WindowId)
  {
    if current != 0 then (b, current)
    else
      var (bp, r) := ProcessWindows(b, shell, pid);
      if r.None? then (bp, current)
      else
        var (bf, f) := FirstFit(bp, shell, r.value, claimed, size);
        (bf, if f.Some? then f.value.id else current)
  }

  /** The move of the 300 ms callback: through the shell with an ID, by GTK without one or when the shell refuses. */
  function Place(b: Bus, shell: Shell, id: WindowId, restorePos: Point): (Bus, Placement)
  {
    if id != 0 then
      var (b2, ok) := MoveStep(b, shell, id);
      (b2, if ok then MovedByShell(restorePos) else MovedByGtk(restorePos))
    else (b, MovedByGtk(restorePos))
  }

  /** The 300 ms callback of `buildNote`: the match, then the move. */
  function MatchAndPlaceStep(b: Bus, shell: Shell, pid: int, current: WindowId, claimed: set<WindowId>,
                             size: Point, restorePos: Point): (Bus, WindowId, Placement)
  {
    var (b1, id) := MatchFirstFit(b, shell, pid, current, claimed, size);
    var (b2, p) := Place(b1, shell, id, restorePos);
    (b2, id, p)
  }

  /** Every branch places the window at the restore position; a new ID is not held by another note. */
  lemma MatchAndPlaceStepProps(b: Bus, shell: Shell, pid: int, current: WindowId, claimed: set<WindowId>, size: Point, restorePos: Point)
    ensures var r := MatchAndPlaceStep(b, shell, pid, current, claimed, size, restorePos);
      && r.2.to == restorePos
      && (current != 0 ==> r.1 == current)
      && (r.1 != current ==> r.1 !in claimed)
      && (r.1 == 0 ==> r.2.MovedByGtk?)
  {
    if current == 0 {
      var (bp, r) := ProcessWindows(b, shell, pid);
      if r.Some? && FirstFit(bp, shell, r.value, claimed, size).1.Some? {
        FirstFitIsFirstFree(bp, shell, r.value, claimed, size);
      }
    }
  }

  /** The 1500 ms callback of `buildNote`: `assignWindowID`, then a details lookup whose answer is not used. */
  function VerifyStep(b: Bus, shell: Shell, pid: int, current: WindowId, claimed: set<WindowId>,
                      size: Point, expected: Point): (Bus, WindowId)
  {
    var (b1, id) := AssignStep(b, shell, pid, current, claimed, size, expected);
    if id == 0 then (b1, id) else (DetailsStep(b1, shell, id).0, id)
  }

  /** The lookup of the 1500 ms callback changes only the bus state; the ID is `assignWindowID`'s. */
  lemma VerifyStepIsAssign(b: Bus, shell: Shell, pid: int, current: WindowId, claimed: set<WindowId>, size: Point, expected: Point)
    requires Sound(b)
    ensures VerifyStep(b, shell, pid, current, claimed, size, expected).1 == AssignStep(b, shell, pid, current, claimed, size, expected).1
    ensures Sound(VerifyStep(b, shell, pid, current, claimed, size, expected).0)
  {
    var (bp, r) := ProcessWindows(b, shell, pid);
    StepsKeepSound(b, shell, 0);
    if current == 0 && r.Some? && |r.value| > 0 {
      EvalsKeepSound(bp, shell, r.value, claimed, size, expected);
    }
    var (b1, id) := AssignStep(b, shell, pid, current, claimed, size, expected);
    StepsKeepSound(b1, shell, id);
  }

  /**
   * The geometry of one note in `UpdateNotePositionsFromWindowCalls`: its
   * new ID, position and size, and whether it counts as updated.
   */
  datatype Sync = Sync(bus: Bus, id: WindowId, pos: Point, size: Point, updated: bool)

  /**
   * One note of `UpdateNotePositionsFromWindowCalls`: the known ID's details
   * when they come back; otherwise (also when the known ID fails) a first-fit
   * match on the GTK size among the windows not held by other notes.
   */
  function SyncStep(b: Bus, shell: Shell, ws: seq<WindowInfo>, claimed: set<WindowId>,
                    current: WindowId, lastPos: Point, lastSize: Point, gtkSize: Point): Sync
  {
    var (b1, l) := if current != 0 then DetailsStep(b, shell, current) else (b, NoDetails);
    if current != 0 && l.Found? then
      var pos := (l.details.x, l.details.y);
      Sync(b1, current, pos, (l.details.width, l.details.height), pos != lastPos)
    else
      var (b2, f) := FirstFit(b1, shell, ws, claimed, gtkSize);
      if f.Some? then
        Sync(b2, f.value.id, (f.value.details.x, f.value.details.y), (f.value.details.width, f.value.details.height), true)
      else Sync(b2, current, lastPos, lastSize, false)
  }

  /**
   * A note with an ID the shell answers for takes that geometry and is
   * `updated` exactly when its position moved; otherwise it takes the first
   * free fitting window, if any, with its geometry. An ID held by another note
   * is never taken, and a note left alone keeps its position.
   */
  lemma SyncStepProps(b: Bus, shell: Shell, ws: seq<WindowInfo>, claimed: set<WindowId>,
                      current: WindowId, lastPos: Point, lastSize: Point, gtkSize: Point)
    ensures var r := SyncStep(b, shell, ws, claimed, current, lastPos, lastSize, gtkSize);
      && (r.id == current || r.id !in claimed)
      && (!r.updated ==> r.id == current && r.pos == lastPos)
      && (current != 0 && DetailsStep(b, shell, current).1.Found? ==>
            var d := DetailsStep(b, shell, current).1.details;
            r.id == current && r.pos == (d.x, d.y) && r.size == (d.width, d.height) && (r.updated <==> r.pos != lastPos))
      && (current == 0 || !DetailsStep(b, shell, current).1.Found? ==>
            var b1 := if current != 0 then DetailsStep(b, shell, current).0 else b;
            var f := FirstFit(b1, shell, ws, claimed, gtkSize).1;
            (r.updated <==> f.Some?) &&
            (f.Some? ==> r.id == f.value.id && r.pos == (f.value.details.x, f.value.details.y)
                         && r.size == (f.value.details.width, f.value.details.height)))
  {
    var (b1, l) := if current != 0 then DetailsStep(b, shell, current) else (b, NoDetails);
    if !(current != 0 && l.Found?) && FirstFit(b1, shell, ws, claimed, gtkSize).1.Some? {
      FirstFitIsFirstFree(b1, shell, ws, claimed, gtkSize);
    }
  }

  /**
   * `onConfigure` with the extension available: a first-fit match with no
   * claimed IDs when there is no ID yet, then the ID's details. `None` as the
   * geometry means falling back to GTK.
   */
  function ConfigureStep(b: Bus, shell: Shell, pid: int, current: WindowId, size: Point): (Bus, WindowId, Option<(Point, Point)>)
  {
    if !Available(b) then (b, current, None)
    else
      var (b1, id) := MatchFirstFit(b, shell, pid, current, {}, size);
      var (b2, g) := ShellGeometry(b1, shell, id);
      (b2, id, g)
  }

  /**
   * `onConfigure` keeps an assigned ID; an ID it matches is a window of this
   * process the shell says fits, whoever holds it; GTK is the fallback
   * whenever the extension is off.
   */
  lemma ConfigureStepProps(b: Bus, shell: Shell, pid: int, current: WindowId, size: Point)
    ensures var r := ConfigureStep(b, shell, pid, current, size);
      && (current != 0 ==> r.1 == current)
      && (!Available(b) ==> r == (b, current, None))
      && (r.1 != current ==>
            FitsIn(shell, r.1, size) &&
            exists w :: w in shell.list.decoded.windows && w.id == r.1 && w.pid == pid)
  {
    if Available(b) && current == 0 {
      var (bp, r) := ProcessWindows(b, shell, pid);
      if r.Some? && FirstFit(bp, shell, r.value, {}, size).1.Some? {
        FirstFitIsListed(bp, shell, r.value, {}, size);
        var f := FirstFit(bp, shell, r.value, {}, size).1.value;
        var w :| w in r.value && w.id == f.id;
        OwnWindowsMembers(ListStep(b, shell).1.windows, pid);
      }
    }
  }
}
