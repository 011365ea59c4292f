/** The window manager of kernel/gui/wm.c: what the screen should show, how the painter
    gets there, and why it may repaint the dirty rectangle only. */
module Wm {
  import opened Common

  const WINDOWS: nat := 8         // WM_MAX_WINDOWS
  const CURSOR: nat := 8          // the cursor is 8 by 8

  type Color = nat

  const DESKTOP: Color := 0xff16_2236
  const FOCUSED: Color := 0xff3b_4d63
  const UNFOCUSED: Color := 0xff24_2a33
  const WHITE: Color := 0xffff_ffff

  datatype Rect = Rect(x0: int, y0: int, x1: int, y1: int) {
    predicate Has(x: int, y: int) { x0 <= x < x1 && y0 <= y < y1 }
    predicate Inside(r: Rect) { r.x0 <= x0 && r.y0 <= y0 && x1 <= r.x1 && y1 <= r.y1 }
    /** The part on a screen of this size. */
    function Clipped(width: int, height: int): Rect {
      Rect(if x0 < 0 then 0 else x0, if y0 < 0 then 0 else y0, if x1 > width then width else x1,
           if y1 > height then height else y1)
    }
  }

  /** An image as rows of opaque pixels. */
  datatype Image = Image(rows: seq<seq<Color>>) {
    predicate Has(x: int, y: int) { 0 <= y < |rows| && 0 <= x < |rows[y]| }
  }

  datatype Window = Window(used: bool, id: nat, visible: bool, focusable: bool, x: int, y: int, w: int, h: int, z: nat,
                           image: Option<Image>)
  {
    predicate Shown() { used && visible }
    function Area(): Rect { Rect(x, y, x + w, y + h) }
    predicate Covers(px: int, py: int) { Shown() && Area().Has(px, py) }
    /** The color of the window at a pixel it covers: its image there, or its body. */
    function At(px: int, py: int, focus: nat): Color {
      if image.Some? && image.value.Has(px - x, py - y) then image.value.rows[py - y][px - x]
      else if id == focus then FOCUSED else UNFOCUSED
    }
  }

  /** Everything a picture of the screen depends on. */
  datatype Scene = Scene(windows: seq<Window>, focus: nat, cursorX: int, cursorY: int) {
    function Cursor(): Rect { Rect(cursorX, cursorY, cursorX + 8, cursorY + 8) }
  }

  /** Window k is the topmost one at the pixel. */
  ghost predicate TopAt(ws: seq<Window>, x: int, y: int, k: nat) {
    && k < |ws| && ws[k].Covers(x, y)
    && forall j | 0 <= j < |ws| && ws[j].Covers(x, y) && j != k :: ws[j].z < ws[k].z
  }

  ghost predicate SomeTop(ws: seq<Window>, x: int, y: int) { exists k: nat :: TopAt(ws, x, y, k) }

  /** What a full repaint shows at the pixel. */
  ghost function Picture(s: Scene, x: int, y: int): Color {
    if s.Cursor().Has(x, y) then WHITE else Below(s, x, y)
  }

  ghost function Below(s: Scene, x: int, y: int): Color {
    if SomeTop(s.windows, x, y) then
      var k: nat :| TopAt(s.windows, x, y, k);
      s.windows[k].At(x, y, s.focus)
    else DESKTOP
  }

  /** Windows in use are visible and focusable, and have different ids and different z,
      both below the next ones. */
  ghost predicate WindowsOk(ws: seq<Window>, nextId: nat, nextZ: nat) {
    && |ws| == WINDOWS
    && (forall i | 0 <= i < |ws| && ws[i].used ::
          0 < ws[i].id < nextId && ws[i].z < nextZ && ws[i].visible && ws[i].focusable)
    && (forall i, j | 0 <= i < |ws| && 0 <= j < |ws| && i != j && ws[i].used && ws[j].used ::
          ws[i].id != ws[j].id && ws[i].z != ws[j].z)
  }

  lemma BelowIs(s: Scene, x: int, y: int, k: nat)
    requires TopAt(s.windows, x, y, k)
    ensures Below(s, x, y) == s.windows[k].At(x, y, s.focus)
  {
    forall j: nat | TopAt(s.windows, x, y, j) ensures j == k {}
  }

  // ---------------------------------------------------------------------
  // Hit testing.

  /** wm_top_at with nothing to ignore; |ws| stands for NULL. */
  method FindTopAt(ws: seq<Window>, x: int, y: int) returns (best: nat)
    requires forall i, j | 0 <= i < |ws| && 0 <= j < |ws| && i != j && ws[i].used && ws[j].used :: ws[i].z != ws[j].z
    ensures best <= |ws| && (best < |ws| ==> TopAt(ws, x, y, best)) && (best == |ws| ==> !SomeTop(ws, x, y))
    ensures best == |ws| ==> forall j | 0 <= j < |ws| :: !ws[j].Covers(x, y)
  {
    best := |ws|;
    var bestZ: int := -1;
    var i := 0;
    while i < |ws|
      invariant 0 <= i <= |ws| && best <= |ws|
      invariant best == |ws| ==> bestZ == -1 && forall j | 0 <= j < i :: !ws[j].Covers(x, y)
      invariant best < |ws| ==> best < i && ws[best].Covers(x, y) && bestZ == ws[best].z
      invariant best < |ws| ==> forall j | 0 <= j < i && ws[j].Covers(x, y) && j != best :: ws[j].z < ws[best].z
    {
      var w := ws[i];
      if w.used && w.visible && !(x < w.x || y < w.y || x >= w.x + w.w || y >= w.y + w.h) {
        if w.z > bestZ {
          best := i;
          bestZ := w.z;
        }
      }
      i := i + 1;
    }
  }

  // ---------------------------------------------------------------------
  // Sorting by z.

  /** order lists each window in use (or shown) once, lowest z first. */
  ghost predicate SortedBy(ws: seq<Window>, order: seq<nat>, n: nat) {
    && (forall i | 0 <= i < |order| :: order[i] < |ws|)
    && n <= |order|
    && (forall i, j | 0 <= i < j < |order| && i < n :: ws[order[i]].z < ws[order[j]].z)
  }

  ghost predicate Lists(ws: seq<Window>, order: seq<nat>, shownOnly: bool) {
    && (forall i | 0 <= i < |order| :: order[i] < |ws| && Listed(ws[order[i]], shownOnly))
    && (forall i, j | 0 <= i < j < |order| :: order[i] != order[j])
    && (forall k | 0 <= k < |ws| && Listed(ws[k], shownOnly) :: k in order)
  }

  predicate Listed(w: Window, shownOnly: bool) { if shownOnly then w.Shown() else w.used }

  /** The selection sort of wm_repack_z and wm_render_gpu. */
  method SortByZ(ws: seq<Window>, shownOnly: bool) returns (order: seq<nat>)
    requires forall i, j | 0 <= i < |ws| && 0 <= j < |ws| && i != j && ws[i].used && ws[j].used :: ws[i].z != ws[j].z
    ensures Lists(ws, order, shownOnly) && SortedBy(ws, order, |order|)
  {
    order := [];
    var i := 0;
    while i < |ws|
      invariant 0 <= i <= |ws|
      invariant forall j | 0 <= j < |order| :: order[j] < i && Listed(ws[order[j]], shownOnly)
      invariant forall j, l | 0 <= j < l < |order| :: order[j] != order[l]
      invariant forall k | 0 <= k < i && Listed(ws[k], shownOnly) :: k in order
    {
      if Listed(ws[i], shownOnly) {
        order := order + [i];
      }
      i := i + 1;
    }
    i := 0;
    while i < |order|
      invariant 0 <= i <= |order| && Lists(ws, order, shownOnly) && SortedBy(ws, order, i)
    {
      var best := i;
      var j := i + 1;
      while j < |order|
        invariant i < j <= |order| && i <= best < |order|
        invariant forall l | i <= l < j && l != best :: ws[order[best]].z < ws[order[l]].z
      {
        if ws[order[j]].z < ws[order[best]].z {
          best := j;
        }
        j := j + 1;
      }
      SwapLists(ws, order, i, best, shownOnly);
      order := order[i := order[best]][best := order[i]];
      i := i + 1;
    }
  }

  /** Where entry l of a list with entries i and j swapped came from. */
  function Swapped(i: nat, j: nat, l: nat): nat { if l == i then j else if l == j then i else l }

  lemma SwapSame(ws: seq<Window>, order: seq<nat>, t: seq<nat>, i: nat, best: nat, shownOnly: bool)
    requires Lists(ws, order, shownOnly) && i < |order| && best < |order| && |t| == |order|
    requires forall l | 0 <= l < |order| :: t[l] == order[Swapped(i, best, l)]
    ensures Lists(ws, t, shownOnly)
  {
    forall j, k | 0 <= j < k < |t| ensures t[j] != t[k] {
      var a, b := Swapped(i, best, j), Swapped(i, best, k);
      assert if a < b then order[a] != order[b] else order[b] != order[a];
    }
    forall k | 0 <= k < |ws| && Listed(ws[k], shownOnly) ensures k in t {
      var l :| 0 <= l < |order| && order[l] == k;
      assert t[Swapped(i, best, l)] == k;
    }
  }

  lemma SwapSorted(ws: seq<Window>, order: seq<nat>, t: seq<nat>, i: nat, best: nat)
    requires SortedBy(ws, order, i) && i <= best < |order| && |t| == |order|
    requires forall l | 0 <= l < |order| :: t[l] == order[Swapped(i, best, l)]
    requires forall l | i <= l < |order| && l != best :: ws[order[best]].z < ws[order[l]].z
    ensures SortedBy(ws, t, i + 1)
  {}

  lemma SwapLists(ws: seq<Window>, order: seq<nat>, i: nat, best: nat, shownOnly: bool)
    requires Lists(ws, order, shownOnly) && SortedBy(ws, order, i) && i <= best < |order|
    requires forall l | i <= l < |order| && l != best :: ws[order[best]].z < ws[order[l]].z
    ensures var t := order[i := order[best]][best := order[i]];
            Lists(ws, t, shownOnly) && SortedBy(ws, t, i + 1)
  {
    hide Lists;
    var t := order[i := order[best]][best := order[i]];
    SwapSame(ws, order, t, i, best, shownOnly);
    SwapSorted(ws, order, t, i, best);
  }

  // ---------------------------------------------------------------------
  // Painting.

  /** The pixel after the first n windows of the order are painted over the desktop. */
  function Layers(ws: seq<Window>, order: seq<nat>, n: nat, focus: nat, x: int, y: int): Color
    requires n <= |order| && forall i | 0 <= i < |order| :: order[i] < |ws|
  {
    if n == 0 then DESKTOP
    else if ws[order[n - 1]].Covers(x, y) then ws[order[n - 1]].At(x, y, focus)
    else Layers(ws, order, n - 1, focus, x, y)
  }

  lemma {:induction false} NoLayer(ws: seq<Window>, order: seq<nat>, n: nat, focus: nat, x: int, y: int)
    requires n <= |order| && forall i | 0 <= i < |order| :: order[i] < |ws|
    requires forall i | 0 <= i < n :: !ws[order[i]].Covers(x, y)
    ensures Layers(ws, order, n, focus, x, y) == DESKTOP
  {
    if n > 0 { NoLayer(ws, order, n - 1, focus, x, y); }
  }

  lemma {:induction false} LastLayer(ws: seq<Window>, order: seq<nat>, n: nat, focus: nat, x: int, y: int, i: nat)
    requires i < n <= |order| && forall i | 0 <= i < |order| :: order[i] < |ws|
    requires ws[order[i]].Covers(x, y) && forall j | i < j < n :: !ws[order[j]].Covers(x, y)
    ensures Layers(ws, order, n, focus, x, y) == ws[order[i]].At(x, y, focus)
  {
    if i < n - 1 { LastLayer(ws, order, n - 1, focus, x, y, i); }
  }

  /** The last window the painter puts over a pixel is the one wm_top_at finds there. */
  lemma PainterAgreesWithTop(s: Scene, order: seq<nat>, x: int, y: int)
    requires Lists(s.windows, order, true) && SortedBy(s.windows, order, |order|)
    ensures Layers(s.windows, order, |order|, s.focus, x, y) == Below(s, x, y)
  {
    hide Layers, Window.At;
    if i :| 0 <= i < |order| && s.windows[order[i]].Covers(x, y) {
      var j := LastCovering(s.windows, order, |order|, x, y, i);
      LastLayer(s.windows, order, |order|, s.focus, x, y, j);
      OnTop(s.windows, order, j, x, y);
      BelowIs(s, x, y, order[j]);
    } else {
      NoLayer(s.windows, order, |order|, s.focus, x, y);
      NothingOnTop(s.windows, order, x, y);
    }
  }

  lemma NothingOnTop(ws: seq<Window>, order: seq<nat>, x: int, y: int)
    requires Lists(ws, order, true) && forall i | 0 <= i < |order| :: !ws[order[i]].Covers(x, y)
    ensures !SomeTop(ws, x, y)
  {
    forall k: nat ensures !TopAt(ws, x, y, k) {
      if k < |ws| && Listed(ws[k], true) { assert k in order; }
    }
  }

  lemma {:induction false} LastCovering(ws: seq<Window>, order: seq<nat>, n: nat, x: int, y: int, i: nat)
    returns (j: nat)
    requires i < n <= |order| && (forall l | 0 <= l < |order| :: order[l] < |ws|) && ws[order[i]].Covers(x, y)
    ensures j < n && ws[order[j]].Covers(x, y) && forall l | j < l < n :: !ws[order[l]].Covers(x, y)
  {
    if ws[order[n - 1]].Covers(x, y) {
      j := n - 1;
    } else {
      j := LastCovering(ws, order, n - 1, x, y, i);
    }
  }

  lemma OnTop(ws: seq<Window>, order: seq<nat>, j: nat, x: int, y: int)
    requires Lists(ws, order, true) && SortedBy(ws, order, |order|) && j < |order|
    requires ws[order[j]].Covers(x, y) && forall l | j < l < |order| :: !ws[order[l]].Covers(x, y)
    ensures TopAt(ws, x, y, order[j])
  {
    forall k | 0 <= k < |ws| && ws[k].Covers(x, y) && k != order[j] ensures ws[k].z < ws[order[j]].z {
      assert Listed(ws[k], true) && k in order;
      var l :| 0 <= l < |order| && order[l] == k;
    }
  }

  /** The screen: a back buffer and the rectangle the painter may touch. */
  class Screen {
    const fb: array2<Color>

    constructor (w: nat, h: nat)
      ensures fb.Length0 == h && fb.Length1 == w && fresh(fb)
    {
      fb := new Color[h, w]((i, j) => 0);
    }

    /** wm_gpu_fill_rect: exactly the pixels of the rectangle, the clip and the screen. */
    method FillRect(x: int, y: int, w: int, h: int, color: Color, clip: Rect)
      modifies fb
      ensures forall py, px | 0 <= py < fb.Length0 && 0 <= px < fb.Length1 ::
                fb[py, px] == if Rect(x, y, x + w, y + h).Has(px, py) && clip.Has(px, py) then color
                              else old(fb[py, px])
    {
      var yy := y;
      while yy < y + h
        invariant yy <= y + h || yy == y
        invariant y <= yy
        invariant forall py, px | 0 <= py < fb.Length0 && 0 <= px < fb.Length1 ::
                    fb[py, px] == if Rect(x, y, x + w, yy).Has(px, py) && clip.Has(px, py) then color
                                  else old(fb[py, px])
      {
        if 0 <= yy < fb.Length0 {
          FillRow(x, yy, w, color, clip);
        }
        yy := yy + 1;
      }
    }

    /** One row of it. */
    method FillRow(x: int, yy: int, w: int, color: Color, clip: Rect)
      requires 0 <= yy < fb.Length0
      modifies fb
      ensures forall py, px | 0 <= py < fb.Length0 && 0 <= px < fb.Length1 ::
                fb[py, px] == if py == yy && x <= px < x + w && clip.Has(px, py) then color else old(fb[py, px])
    {
      var xx := x;
      while xx < x + w
        invariant x <= xx && (xx <= x + w || xx == x)
        invariant forall py, px | 0 <= py < fb.Length0 && 0 <= px < fb.Length1 ::
                    fb[py, px] == if py == yy && x <= px < xx && clip.Has(px, py) then color else old(fb[py, px])
      {
        if 0 <= xx < fb.Length1 && clip.Has(xx, yy) {
          fb[yy, xx] := color;
        }
        xx := xx + 1;
      }
    }

    /** The part of the image that fits the window, row by row. */
    method Blit(win: Window, clip: Rect)
      requires win.image.Some?
      modifies fb
      ensures forall py, px | 0 <= py < fb.Length0 && 0 <= px < fb.Length1 ::
                fb[py, px] == if win.Area().Has(px, py) && win.image.value.Has(px - win.x, py - win.y)
                                 && clip.Has(px, py)
                              then win.image.value.rows[py - win.y][px - win.x] else old(fb[py, px])
    {
      var rows := win.image.value.rows;
      var yy := 0;
      while yy < |rows| && yy < win.h
        invariant 0 <= yy <= |rows|
        invariant forall py, px | 0 <= py < fb.Length0 && 0 <= px < fb.Length1 ::
                    fb[py, px] == if py < win.y + yy && win.Area().Has(px, py)
                                     && win.image.value.Has(px - win.x, py - win.y)
                                     && clip.Has(px, py)
                                  then win.image.value.rows[py - win.y][px - win.x] else old(fb[py, px])
      {
        BlitRow(win, yy, clip);
        yy := yy + 1;
      }
    }

    method BlitRow(win: Window, yy: nat, clip: Rect)
      requires win.image.Some? && yy < |win.image.value.rows| && yy < win.h
      modifies fb
      ensures forall py, px | 0 <= py < fb.Length0 && 0 <= px < fb.Length1 ::
                fb[py, px] == if py == win.y + yy && win.x <= px < win.x + win.w
                                 && px - win.x < |win.image.value.rows[yy]|
                                 && clip.Has(px, py)
                              then win.image.value.rows[yy][px - win.x] else old(fb[py, px])
    {
      var row := win.image.value.rows[yy];
      var xx := 0;
      while xx < |row| && xx < win.w
        invariant 0 <= xx <= |row|
        invariant forall py, px | 0 <= py < fb.Length0 && 0 <= px < fb.Length1 ::
                    fb[py, px] == if py == win.y + yy && win.x <= px < win.x + xx && px < win.x + win.w
                                     && clip.Has(px, py)
                                  then row[px - win.x] else old(fb[py, px])
      {
        var dx, dy := win.x + xx, win.y + yy;
        if 0 <= dx < fb.Length1 && 0 <= dy < fb.Length0 {
          if clip.Has(dx, dy) {
            fb[dy, dx] := row[xx];
          }
        }
        xx := xx + 1;
      }
    }

    /** The desktop, the windows from the lowest to the highest, and the cursor, all
        inside the clip; nothing outside it. */
    method Paint(s: Scene, clip: Rect)
      requires forall i, j | 0 <= i < |s.windows| && 0 <= j < |s.windows| && i != j
                             && s.windows[i].used && s.windows[j].used ::
                 s.windows[i].z != s.windows[j].z
      modifies fb
      ensures forall py, px | 0 <= py < fb.Length0 && 0 <= px < fb.Length1 ::
                fb[py, px] == if clip.Has(px, py) then Picture(s, px, py) else old(fb[py, px])
    {
      FillRect(0, 0, fb.Length1, fb.Length0, DESKTOP, clip);
      var order := SortByZ(s.windows, true);
      var i := 0;
      while i < |order|
        invariant 0 <= i <= |order|
        invariant forall py, px | 0 <= py < fb.Length0 && 0 <= px < fb.Length1 ::
                    fb[py, px] == if clip.Has(px, py) then Layers(s.windows, order, i, s.focus, px, py)
                                  else old(fb[py, px])
      {
        PaintWindow(s.windows[order[i]], s.focus, clip);
        i := i + 1;
      }
      forall py, px | 0 <= py < fb.Length0 && 0 <= px < fb.Length1
        ensures Layers(s.windows, order, |order|, s.focus, px, py) == Below(s, px, py)
      {
        PainterAgreesWithTop(s, order, px, py);
      }
      FillRect(s.cursorX, s.cursorY, CURSOR, CURSOR, WHITE, clip);
    }

    method PaintWindow(win: Window, focus: nat, clip: Rect)
      requires win.Shown()
      modifies fb
      ensures forall py, px | 0 <= py < fb.Length0 && 0 <= px < fb.Length1 ::
                fb[py, px] == if win.Covers(px, py) && clip.Has(px, py) then win.At(px, py, focus) else old(fb[py, px])
    {
      FillRect(win.x, win.y, win.w, win.h, if win.id == focus then FOCUSED else UNFOCUSED, clip);
      if win.image.Some? {
        Blit(win, clip);
      }
    }
  }

  // ---------------------------------------------------------------------
  // What a change leaves as it was.

  lemma SameTops(s: Scene, s': Scene, x: int, y: int)
    requires |s'.windows| == |s.windows|
    requires forall k: nat :: TopAt(s'.windows, x, y, k) == TopAt(s.windows, x, y, k)
    requires forall k: nat | TopAt(s.windows, x, y, k) ::
               s'.windows[k].At(x, y, s'.focus) == s.windows[k].At(x, y, s.focus)
    ensures Below(s', x, y) == Below(s, x, y)
  {
    if k: nat :| TopAt(s.windows, x, y, k) {
      BelowIs(s, x, y, k);
      BelowIs(s', x, y, k);
    }
  }

  /** A window changes: pixels it covers neither before nor after look the same. */
  lemma OneWindowChanges(s: Scene, k: nat, w: Window, x: int, y: int)
    requires k < |s.windows| && !s.windows[k].Covers(x, y) && !w.Covers(x, y)
    ensures Picture(s.(windows := s.windows[k := w]), x, y) == Picture(s, x, y)
  {
    var s' := s.(windows := s.windows[k := w]);
    forall i | 0 <= i < |s.windows| ensures s'.windows[i].Covers(x, y) == s.windows[i].Covers(x, y) {}
    forall j: nat ensures TopAt(s'.windows, x, y, j) == TopAt(s.windows, x, y, j) {
      if TopAt(s.windows, x, y, j) { assert j != k; }
      if TopAt(s'.windows, x, y, j) { assert j != k; }
    }
    SameTops(s, s', x, y);
  }

  /** The focus moves: pixels of neither window look the same. */
  lemma FocusChanges(s: Scene, focus: nat, x: int, y: int)
    requires forall k | 0 <= k < |s.windows| && s.windows[k].Covers(x, y) ::
               s.windows[k].id != focus && s.windows[k].id != s.focus
    ensures Picture(s.(focus := focus), x, y) == Picture(s, x, y)
  {
    SameTops(s, s.(focus := focus), x, y);
  }

  /** Only the order of the z matters. */
  lemma OnlyOrderMatters(s: Scene, ws: seq<Window>, x: int, y: int)
    requires |ws| == |s.windows|
    requires forall i | 0 <= i < |ws| :: ws[i] == s.windows[i].(z := ws[i].z)
    requires forall i, j | 0 <= i < |ws| && 0 <= j < |ws| && ws[i].used && ws[j].used ::
               ws[i].z < ws[j].z <==> s.windows[i].z < s.windows[j].z
    ensures Picture(s.(windows := ws), x, y) == Picture(s, x, y)
  {
    SameTops(s, s.(windows := ws), x, y);
  }

  /** Window k shares the pixel with a window above it that looks different there. */
  ghost predicate HiddenBelow(s: Scene, k: nat, x: int, y: int)
    requires k < |s.windows|
  {
    && !s.Cursor().Has(x, y) && s.windows[k].Covers(x, y)
    && exists j: nat :: TopAt(s.windows, x, y, j) && j != k
                        && s.windows[j].At(x, y, s.focus) != s.windows[k].At(x, y, s.focus)
  }

  ghost predicate ZApart(ws: seq<Window>) {
    forall i, j | 0 <= i < |ws| && 0 <= j < |ws| && i != j && ws[i].used && ws[j].used :: ws[i].z != ws[j].z
  }

  /** Raising a window to the top changes exactly the pixels where it was hidden. */
  lemma RaiseChanges(s: Scene, k: nat, z: nat, x: int, y: int)
    requires k < |s.windows| && ZApart(s.windows) && forall i | 0 <= i < |s.windows| && s.windows[i].used ::
               s.windows[i].z < z
    ensures Picture(s.(windows := s.windows[k := s.windows[k].(z := z)]), x, y) != Picture(s, x, y) <==>
              HiddenBelow(s, k, x, y)
  {
    var s' := s.(windows := s.windows[k := s.windows[k].(z := z)]);
    if s.windows[k].Covers(x, y) {
      assert TopAt(s'.windows, x, y, k);
      BelowIs(s', x, y, k);
      var t := FindTop(s.windows, x, y, k);
      BelowIs(s, x, y, t);
      forall j: nat | TopAt(s.windows, x, y, j) ensures j == t {}
    } else {
      OneWindowChanges(s, k, s.windows[k].(z := z), x, y);
    }
  }

  /** The image of window k is what the pixel shows, and it is not just the body color. */
  ghost predicate ImageSeen(s: Scene, k: nat, x: int, y: int)
    requires k < |s.windows|
  {
    && !s.Cursor().Has(x, y) && TopAt(s.windows, x, y, k)
    && s.windows[k].At(x, y, s.focus) != s.windows[k].(image := None).At(x, y, s.focus)
  }

  /** Taking the image away changes exactly the pixels where it was seen. */
  lemma FreeImageChanges(s: Scene, k: nat, x: int, y: int)
    requires k < |s.windows|
    ensures Picture(s.(windows := s.windows[k := s.windows[k].(image := None)]), x, y) != Picture(s, x, y) <==>
              ImageSeen(s, k, x, y)
  {
    var s' := s.(windows := s.windows[k := s.windows[k].(image := None)]);
    forall i | 0 <= i < |s.windows| ensures s'.windows[i].Covers(x, y) == s.windows[i].Covers(x, y) {}
    forall j: nat ensures TopAt(s'.windows, x, y, j) == TopAt(s.windows, x, y, j) {}
    if TopAt(s.windows, x, y, k) {
      BelowIs(s, x, y, k);
      BelowIs(s', x, y, k);
    } else {
      SameTops(s, s', x, y);
    }
  }

  lemma FindTop(ws: seq<Window>, x: int, y: int, k: nat) returns (t: nat)
    requires k < |ws| && ws[k].Covers(x, y) && ZApart(ws)
    ensures TopAt(ws, x, y, t)
  {
    t := k;
    var i := 0;
    while i < |ws|
      invariant 0 <= i <= |ws| && t < |ws| && ws[t].Covers(x, y)
      invariant forall j | 0 <= j < i && ws[j].Covers(x, y) && j != t :: ws[j].z < ws[t].z
    {
      if ws[i].Covers(x, y) && ws[i].z > ws[t].z {
        t := i;
      }
      i := i + 1;
    }
  }

  /** wm_focus of the focused window raises it and marks nothing: here a pixel changes. */
  lemma FocusAgainMayShow()
    ensures var low := Window(true, 1, true, true, 0, 0, 100, 100, 1, None);
            var high := Window(true, 2, true, true, 0, 0, 100, 100, 2, None);
            var s := Scene([low, high], 1, 500, 500);
            Picture(s.(windows := [low.(z := 3), high]), 5, 5) != Picture(s, 5, 5)
  {
    var low := Window(true, 1, true, true, 0, 0, 100, 100, 1, None);
    var high := Window(true, 2, true, true, 0, 0, 100, 100, 2, None);
    var s := Scene([low, high], 1, 500, 500);
    var s' := s.(windows := [low.(z := 3), high]);
    assert TopAt(s.windows, 5, 5, 1) && TopAt(s'.windows, 5, 5, 0);
    BelowIs(s, 5, 5, 1);
    BelowIs(s', 5, 5, 0);
  }

  /** wm_set_image without pixels marks nothing: here a pixel changes. */
  lemma FreeImageMayShow()
    ensures var win := Window(true, 1, true, true, 0, 0, 100, 100, 1, Some(Image([[WHITE]])));
            var s := Scene([win], 1, 500, 500);
            Picture(s.(windows := [win.(image := None)]), 0, 0) != Picture(s, 0, 0)
  {
    var win := Window(true, 1, true, true, 0, 0, 100, 100, 1, Some(Image([[WHITE]])));
    var s := Scene([win], 1, 500, 500);
    assert TopAt(s.windows, 0, 0, 0) && ImageSeen(s, 0, 0, 0);
    assert s.windows[0 := win.(image := None)] == [win.(image := None)];
    FreeImageChanges(s, 0, 0, 0);
  }

  // ---------------------------------------------------------------------
  // The operations.

  /** The window with this id, in slot k, became w, and no other changed. */
  ghost predicate IsChanged(ws: seq<Window>, ws': seq<Window>, id: nat, k: nat, w: Window) {
    k < |ws| && ws[k].used && ws[k].id == id && ws' == ws[k := w]
  }

  /** A window that can fit the usable screen lies on it. */
  predicate OnScreen(win: Window, width: int, height: int) {
    && (win.w <= width ==> 0 <= win.x && win.x + win.w <= width)
    && (win.h <= height ==> 0 <= win.y && win.y + win.h <= height)
  }

  /** What programs and the user do, and repaints. */
  datatype Action =
    | OpenWindow(w: int, h: int)
    | MoveWindow(id: nat, x: int, y: int)
    | ResizeWindow(id: nat, w: int, h: int)
    | ShowImage(id: nat, image: Image)
    | HideImage(id: nat)
    | CloseWindow(id: nat)
    | ChangeFocus(id: nat)
    | FocusAgain
    | LeftClick
    | PointAt(dx: int, dy: int)
    | Repaint

  /** The two that may change the picture and mark nothing. */
  predicate MarksNothing(a: Action) { a.HideImage? || a.FocusAgain? }

  /** The pixels at which the image of window k is seen. */
  ghost function ImagePixels(s: Scene, k: nat, width: nat, height: nat): set<(int, int)>
    requires k < |s.windows|
  {
    set x: int, y: int | 0 <= x < width && 0 <= y < height && ImageSeen(s, k, x, y) :: (x, y)
  }

  /** The pixels at which window k is hidden by one that looks different. */
  ghost function HiddenPixels(s: Scene, k: nat, width: nat, height: nat): set<(int, int)>
    requires k < |s.windows|
  {
    set x: int, y: int | 0 <= x < width && 0 <= y < height && HiddenBelow(s, k, x, y) :: (x, y)
  }

  class WindowManager {
    const screen: Screen
    const width: nat
    const height: nat
    var windows: seq<Window>
    var nextId: nat
    var nextZ: nat
    var focusId: nat
    var cursorX: int
    var cursorY: int
    var dirty: Option<Rect>
    ghost var stale: set<(int, int)>  // pixels changed without being marked, until painted

    ghost function Now(): Scene
      reads this`windows, this`focusId, this`cursorX, this`cursorY
    {
      Scene(windows, focusId, cursorX, cursorY)
    }

    ghost predicate Valid()
      reads this`windows, this`nextId, this`nextZ
    {
      WindowsOk(windows, nextId, nextZ) && nextId > 0 && screen.fb.Length0 == height && screen.fb.Length1 == width
    }

    predicate Dirty(x: int, y: int)
      reads this`dirty
    {
      dirty.Some? && dirty.value.Has(x, y)
    }

    ghost function NotDirty(pixels: set<(int, int)>): set<(int, int)>
      reads this`dirty
    {
      set p | p in pixels && !Dirty(p.0, p.1)
    }

    /** Outside the dirty rectangle the back buffer shows the full picture, but for pixels
        that an action changed without marking them. */
    ghost predicate Shows()
      reads this`windows, this`focusId, this`cursorX, this`cursorY, this`dirty, this`stale, screen.fb
      requires screen.fb.Length0 == height && screen.fb.Length1 == width
    {
      forall y, x | 0 <= y < height && 0 <= x < width && !Dirty(x, y) && (x, y) !in stale ::
        screen.fb[y, x] == Picture(Now(), x, y)
    }

    /** The pixels that have become stale show something wrong. */
    twostate predicate NewlyWrong()
      reads this`windows, this`focusId, this`cursorX, this`cursorY, this`stale, screen.fb
      requires screen.fb.Length0 == height && screen.fb.Length1 == width
    {
      forall y, x | 0 <= y < height && 0 <= x < width && (x, y) in stale && (x, y) !in old(stale) ::
        screen.fb[y, x] != Picture(Now(), x, y)
    }

    /** wm_init, with a GPU. */
    constructor (w: nat, h: nat)
      ensures Valid() && Shows() && stale == {}
    {
      width, height := w, h;
      screen := new Screen(w, h);
      windows := seq(WINDOWS, _ => Window(false, 0, false, false, 0, 0, 0, 0, 0, None));
      nextId, nextZ, focusId := 1, 1, 0;
      cursorX, cursorY := w / 2, (if h - 28 > 1 then h - 28 else 1) / 2;
      dirty := Some(Rect(0, 0, w, h));
      stale := {};
    }

    function UsableHeight(): int { if height - 28 > 1 then height - 28 else 1 }

    /** wm_mark_dirty_rect: what was dirty stays so, the part of the rectangle on the screen
        becomes so, and the dirty rectangle is the smallest that holds both. */
    method MarkRect(x: int, y: int, w: int, h: int)
      modifies this`dirty
      ensures forall py, px | 0 <= py < height && 0 <= px < width && Rect(x, y, x + w, y + h).Has(px, py) ::
                Dirty(px, py)
      ensures forall py, px | old(Dirty(px, py)) :: Dirty(px, py)
      ensures forall r: Rect | Rect(x, y, x + w, y + h).Clipped(width, height).Inside(r)
                                && (old(dirty).Some? ==> old(dirty).value.Inside(r)) ::
                dirty.Some? ==> dirty.value.Inside(r)
    {
      if w <= 0 || h <= 0 {
        return;
      }
      var x0, y0, x1, y1 := x, y, x + w, y + h;
      if x1 <= 0 || y1 <= 0 || x0 >= width || y0 >= height {
        return;
      }
      if x0 < 0 { x0 := 0; }
      if y0 < 0 { y0 := 0; }
      if x1 > width { x1 := width; }
      if y1 > height { y1 := height; }
      if x0 >= x1 || y0 >= y1 {
        return;
      }
      Extend(Rect(x0, y0, x1, y1));
    }

    /** The dirty rectangle becomes the smallest that holds it and r. */
    method Extend(r: Rect)
      modifies this`dirty
      ensures dirty.Some? && r.Inside(dirty.value) && (old(dirty).Some? ==> old(dirty).value.Inside(dirty.value))
      ensures forall q: Rect | r.Inside(q) && (old(dirty).Some? ==> old(dirty).value.Inside(q)) :: dirty.value.Inside(q)
    {
      if dirty.None? {
        dirty := Some(r);
        return;
      }
      var d := dirty.value;
      if r.x0 < d.x0 { d := d.(x0 := r.x0); }
      if r.y0 < d.y0 { d := d.(y0 := r.y0); }
      if r.x1 > d.x1 { d := d.(x1 := r.x1); }
      if r.y1 > d.y1 { d := d.(y1 := r.y1); }
      dirty := Some(d);
    }

    /** wm_mark_dirty_window: the window and a margin of four pixels. */
    method MarkWindow(win: Window)
      modifies this`dirty
      ensures forall py, px | 0 <= py < height && 0 <= px < width && win.Covers(px, py) :: Dirty(px, py)
      ensures forall py, px | old(Dirty(px, py)) :: Dirty(px, py)
    {
      if !win.used {
        return;
      }
      MarkRect(win.x - 4, win.y - 4, win.w + 8, win.h + 8);
    }

    method MarkTaskbar()
      modifies this`dirty
      ensures forall py, px | old(Dirty(px, py)) :: Dirty(px, py)
    {
      var y0 := UsableHeight();
      if y0 < 0 { y0 := 0; }
      MarkRect(0, y0, width, height - y0);
    }

    method MarkFull()
      modifies this`dirty
      ensures forall py, px | 0 <= py < height && 0 <= px < width :: Dirty(px, py)
    {
      dirty := Some(Rect(0, 0, width, height));
    }

    /** wm_find; WINDOWS stands for NULL. */
    method Find(id: nat) returns (k: nat)
      requires Valid()
      ensures k <= WINDOWS && (k < WINDOWS ==> windows[k].used && windows[k].id == id)
      ensures k == WINDOWS ==> forall i | 0 <= i < WINDOWS :: !(windows[i].used && windows[i].id == id)
    {
      k := 0;
      while k < WINDOWS
        invariant 0 <= k <= WINDOWS && forall i | 0 <= i < k :: !(windows[i].used && windows[i].id == id)
      {
        if windows[k].used && windows[k].id == id {
          return;
        }
        k := k + 1;
      }
    }

    /** Window k becomes w once both its old and its new place are dirty. */
    method Put(k: nat, w: Window)
      requires Valid() && Shows() && k < WINDOWS && (w.used ==> windows[k].used && w.visible && w.focusable)
      requires w.used ==> w.id == windows[k].id && w.z == windows[k].z
      requires forall y, x | 0 <= y < height && 0 <= x < width && (windows[k].Covers(x, y) || w.Covers(x, y)) ::
                 Dirty(x, y)
      modifies this`windows
      ensures Valid() && Shows() && windows == old(windows)[k := w]
    {
      hide Picture;
      ghost var s := Now();
      forall y, x | 0 <= y < height && 0 <= x < width && !Dirty(x, y)
        ensures Picture(s.(windows := windows[k := w]), x, y) == Picture(s, x, y)
      {
        OneWindowChanges(s, k, w, x, y);
      }
      windows := windows[k := w];
    }

    /** The first slot that is not in use. */
    method FreeSlot() returns (slot: nat)
      requires Valid()
      ensures slot <= WINDOWS && (slot < WINDOWS ==> !windows[slot].used)
      ensures forall i | 0 <= i < slot :: windows[i].used
    {
      slot := 0;
      while slot < WINDOWS && windows[slot].used
        invariant 0 <= slot <= WINDOWS && forall i | 0 <= i < slot :: windows[i].used
      {
        slot := slot + 1;
      }
    }

    /** wm_create. The remainders divide by zero for a window one pixel too wide or too
        high for the usable screen; the others of C and of Dafny agree here. */
    method Create(w: int, h: int) returns (id: int)
      requires Valid() && Shows() && w != width + 1 && h != UsableHeight() + 1
      modifies this`windows, this`nextId, this`nextZ, this`dirty
      ensures Valid() && Shows()
      ensures id == -1 <==> forall i | 0 <= i < WINDOWS :: old(windows)[i].used
      ensures id == -1 ==> windows == old(windows)
      ensures id != -1 ==> exists k :: 0 <= k < WINDOWS && !old(windows)[k].used
                                       && windows == old(windows)[k := windows[k]]
                                      && windows[k].used && windows[k].id == id && windows[k].w == w
                                      && windows[k].h == h
                                      && OnScreen(windows[k], width, UsableHeight())
                                      && forall j | 0 <= j < WINDOWS && j != k && windows[j].used ::
                                           windows[j].z < windows[k].z
    {
      var slot := FreeSlot();
      if slot == WINDOWS {
        return -1;
      }
      id := nextId;
      var win := Window(true, nextId, true, true, nextId * 37 % (width - w + 1), nextId * 2 % (UsableHeight() - h + 1),
                        w, h, nextZ, None);
      Place(slot, win);
    }

    /** The new window goes into its slot and is marked. */
    method Place(slot: nat, win: Window)
      requires Valid() && Shows() && slot < WINDOWS && !windows[slot].used
      requires win.used && win.visible && win.focusable && win.id == nextId && win.z == nextZ
      modifies this`windows, this`nextId, this`nextZ, this`dirty
      ensures Valid() && Shows() && windows == old(windows)[slot := win]
      ensures forall j | 0 <= j < WINDOWS && j != slot && windows[j].used :: windows[j].z < win.z
    {
      hide Picture;
      ghost var s := Now();
      MarkWindow(win);
      MarkTaskbar();
      forall y, x | 0 <= y < height && 0 <= x < width && !Dirty(x, y)
        ensures Picture(s.(windows := windows[slot := win]), x, y) == Picture(s, x, y)
      {
        OneWindowChanges(s, slot, win, x, y);
      }
      AddedApart(windows, slot, win, nextId, nextZ);
      windows := windows[slot := win];
      nextId, nextZ := nextId + 1, nextZ + 1;
    }

    /** wm_move */
    method Move(id: nat, x: int, y: int) returns (rc: int)
      requires Valid() && Shows()
      modifies this`windows, this`dirty
      ensures Valid() && Shows()
      ensures rc == 0 ==> exists k :: 0 <= k < WINDOWS
                            && IsChanged(old(windows), windows, id, k, old(windows)[k].(x := x, y := y))
      ensures rc != 0 ==> rc == -1 && windows == old(windows) && forall i | 0 <= i < WINDOWS ::
                !(windows[i].used && windows[i].id == id)
    {
      var k := Find(id);
      if k == WINDOWS {
        return -1;
      }
      MarkWindow(windows[k]);
      MarkWindow(windows[k].(x := x, y := y));
      Put(k, windows[k].(x := x, y := y));
      return 0;
    }

    /** wm_resize */
    method Resize(id: nat, w: int, h: int) returns (rc: int)
      requires Valid() && Shows()
      modifies this`windows, this`dirty
      ensures Valid() && Shows()
      ensures rc == 0 ==> exists k :: 0 <= k < WINDOWS
                            && IsChanged(old(windows), windows, id, k, old(windows)[k].(w := w, h := h))
      ensures rc != 0 ==> rc == -1 && windows == old(windows) && forall i | 0 <= i < WINDOWS ::
                !(windows[i].used && windows[i].id == id)
    {
      var k := Find(id);
      if k == WINDOWS {
        return -1;
      }
      MarkWindow(windows[k]);
      MarkWindow(windows[k].(w := w, h := h));
      Put(k, windows[k].(w := w, h := h));
      return 0;
    }

    /** wm_window_free_image of window k. */
    method FreeImage(k: nat)
      requires Valid() && Shows() && k < WINDOWS && windows[k].used
      modifies this`windows, this`stale
      ensures Valid() && windows == old(windows)[k := old(windows)[k].(image := None)]
      ensures Shows() && NewlyWrong() && stale == old(stale) + NotDirty(ImagePixels(old(Now()), k, width, height))
    {
      hide Picture, ImageSeen;
      ghost var s := Now();
      forall y, x | 0 <= y < height && 0 <= x < width
        ensures Picture(s.(windows := windows[k := windows[k].(image := None)]), x, y) != Picture(s, x, y) <==>
                  ImageSeen(s, k, x, y)
      {
        FreeImageChanges(s, k, x, y);
      }
      windows := windows[k := windows[k].(image := None)];
      stale := stale + NotDirty(ImagePixels(s, k, width, height));
    }

    /** wm_set_image. Without pixels it frees the image and marks nothing: then the
        screen still shows the picture exactly if the image was nowhere seen. */
    method SetImage(id: nat, image: Option<Image>) returns (rc: int)
      requires Valid() && Shows()
      modifies this`windows, this`dirty, this`stale
      ensures Valid() && Shows() && NewlyWrong()
      ensures rc != 0 || image.Some? ==> stale == old(stale)
      ensures rc == 0 ==> exists k :: 0 <= k < WINDOWS && IsChanged(old(windows), windows, id, k,
                                                                    old(windows)[k].(image := image))
                            && (image.None? ==>
                                  stale == old(stale) + NotDirty(ImagePixels(old(Now()), k, width, height)))
      ensures rc != 0 ==> rc == -1 && windows == old(windows) && forall i | 0 <= i < WINDOWS ::
                !(windows[i].used && windows[i].id == id)
    {
      var k := Find(id);
      if k == WINDOWS {
        return -1;
      }
      if image.None? {
        FreeImage(k);
        return 0;
      }
      MarkWindow(windows[k]);
      Put(k, windows[k].(image := image));
      return 0;
    }

    /** wm_close */
    method Close(id: nat) returns (rc: int)
      requires Valid() && Shows()
      modifies this`windows, this`dirty, this`focusId
      ensures Valid() && Shows()
      ensures rc == 0 ==> exists k :: 0 <= k < WINDOWS
                            && IsChanged(old(windows), windows, id, k, old(windows)[k].(used := false, image := None))
                                      && focusId == if old(focusId) == id then 0 else old(focusId)
      ensures rc != 0 ==> rc == -1 && windows == old(windows) && focusId == old(focusId)
                          && forall i | 0 <= i < WINDOWS :: !(windows[i].used && windows[i].id == id)
    {
      var k := Find(id);
      if k == WINDOWS {
        return -1;
      }
      MarkWindow(windows[k]);
      Put(k, windows[k].(used := false, image := None));
      if focusId == id {
        forall y, x | 0 <= y < height && 0 <= x < width && !Dirty(x, y)
          ensures Picture(Now().(focus := 0), x, y) == Picture(Now(), x, y)
        {
          FocusChanges(Now(), 0, x, y);
        }
        focusId := 0;
      }
      MarkTaskbar();
      return 0;
    }

    /** wm_focus. A window that has the focus already is raised, but nothing is marked:
        then the screen still shows the picture exactly if the window was nowhere hidden
        by one that looks different. */
    method Focus(id: nat) returns (rc: int)
      requires Valid() && Shows()
      modifies this`windows, this`dirty, this`focusId, this`nextZ, this`stale
      ensures Valid() && Shows() && NewlyWrong()
      ensures rc != 0 || old(focusId) != id ==> stale == old(stale)
      ensures rc == 0 ==> focusId == id
      ensures rc == 0 ==> exists k :: 0 <= k < WINDOWS
                            && IsChanged(old(windows), windows, id, k, old(windows)[k].(z := old(nextZ)))
                            && (old(focusId) == id ==>
                                  stale == old(stale) + NotDirty(HiddenPixels(old(Now()), k, width, height)))
      ensures rc != 0 ==> rc == -1 && windows == old(windows) && focusId == old(focusId)
                          && forall i | 0 <= i < WINDOWS :: !(windows[i].used && windows[i].id == id)
    {
      var k := Find(id);
      if k == WINDOWS {
        return -1;
      }
      if focusId == id {
        RaiseFocused(k);
      } else {
        MoveFocus(id, k);
      }
      return 0;
    }

    /** The window that has the focus is raised. */
    method RaiseFocused(k: nat)
      requires Valid() && Shows() && k < WINDOWS && windows[k].used
      modifies this`windows, this`nextZ, this`stale
      ensures Valid() && windows == old(windows)[k := old(windows)[k].(z := old(nextZ))]
      ensures Shows() && NewlyWrong() && stale == old(stale) + NotDirty(HiddenPixels(old(Now()), k, width, height))
    {
      hide Picture, HiddenBelow;
      ghost var s := Now();
      var raised := windows[k].(z := nextZ);
      forall y, x | 0 <= y < height && 0 <= x < width
        ensures Picture(s.(windows := windows[k := raised]), x, y) != Picture(s, x, y) <==> HiddenBelow(s, k, x, y)
      {
        RaiseChanges(s, k, nextZ, x, y);
      }
      windows, nextZ := windows[k := raised], nextZ + 1;
      stale := stale + NotDirty(HiddenPixels(s, k, width, height));
    }

    /** Another window is raised and gets the focus; both are marked. */
    method MoveFocus(id: nat, k: nat)
      requires Valid() && Shows() && k < WINDOWS && windows[k].used && windows[k].id == id && focusId != id
      modifies this`windows, this`dirty, this`focusId, this`nextZ
      ensures Valid() && Shows() && focusId == id && windows == old(windows)[k := old(windows)[k].(z := old(nextZ))]
    {
      hide Picture;
      var from := Find(focusId);
      ghost var s := Now();
      var raised := windows[k].(z := nextZ);
      windows, nextZ := windows[k := raised], nextZ + 1;
      focusId := id;
      MarkTaskbar();
      if from < WINDOWS {
        MarkWindow(windows[from]);
      }
      MarkWindow(windows[k]);
      forall y, x | 0 <= y < height && 0 <= x < width && !Dirty(x, y) ensures Picture(Now(), x, y) == Picture(s, x, y) {
        OneWindowChanges(s, k, raised, x, y);
        FocusChanges(s.(windows := windows), id, x, y);
      }
    }

    /** A left click of wm_poll_mouse_input: the topmost window under the cursor gets the
        focus, and everything is repainted. */
    method Click()
      requires Valid() && Shows()
      modifies this`windows, this`dirty, this`focusId, this`nextZ, this`stale
      ensures Valid() && Shows() && stale == {}
      ensures forall k: nat | TopAt(old(windows), cursorX, cursorY, k) :: focusId == old(windows)[k].id
      ensures !SomeTop(old(windows), cursorX, cursorY) ==> windows == old(windows) && focusId == old(focusId)
    {
      var k := FindTopAt(windows, cursorX, cursorY);
      if k < WINDOWS {
        var rc := Focus(windows[k].id);
      }
      MarkFull();
      stale := {};
    }

    /** wm_cursor_move */
    method MoveCursor(dx: int, dy: int)
      requires Valid()
      modifies this`cursorX, this`cursorY, this`dirty
      ensures Valid() && Shows() && cursorX == old(cursorX) + dx && cursorY == old(cursorY) + dy
    {
      cursorX, cursorY := cursorX + dx, cursorY + dy;
      MarkFull();
    }

    /** wm_repack_z: the used windows are renumbered from 1 in the same order. */
    method RepackZ()
      requires Valid()
      modifies this`windows, this`nextZ
      ensures Valid() && |old(windows)| == WINDOWS
      ensures forall i | 0 <= i < WINDOWS :: windows[i] == old(windows)[i].(z := windows[i].z)
      ensures forall i, j | 0 <= i < WINDOWS && 0 <= j < WINDOWS && windows[i].used && windows[j].used ::
                windows[i].z < windows[j].z <==> old(windows)[i].z < old(windows)[j].z
      ensures forall i | 0 <= i < WINDOWS && windows[i].used :: 1 <= windows[i].z < nextZ
      ensures forall z: nat | 1 <= z < nextZ :: HasZ(windows, z)
    {
      hide SortedBy;
      var order := SortByZ(windows, false);
      ghost var ws := windows;
      windows := Renumber(windows, order);
      nextZ := |order| + 1;
      RanksKeepOrder(ws, order, windows);
      StillApart(ws, windows, nextId, old(nextZ), nextZ);
    }

    /** wm_render: afterwards the back buffer shows the full picture, although only the
        dirty rectangle was painted. */
    method Render()
      requires Valid() && Shows()
      modifies this`windows, this`nextZ, this`dirty, this`stale, screen.fb
      ensures Valid() && Shows() && dirty == None && stale == old(NotDirty(stale))
      ensures forall y, x | 0 <= y < height && 0 <= x < width && (x, y) !in stale ::
                screen.fb[y, x] == Picture(Now(), x, y) == old(Picture(Now(), x, y))
    {
      ghost var s := Now();
      RepackZ();
      forall y, x | 0 <= y < height && 0 <= x < width ensures Picture(Now(), x, y) == Picture(s, x, y) {
        OnlyOrderMatters(s, windows, x, y);
      }
      if dirty.None? {
        return;
      }
      screen.Paint(Scene(windows, focusId, cursorX, cursorY), dirty.value);
      stale := NotDirty(stale);
      dirty := None;
    }

    /** One action. */
    method Act(a: Action)
      requires Valid() && Shows()
      modifies this`windows, this`nextId, this`nextZ, this`dirty, this`focusId, this`cursorX, this`cursorY, this`stale
      modifies screen.fb
      ensures Valid() && Shows() && (stale <= old(stale) || MarksNothing(a))
    {
      hide WindowsOk, Picture;
      match a
      case OpenWindow(w, h) => if w != width + 1 && h != UsableHeight() + 1 { var id := Create(w, h); }
      case MoveWindow(id, x, y) => var rc := Move(id, x, y);
      case ResizeWindow(id, w, h) => var rc := Resize(id, w, h);
      case ShowImage(id, image) => var rc := SetImage(id, Some(image));
      case HideImage(id) => var rc := SetImage(id, None);
      case CloseWindow(id) => var rc := Close(id);
      case ChangeFocus(id) => if id != focusId { var rc := Focus(id); }
      case FocusAgain => var rc := Focus(focusId);
      case LeftClick => Click();
      case PointAt(dx, dy) => MoveCursor(dx, dy);
      case Repaint => Render();
    }

    /** After any sequence of actions a render, which paints the dirty rectangle only,
        leaves the full picture in the back buffer, at all pixels that no action has
        changed without marking them since they were painted last; without the two actions
        that mark nothing these are all pixels. */
    method Run(actions: seq<Action>)
      requires Valid() && Shows()
      modifies this`windows, this`nextId, this`nextZ, this`dirty, this`focusId, this`cursorX, this`cursorY, this`stale
      modifies screen.fb
      ensures Valid() && dirty == None
      ensures forall y, x | 0 <= y < height && 0 <= x < width && (x, y) !in stale ::
                screen.fb[y, x] == Picture(Now(), x, y)
      ensures old(stale) == {} && (forall i | 0 <= i < |actions| :: !MarksNothing(actions[i])) ==> stale == {}
    {
      hide WindowsOk, Picture;
      var i := 0;
      while i < |actions|
        invariant 0 <= i <= |actions| && Valid() && Shows()
        invariant old(stale) == {} && (forall j | 0 <= j < i :: !MarksNothing(actions[j])) ==> stale == {}
      {
        Act(actions[i]);
        i := i + 1;
      }
      Render();
    }
  }

  lemma RanksKeepOrder(ws: seq<Window>, order: seq<nat>, t: seq<Window>)
    requires |t| == |ws| && Lists(ws, order, false) && SortedBy(ws, order, |order|)
    requires forall k | 0 <= k < |ws| :: t[k] == ws[k].(z := t[k].z)
    requires forall j | 0 <= j < |order| :: t[order[j]].z == j + 1
    ensures forall i, j | 0 <= i < |ws| && 0 <= j < |ws| && t[i].used && t[j].used ::
              t[i].z < t[j].z <==> ws[i].z < ws[j].z
    ensures forall i | 0 <= i < |ws| && t[i].used :: 1 <= t[i].z <= |order|
    ensures forall z: nat | 1 <= z <= |order| :: HasZ(t, z)
  {
    forall i | 0 <= i < |ws| && t[i].used ensures Ranked(order, t, i) {
      assert Listed(ws[i], false) && i in order;
    }
    forall i, j | 0 <= i < |ws| && 0 <= j < |ws| && t[i].used && t[j].used
      ensures t[i].z < t[j].z <==> ws[i].z < ws[j].z
    {
      assert Ranked(order, t, i) && Ranked(order, t, j);
      var a :| 0 <= a < |order| && order[a] == i && t[i].z == a + 1;
      var b :| 0 <= b < |order| && order[b] == j && t[j].z == b + 1;
    }
    forall i | 0 <= i < |ws| && t[i].used ensures 1 <= t[i].z <= |order| { assert Ranked(order, t, i); }
    forall z: nat | 1 <= z <= |order| ensures HasZ(t, z) {
      var i := order[z - 1];
      assert t[i].z == z && t[i].used;
    }
  }

  /** The z of window i is its place in the order. */
  ghost predicate Ranked(order: seq<nat>, t: seq<Window>, i: nat)
    requires i < |t|
  {
    exists a :: 0 <= a < |order| && order[a] == i && t[i].z == a + 1
  }

  /** Some window in use has this z. */
  ghost predicate HasZ(ws: seq<Window>, z: nat) { exists i :: 0 <= i < |ws| && ws[i].used && ws[i].z == z }

  /** The last loop of wm_repack_z. */
  method Renumber(ws: seq<Window>, order: seq<nat>) returns (t: seq<Window>)
    requires Lists(ws, order, false)
    ensures |t| == |ws| && (forall k | 0 <= k < |ws| :: t[k] == ws[k].(z := t[k].z))
    ensures forall j | 0 <= j < |order| :: t[order[j]].z == j + 1
  {
    t := ws;
    var i := 0;
    while i < |order|
      invariant 0 <= i <= |order| && |t| == |ws|
      invariant forall k | 0 <= k < |ws| :: t[k] == ws[k].(z := t[k].z)
      invariant forall j | 0 <= j < i :: t[order[j]].z == j + 1
    {
      t := t[order[i] := t[order[i]].(z := i + 1)];
      i := i + 1;
    }
  }

  lemma StillApart(ws: seq<Window>, t: seq<Window>, nextId: nat, nextZ: nat, nextZ': nat)
    requires WindowsOk(ws, nextId, nextZ) && |t| == |ws| && (forall k | 0 <= k < |ws| :: t[k] == ws[k].(z := t[k].z))
    requires forall i, j | 0 <= i < |ws| && 0 <= j < |ws| && t[i].used && t[j].used ::
               t[i].z < t[j].z <==> ws[i].z < ws[j].z
    requires forall i | 0 <= i < |ws| && t[i].used :: t[i].z < nextZ'
    ensures WindowsOk(t, nextId, nextZ')
  {
    forall i, j | 0 <= i < |t| && 0 <= j < |t| && i != j && t[i].used && t[j].used
      ensures t[i].id != t[j].id && t[i].z != t[j].z
    {
      assert ws[i].z < ws[j].z || ws[j].z < ws[i].z;
    }
  }

  lemma AddedApart(ws: seq<Window>, slot: nat, win: Window, nextId: nat, nextZ: nat)
    requires WindowsOk(ws, nextId, nextZ) && slot < WINDOWS && !ws[slot].used
    requires win.used && win.id == nextId && win.z == nextZ && win.visible && win.focusable && nextId > 0
    ensures WindowsOk(ws[slot := win], nextId + 1, nextZ + 1)
  {}
}
