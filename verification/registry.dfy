/**
 Building the registry of switches from the window manager's window list:
 stopping when another instance's input window is seen, skipping the
 panel and desktop, keeping only windows of the active workspace, and
 labelling each kept window in enumeration order.
 */
module Registry {
  import opened Wrappers
  import opened Labels

  type WinId = nat
  type WorkspaceId = nat

  /**
   What the model reads of a window-manager window: its identity, name,
   workspace (None when the window is on every workspace or on none) and top-left corner.
   */
  datatype Window = Window(id: WinId, name: string, workspace: Option<WorkspaceId>, x: int, y: int)

  /** The rendered size of a popup badge. */
  datatype Size = Size(wid: nat, hei: nat)

  /** A labelled window together with the size of its popup badge. */
  datatype Switch = Switch(letter: char, win: Window, popup: Size)

  /** The registry: label to switch. */
  type Reg = map<char, Switch>

  /** The title of this program's own input window; seeing it means another instance runs. */
  const WindowName: string := "Window Switcher\t\t__5f9781ea926f40f88783c5a743662cf1__"

  /** The panel and the desktop ("デスクトップ"), which are never offered. */
  const DeniedNames: set<string> := {"xfce4-panel", "\U{30C7}\U{30B9}\U{30AF}\U{30C8}\U{30C3}\U{30D7}"}

  /** The outcome of scanning the window list. */
  datatype Build =
    | Built(alloc: Allocator, reg: Reg)
      /** the scan met `WindowName` and the process exits */
    | AlreadyRunning
      /** a window was kept after the alphabet ran out: building its badge fails */
    | LabelsExhausted

  /** A window the scan keeps (given it is not the sentinel). */
  predicate Eligible(w: Window, active: Option<WorkspaceId>) {
    && w.name !in DeniedNames
    && (w.workspace == active || w.workspace.None?)
  }

  /** No window in `ws` carries this program's own title. */
  predicate NoSentinel(ws: seq<Window>) {
    forall i | 0 <= i < |ws| :: ws[i].name != WindowName
  }

  /** The eligible windows of `ws`, in enumeration order: the reference for what gets registered. */
  function Kept(ws: seq<Window>, active: Option<WorkspaceId>): (r: seq<Window>)
    ensures |r| <= |ws|
    ensures forall w :: w in r <==> w in ws && Eligible(w, active)
  {
    if ws == [] then []
    else
      var last := ws[|ws| - 1];
      assert ws == ws[..|ws| - 1] + [last];
      Kept(ws[..|ws| - 1], active) + (if Eligible(last, active) then [last] else [])
  }

  /**
   `reg` holds exactly the windows `ks`, the i-th of them under the i-th
   letter, each with the badge `render` gives it.
   */
  predicate Registered(reg: Reg, ks: seq<Window>, render: (char, Window) -> Size) {
    && |ks| <= |Letters|
    && |reg| == |ks|
    && (forall c :: c in reg <==> c in Letters[..|ks|])
    && (forall i | 0 <= i < |ks| ::
          Letters[i] in reg && reg[Letters[i]] == Switch(Letters[i], ks[i], render(Letters[i], ks[i])))
  }

  /** One pass of the enumeration loop over window `w`. */
  function Visit(a: Allocator, reg: Reg, w: Window, active: Option<WorkspaceId>,
                 render: (char, Window) -> Size): Build
  {
    if w.name == WindowName then AlreadyRunning
    else if w.name in DeniedNames then Built(a, reg)
    else if !(w.workspace == active || w.workspace.None?) then Built(a, reg)
    else
      match NewLabel(a)
      case (None, _) => LabelsExhausted
      case (Some(l), a') => Built(a', reg[l := Switch(l, w, render(l, w))])
  }

  /** The next letter is not yet in a registry of the first `|ks|` letters. */
  lemma NextLetterFresh(reg: Reg, ks: seq<Window>, render: (char, Window) -> Size)
    requires Registered(reg, ks, render)
    requires |ks| < |Letters|
    ensures Letters[|ks|] !in reg
  {
    LettersDistinct();
    var c := |ks|;
    assert forall i | 0 <= i < c :: Letters[i] != Letters[c];
    assert Letters[c] !in Letters[..c];
  }

  /** Registering window `w` under the next letter extends a registry of `ks` to one of `ks + [w]`. */
  lemma RegisteredExtend(reg: Reg, ks: seq<Window>, w: Window, render: (char, Window) -> Size)
    requires Registered(reg, ks, render)
    requires |ks| < |Letters|
    ensures var l := Letters[|ks|];
            Registered(reg[l := Switch(l, w, render(l, w))], ks + [w], render)
  {
    var c := |ks|;
    var l := Letters[c];
    NextLetterFresh(reg, ks, render);
    var ks' := ks + [w];
    var reg' := reg[l := Switch(l, w, render(l, w))];
    assert |reg'| == |ks'|;
    assert Letters[..|ks'|] == Letters[..c] + [l];
    assert forall k :: k in reg' <==> k in Letters[..|ks'|];
    forall i | 0 <= i < |ks'|
      ensures Letters[i] in reg' && reg'[Letters[i]] == Switch(Letters[i], ks'[i], render(Letters[i], ks'[i]))
    {
      if i < c {
        assert ks'[i] == ks[i];
      }
    }
  }

  /**
   One non-sentinel window extends a registry of the windows `ks` by that
   window when it is eligible and a letter is left, keeps it when not eligible,
   and fails when it is eligible but the alphabet is used up.
   */
  lemma VisitExtends(a: Allocator, reg: Reg, ks: seq<Window>, w: Window, active: Option<WorkspaceId>,
                     render: (char, Window) -> Size)
    requires a.counter == |ks|
    requires Registered(reg, ks, render)
    requires w.name != WindowName
    ensures !Eligible(w, active) ==> Visit(a, reg, w, active, render) == Built(a, reg)
    ensures Eligible(w, active) && |ks| == |Letters| ==> Visit(a, reg, w, active, render) == LabelsExhausted
    ensures Eligible(w, active) && |ks| < |Letters| ==>
              var r := Visit(a, reg, w, active, render);
              r.Built? && r.alloc.counter == |ks| + 1 && Registered(r.reg, ks + [w], render)
  {
    if Eligible(w, active) && |ks| < |Letters| {
      RegisteredExtend(reg, ks, w, render);
    }
  }

  /**
   The enumeration loop over `ws`, from program start. The scan ends in
   `Built` exactly when no window is the sentinel and the eligible windows
   fit the alphabet; the registry then holds exactly the eligible windows,
   labelled in enumeration order.
   */
  function Scan(ws: seq<Window>, active: Option<WorkspaceId>, render: (char, Window) -> Size): (r: Build)
    ensures r.Built? <==> NoSentinel(ws) && |Kept(ws, active)| <= |Letters|
    ensures r.Built? ==> r.alloc.counter == |Kept(ws, active)|
    ensures r.Built? ==> Registered(r.reg, Kept(ws, active), render)
    ensures r.AlreadyRunning? ==> !NoSentinel(ws)
    ensures r.LabelsExhausted? ==> |Kept(ws, active)| > |Letters|
    decreases |ws|
  {
    if ws == [] then Built(Fresh, map[])
    else
      var init := ws[..|ws| - 1];
      var last := ws[|ws| - 1];
      assert ws == init + [last];
      assert NoSentinel(ws) <==> NoSentinel(init) && last.name != WindowName;
      match Scan(init, active, render)
      case Built(a, reg) =>
        if last.name == WindowName then AlreadyRunning
        else
          VisitExtends(a, reg, Kept(init, active), last, active, render);
          Visit(a, reg, last, active, render)
      case stopped =>
        assert |Kept(init, active)| <= |Kept(ws, active)|;
        stopped
  }

  /** Once the scan has stopped, the windows after that point change nothing. */
  lemma {:induction false} ScanStopsEarly(ws: seq<Window>, k: nat, active: Option<WorkspaceId>,
                                          render: (char, Window) -> Size)
    requires k <= |ws|
    requires !Scan(ws[..k], active, render).Built?
    ensures Scan(ws, active, render) == Scan(ws[..k], active, render)
    decreases |ws| - k
  {
    if k < |ws| {
      var ws' := ws[..|ws| - 1];
      assert ws'[..k] == ws[..k];
      ScanStopsEarly(ws', k, active, render);
    } else {
      assert ws[..k] == ws;
    }
  }

  /**
   A window carrying this program's own title ends the run right there,
   provided the scan got that far (no earlier sentinel, and the windows kept
   before it fit the alphabet).
   */
  lemma SentinelEndsRun(ws: seq<Window>, i: nat, active: Option<WorkspaceId>,
                                           render: (char, Window) -> Size)
    requires i < |ws|
    requires ws[i].name == WindowName
    requires NoSentinel(ws[..i])
    requires |Kept(ws[..i], active)| <= |Letters|
    ensures Scan(ws, active, render) == AlreadyRunning
  {
    var pre := ws[..i + 1];
    assert pre[..|pre| - 1] == ws[..i];
    assert pre[|pre| - 1].name == WindowName;
    assert Scan(ws[..i], active, render).Built?;
    assert Scan(pre, active, render) == AlreadyRunning;
    ScanStopsEarly(ws, i + 1, active, render);
  }

  /**
   Every registered switch is keyed by its own letter and holds a window of
   the enumeration that is neither the panel nor the desktop and lies on the
   active workspace or has none (it is on every workspace or on none).
   */
  lemma RegisteredWindowsEligible(ws: seq<Window>, active: Option<WorkspaceId>,
                                  render: (char, Window) -> Size, c: char)
    requires Scan(ws, active, render).Built?
    requires c in Scan(ws, active, render).reg
    ensures var sw := Scan(ws, active, render).reg[c];
            && sw.letter == c
            && sw.win in ws
            && sw.win.name !in DeniedNames
            && sw.win.name != WindowName
            && (sw.win.workspace == active || sw.win.workspace.None?)
  {
    var ks := Kept(ws, active);
    var reg := Scan(ws, active, render).reg;
    assert c in Letters[..|ks|];
    var i :| 0 <= i < |ks| && Letters[..|ks|][i] == c;
    assert reg[c].win == ks[i];
    assert ks[i] in ks;
  }
}
