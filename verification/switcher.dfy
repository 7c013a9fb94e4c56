/**
 One invocation of the window switcher, from the window list to the
 activated window: scan and label the windows, apply the selection policy,
 and on the interactive path lay out the badges and answer the one event
 that ends the wait.
 */
module Switcher {
  import opened Wrappers
  import opened Labels
  import opened Registry
  import opened Selection
  import opened Layout

  /** What ends the interactive wait: a key press (the toolkit may know no name for the key) or focus loss. */
  datatype Event = KeyPress(name: Option<string>) | FocusOut

  /** How an invocation ends. */
  datatype Run =
      /** another instance's input window was found; nothing else happened */
    | OtherInstance
      /** more windows to label than letters: building a badge fails */
    | Crashed
      /** the window activated, if any, and the committed badge corners (empty when no badge was laid out) */
    | Finished(activated: Option<WinId>, layout: seq<Box>)

  /** The window a terminal event activates: the key handler's choice, or nothing on focus loss. */
  function Respond(reg: Reg, e: Event): (w: Option<WinId>)
    ensures w.Some? ==> exists c :: c in reg && reg[c].win.id == w.value
    ensures e.FocusOut? ==> w.None?
    ensures e.KeyPress? ==> w == HandleKey(reg, e.name)
  {
    match e
    case KeyPress(name) => HandleKey(reg, name)
    case FocusOut => None
  }

  /** A registry built by the scan can be laid out: its first letters are all registered. */
  lemma BuiltIsIndexable(ws: seq<Window>, active: Option<WorkspaceId>, render: (char, Window) -> Size)
    requires Scan(ws, active, render).Built?
    ensures Indexable(Scan(ws, active, render).reg)
  {
  }

  /**
   A whole invocation. Whatever it activates is a window the scan kept or,
   in the two-switch case, the previously active window; badges are laid
   out only on the interactive path.
   */
  function Invoke(ws: seq<Window>, active: Option<WorkspaceId>, awin: Option<WinId>, pawin: Option<WinId>,
                  render: (char, Window) -> Size, e: Event): (r: Run)
    ensures r.OtherInstance? ==> !NoSentinel(ws)
    ensures r.Crashed? ==> |Kept(ws, active)| > |Letters|
    ensures r.Finished? ==> NoSentinel(ws) && |Kept(ws, active)| <= |Letters|
    ensures r.Finished? && r.activated.Some? ==>
              (exists i :: 0 <= i < |Kept(ws, active)| && Kept(ws, active)[i].id == r.activated.value)
              || (|Kept(ws, active)| == 2 && pawin == r.activated)
    ensures r.Finished? && r.layout != [] ==> |Kept(ws, active)| >= 2
  {
    match Scan(ws, active, render)
    case AlreadyRunning => OtherInstance
    case LabelsExhausted => Crashed
    case Built(_, reg) =>
      var ks := Kept(ws, active);
      assert forall c | c in reg :: exists i :: 0 <= i < |ks| && reg[c].win == ks[i] by {
        forall c | c in reg
          ensures exists i :: 0 <= i < |ks| && reg[c].win == ks[i]
        {
          var i :| 0 <= i < |ks| && Letters[..|ks|][i] == c;
          assert reg[c].win == ks[i];
        }
      }
      match Select(reg, awin, pawin)
      case Quit => Finished(None, [])
      case ActivateAndQuit(w) =>
        ActivationTargets(reg, awin, pawin, w);
        Finished(Some(w), [])
      case Interactive =>
        Finished(Respond(reg, e), ManageLayout(reg))
  }

  /** No window to offer: the run ends without activating anything or showing badges. */
  lemma NoWindowsQuits(ws: seq<Window>, active: Option<WorkspaceId>, awin: Option<WinId>,
                       pawin: Option<WinId>, render: (char, Window) -> Size, e: Event)
    requires NoSentinel(ws)
    requires Kept(ws, active) == []
    ensures Invoke(ws, active, awin, pawin, render, e) == Finished(None, [])
  {
    assert |Scan(ws, active, render).reg| == 0;
  }

  /** One window to offer: it is activated at once and no badge is laid out. */
  lemma OneWindowActivated(ws: seq<Window>, active: Option<WorkspaceId>, awin: Option<WinId>,
                           pawin: Option<WinId>, render: (char, Window) -> Size, e: Event, w: Window)
    requires NoSentinel(ws)
    requires Kept(ws, active) == [w]
    ensures Invoke(ws, active, awin, pawin, render, e) == Finished(Some(w.id), [])
  {
    var reg := Scan(ws, active, render).reg;
    assert Letters[0] in reg && reg[Letters[0]].win == w;
    assert reg.Keys == {Letters[0]} by {
      assert Letters[..1] == [Letters[0]];
    }
  }

  /** A registry of exactly two windows: the first under 'U', the second under 'E'. */
  lemma RegisteredTwo(reg: Reg, a: Window, b: Window, render: (char, Window) -> Size)
    requires Registered(reg, [a, b], render)
    ensures reg.Keys == {'U', 'E'} && reg['U'].win == a && reg['E'].win == b
  {
    var pre := Letters[..2];
    assert pre == ['U', 'E'];
    forall c
      ensures c in reg <==> c == 'U' || c == 'E'
    {
      assert c in reg <==> c in pre;
    }
  }

  /** The scan of exactly two kept windows registers the first under 'U', the second under 'E'. */
  lemma TwoKept(ws: seq<Window>, active: Option<WorkspaceId>, render: (char, Window) -> Size,
                a: Window, b: Window)
    requires NoSentinel(ws)
    requires Kept(ws, active) == [a, b]
    ensures Scan(ws, active, render).Built?
    ensures var reg := Scan(ws, active, render).reg;
            reg.Keys == {'U', 'E'} && reg['U'].win == a && reg['E'].win == b
  {
    RegisteredTwo(Scan(ws, active, render).reg, a, b, render);
  }

  /**
   Two windows to offer, the first of them active: the second is activated
   at once, whatever the previously active window is.
   */
  lemma TwoWindowsToggle(ws: seq<Window>, active: Option<WorkspaceId>, pawin: Option<WinId>,
                         render: (char, Window) -> Size, e: Event, a: Window, b: Window)
    requires NoSentinel(ws)
    requires Kept(ws, active) == [a, b]
    requires a.id != b.id
    ensures Invoke(ws, active, Some(a.id), pawin, render, e) == Finished(Some(b.id), [])
  {
    TwoKept(ws, active, render, a, b);
    var reg := Scan(ws, active, render).reg;
    TogglesBetweenTwo(reg, 'U', 'E', pawin);
  }

  /** The working list of a registry of `ks` carries the first |ks| letters, in order. */
  lemma RegistryLetters(reg: Reg, ks: seq<Window>, render: (char, Window) -> Size)
    requires Registered(reg, ks, render)
    ensures Indexable(reg)
    ensures LettersOf(WorkingList(reg)) == Letters[..|ks|]
  {
    var work := WorkingList(reg);
    assert forall i | 0 <= i < |ks| :: work[i].letter == Letters[i];
  }

  /**
   The badges laid out for a registry built by the scan carry exactly the
   first |kept windows| letters, each once.
   */
  lemma LayoutCoversRegistry(ws: seq<Window>, active: Option<WorkspaceId>, render: (char, Window) -> Size)
    requires Scan(ws, active, render).Built?
    ensures multiset(LettersOf(ManageLayout(Scan(ws, active, render).reg))) ==
            multiset(Letters[..|Kept(ws, active)|])
  {
    var built := Scan(ws, active, render);
    RegistryLetters(built.reg, Kept(ws, active), render);
  }

  /**
   Three or more windows: the badges are laid out, and pressing the key of
   the i-th label activates the i-th kept window.
   */
  lemma KeyPressActivates(ws: seq<Window>, active: Option<WorkspaceId>, awin: Option<WinId>,
                          pawin: Option<WinId>, render: (char, Window) -> Size, i: nat)
    requires NoSentinel(ws)
    requires 3 <= |Kept(ws, active)| <= |Letters|
    requires i < |Kept(ws, active)|
    ensures var r := Invoke(ws, active, awin, pawin, render, KeyPress(Some(KeyName(Letters[i]))));
            && r.activated == Some(Kept(ws, active)[i].id)
            && |r.layout| == |Kept(ws, active)|
  {
    var built := Scan(ws, active, render);
    var reg := built.reg;
    var key := KeyPress(Some(KeyName(Letters[i])));
    assert built.Built? && |reg| == |Kept(ws, active)|;
    assert Select(reg, awin, pawin) == Interactive;
    assert Invoke(ws, active, awin, pawin, render, key) == Finished(Respond(reg, key), ManageLayout(reg));
    PressingLabelActivates(ws, active, render, i);
  }
}
