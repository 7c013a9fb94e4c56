/**
 What the switcher does once the registry is built: the shortcuts for zero,
 one and two windows that activate without laying out the badges or waiting
 for a key, and the key handler of the interactive path.
 */
module Selection {
  import opened Wrappers
  import opened Labels
  import opened Registry

  /** The policy's verdict. */
  datatype Decision =
      /** exit without activating anything */
    | Quit
      /** activate this window and exit */
    | ActivateAndQuit(win: WinId)
      /** lay out the badges and wait for a key */
    | Interactive

  /** A set with one element has no two different elements. */
  lemma SingletonUnique<T>(s: set<T>)
    requires |s| == 1
    ensures forall x, y | x in s && y in s :: x == y
  {
    forall x, y | x in s && y in s
      ensures x == y
    {
      assert |s - {x}| == 0;
    }
  }

  /** The one element of a one-element set. */
  function Only<T>(s: set<T>): (x: T)
    requires |s| == 1
    ensures s == {x}
  {
    SingletonUnique(s);
    var x :| x in s;
    x
  }

  /** Labels of the switches whose window is not `awin`. */
  function NotActive(reg: Reg, awin: WinId): set<char> {
    set c | c in reg && reg[c].win.id != awin
  }

  /**
   The policy for the built registry, given the window manager's active and
   previously active windows: nothing for no switch, the switch itself for
   one, and for two the one switch whose window is not the active one,
   else the previously active window; otherwise the interactive path.
   */
  function Select(reg: Reg, awin: Option<WinId>, pawin: Option<WinId>): (d: Decision)
    ensures |reg| == 0 ==> d == Quit
    ensures |reg| == 1 ==> exists c :: c in reg && d == ActivateAndQuit(reg[c].win.id)
    ensures d == Interactive <==>
              |reg| > 2 || (|reg| == 2 && pawin.None? && (awin.None? || |NotActive(reg, awin.value)| != 1))
    ensures |reg| == 2 && awin.Some? && |NotActive(reg, awin.value)| == 1 ==>
              exists c :: c in reg && reg[c].win.id != awin.value && d == ActivateAndQuit(reg[c].win.id)
    ensures |reg| == 2 && (awin.None? || |NotActive(reg, awin.value)| != 1) && pawin.Some? ==>
              d == ActivateAndQuit(pawin.value)
  {
    if |reg| == 0 then Quit
    else if |reg| == 1 then
      var c := Only(reg.Keys);
      ActivateAndQuit(reg[c].win.id)
    else if |reg| == 2 then
      if awin.Some? && |NotActive(reg, awin.value)| == 1 then
        var c := Only(NotActive(reg, awin.value));
        ActivateAndQuit(reg[c].win.id)
      else if pawin.Some? then ActivateAndQuit(pawin.value)
      else Interactive
    else Interactive
  }

  /** Python 2's `str.upper` on one character: ASCII letters only. */
  function UpperChar(c: char): char {
    if 'a' <= c <= 'z' then (c as int - 32) as char else c
  }

  /** Python 2's `str.upper`. */
  function Upper(s: string): string {
    seq(|s|, i requires 0 <= i < |s| => UpperChar(s[i]))
  }

  /** A string with no lower-case ASCII letter. */
  predicate NoLower(s: string) {
    forall i | 0 <= i < |s| :: !('a' <= s[i] <= 'z')
  }

  /**
   The key name as a label: upper-cased, with the name of the period key
   turned into the period itself.
   */
  function ToSymbol(k: string): (r: string)
    ensures NoLower(r)
    ensures Upper(k) == "PERIOD" ==> r == "."
    ensures Upper(k) != "PERIOD" ==> |r| == |k| && r == Upper(k)
  {
    var u := Upper(k);
    if u == "PERIOD" then "." else u
  }

  /**
   The key handler: the window of the switch labelled with the pressed key's
   symbol, if there is one. A key without a name, or one no switch carries,
   activates nothing.
   */
  function HandleKey(reg: Reg, key: Option<string>): (r: Option<WinId>)
    ensures r.Some? <==> key.Some? && |ToSymbol(key.value)| == 1 && ToSymbol(key.value)[0] in reg
    ensures r.Some? ==> r.value == reg[ToSymbol(key.value)[0]].win.id
  {
    match key
    case None => None
    case Some(k) =>
      var s := ToSymbol(k);
      if |s| == 1 && s[0] in reg then Some(reg[s[0]].win.id) else None
  }

  /**
   Whatever the policy activates is a registered window or, in the
   two-switch case only, the previously active window.
   */
  lemma ActivationTargets(reg: Reg, awin: Option<WinId>, pawin: Option<WinId>, w: WinId)
    requires Select(reg, awin, pawin) == ActivateAndQuit(w)
    ensures (exists c :: c in reg && reg[c].win.id == w) || (|reg| == 2 && pawin == Some(w))
  {
  }

  /**
   Two switches with different windows, one of them active: the other one
   is activated, never the active one.
   */
  lemma TogglesBetweenTwo(reg: Reg, a: char, b: char, pawin: Option<WinId>)
    requires reg.Keys == {a, b} && a != b
    requires reg[a].win.id != reg[b].win.id
    ensures Select(reg, Some(reg[a].win.id), pawin) == ActivateAndQuit(reg[b].win.id)
  {
    assert NotActive(reg, reg[a].win.id) == {b};
  }

  /**
   Two switches, the active window being neither of theirs (a panel, say):
   the previously active window is activated if the window manager knows
   one, and the badges are shown otherwise.
   */
  lemma ActiveOutsideRegistry(reg: Reg, awin: WinId, pawin: Option<WinId>)
    requires |reg| == 2
    requires forall c | c in reg :: reg[c].win.id != awin
    ensures pawin.Some? ==> Select(reg, Some(awin), pawin) == ActivateAndQuit(pawin.value)
    ensures pawin.None? ==> Select(reg, Some(awin), pawin) == Interactive
  {
    assert NotActive(reg, awin) == reg.Keys;
  }

  lemma UpperIdempotent(s: string)
    ensures Upper(Upper(s)) == Upper(s)
  {
  }

  /** Normalising a key name twice gives what normalising it once gives. */
  lemma ToSymbolIdempotent(k: string)
    ensures ToSymbol(ToSymbol(k)) == ToSymbol(k)
  {
    UpperIdempotent(k);
    if Upper(k) == "PERIOD" {
      assert Upper(".") == ".";
    }
  }

  /**
   A key reaches the switch labelled with upper-case letter `c` exactly
   when its name is `c` in either case.
   */
  lemma LetterKeys(c: char, k: string)
    requires 'A' <= c <= 'Z'
    ensures ToSymbol(k) == [c] <==> k == [c] || k == [(c as int + 32) as char]
  {
    if ToSymbol(k) == [c] {
      assert Upper(k) != "PERIOD";
      assert |k| == 1 && UpperChar(k[0]) == c;
    }
  }

  /** A key reaches the switch labelled "." exactly when it is "." or named "period" in any case. */
  lemma PeriodKeys(k: string)
    ensures ToSymbol(k) == "." <==> k == "." || Upper(k) == "PERIOD"
  {
    if ToSymbol(k) == "." && Upper(k) != "PERIOD" {
      assert |k| == 1 && UpperChar(k[0]) == '.';
    }
  }

  /** The toolkit's name for the key that types label `c`. */
  function KeyName(c: char): string {
    if c == '.' then "period"
    else if 'A' <= c <= 'Z' then [(c as int + 32) as char]
    else [c]
  }

  /** Every letter of the alphabet is an upper-case ASCII letter or the period. */
  lemma LettersAreKeys(i: nat)
    requires i < |Letters|
    ensures Letters[i] == '.' || 'A' <= Letters[i] <= 'Z'
  {
  }

  /** Pressing the key that types a registered label activates that switch's window. */
  lemma KeyOfLabel(reg: Reg, c: char)
    requires c in reg
    requires c == '.' || 'A' <= c <= 'Z'
    ensures HandleKey(reg, Some(KeyName(c))) == Some(reg[c].win.id)
  {
    if c == '.' {
      assert Upper("period") == "PERIOD";
    } else {
      LetterKeys(c, KeyName(c));
    }
  }

  /**
   In a registry built by the scan, pressing the key of the i-th label
   activates the i-th kept window.
   */
  lemma PressingLabelActivates(ws: seq<Window>, active: Option<WorkspaceId>,
                               render: (char, Window) -> Size, i: nat)
    requires Scan(ws, active, render).Built?
    requires i < |Kept(ws, active)|
    ensures HandleKey(Scan(ws, active, render).reg, Some(KeyName(Letters[i]))) ==
            Some(Kept(ws, active)[i].id)
  {
    var reg := Scan(ws, active, render).reg;
    var ks := Kept(ws, active);
    assert Registered(reg, ks, render);
    LettersAreKeys(i);
    KeyOfLabel(reg, Letters[i]);
  }
}
