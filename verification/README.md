# Window switcher: decision logic in Dafny

This project models the decision logic of a small X11 window switcher (`switcher.py`). When the switcher is invoked, it does the following:

- It reads the window manager's window list.
- It gives each window of the current workspace a one-letter label from the fixed alphabet `UEIOA.PYJK`.
- It handles the zero-, one- and two-window cases directly, without laying out the badges or waiting for a key. The badges themselves are already created and shown by then, one per kept window.
- Otherwise it shifts each badge past the earlier badges it collides with, and waits for a key. The window whose label matches the key is activated.

The toolkit and window-manager calls are replaced by plain values:

- A window is a record of id, name, workspace, and top-left corner.
- A badge's rendered size comes from a function parameter.
- The active window, the previously active window and the active workspace are parameters.
- Activation is a returned value.

Modules follow the program's parts:

- `Labels` (labels.dfy): the alphabet and the label allocator, with its counter threaded through as an explicit `Allocator` state.
- `Registry` (registry.dfy): the window-list loop that builds the label → switch dictionary.
  - `Kept` is the reference filter.
  - `Scan` is the loop.
- `Selection` (selection.dfy): the 0/1/2-window policy, `to_symbol`, and the key handler.
- `Layout` (layout.dfy): the overlap test, the working list, Python's stable sort by (x, y), and the greedy shifting pass.
- `Switcher` (switcher.dfy): one whole invocation, plus end-to-end scenarios.
- `Wrappers` (wrappers.dfy): `Option`, standing for Python's `None`.

Behaviour worth knowing, as the code has it:

- **More eligible windows than letters is a crash, not a silent drop.**
  - `new_label` answers `None` once the ten letters are used.
  - The badge constructor then concatenates that `None` into a string, which raises before the window is stored.
  - `Scan` therefore ends in `LabelsExhausted`, and `Invoke` ends in `Crashed`.
  - Surplus windows are therefore never silently dropped: the whole run fails.
- **The layout pass does not guarantee that no badges overlap.**
  - Its docstring promises that badges "do not overlap each other", but the pass checks each badge only against the badges before it.
  - A shift can push a badge back onto a badge it was already checked against (`ResidualOverlap`).
  - A shift can also leave a badge where it was, still overlapping (`ShiftCanKeepOverlap`).
  - A shift can move a badge left (`ShiftCanMoveLeft`).
  - What the pass does guarantee: every badge is committed once, at a non-negative corner, and earlier badges never move again. A badge no larger than the one it collides with is moved clear of that one (`ShiftSeparates`).
- **The collision test uses Python 2 integer division.** Two badges collide when `2·abs(Δx) + 2 ≤ w₁ + w₂` and the same holds for y (`OverlapWithoutDivision`). A badge of size 0×0 can still collide with a badge that is large enough.

## Model

| member | source | states |
|---|---|---|
| Labels.LettersDistinct | switcher.py:27 | the alphabet has ten letters, no letter twice |
| Labels.NewLabel | switcher.py:37-47 | while the cursor is inside the alphabet, answers the letter under it and advances by one; afterwards answers None and leaves the state unchanged; a reachable state stays reachable |
| Labels.Issue | switcher.py:37-47 | n successive calls from any state answer the letters from the cursor on, then None once the alphabet is used up; the cursor advances with each letter handed out and stops at ten |
| Labels.FreshIssuesPrefix | switcher.py:25-47 | from program start, n successive calls answer the first min(n, 10) letters in alphabet order and then None; the counter stops at 10 |
| Labels.IssuedLabelsDistinct | switcher.py:27-47 | no two calls from program start hand out the same label |
| Registry.Kept | switcher.py:199-204 | reference filter: a window is kept exactly when it occurs in the list, is neither "xfce4-panel" nor the desktop, and lies on the active workspace or on none |
| Registry.Scan | switcher.py:195-206 | the loop builds a registry exactly when no window carries the program's own title and the kept windows fit the alphabet; the registry then holds exactly the kept windows, the i-th under the i-th letter with its badge, and the counter equals their number; a stop means a sentinel was present, a crash means more than ten kept windows |
| Registry.RegisteredExtend | switcher.py:205-206 | the next letter is never already a key, so storing the new switch extends the registry by exactly that window and overwrites nothing |
| Registry.VisitExtends | switcher.py:196-206 | one loop step on a non-sentinel window skips it when not eligible, registers it under the next letter when eligible and a letter is left, and fails when eligible with the alphabet used up |
| Registry.ScanStopsEarly | switcher.py:198 | once the loop has stopped, later windows change nothing |
| Registry.SentinelEndsRun | switcher.py:195-198 | a window titled with the program's sentinel, reached without an earlier stop, ends the run as "already running" whatever follows it |
| Registry.RegisteredWindowsEligible | switcher.py:199-206 | every registered switch is keyed by its own letter and holds an enumerated window that is not the sentinel, panel or desktop and is on the active workspace or on none |
| Selection.Select | switcher.py:208-239 | no switch: quit without activation; one switch: activate its window; two switches: activate the one switch whose window is not the active one, else the previously active window, else go interactive; more: interactive |
| Selection.ActivationTargets | switcher.py:212-239 | anything the policy activates is a registered window, or the previously active window in the two-switch case |
| Selection.TogglesBetweenTwo | switcher.py:222-234 | with two switches on different windows and one of them active, the other one is activated, never the active one |
| Selection.ActiveOutsideRegistry | switcher.py:225-239 | with two switches and an active window that neither holds, the previously active window is activated if known, and the interactive path is taken otherwise |
| Selection.ToSymbol | switcher.py:171-175 | the symbol has no lower-case ASCII letter; a name upper-casing to PERIOD becomes "."; any other name keeps its length and is upper-cased |
| Selection.ToSymbolIdempotent | switcher.py:171-175 | normalising a key name twice equals normalising it once |
| Selection.LetterKeys | switcher.py:171-175 | a key name reaches an upper-case letter label exactly when it is that letter in either case |
| Selection.PeriodKeys | switcher.py:171-175 | a key name reaches the "." label exactly when it is "." or upper-cases to PERIOD |
| Selection.HandleKey | switcher.py:177-189 | a window is activated exactly when the key has a name whose symbol is one character and a registered label; that switch's window is the one activated; otherwise nothing |
| Selection.KeyOfLabel | switcher.py:182-184 | pressing the key that types a registered label activates that switch's window |
| Selection.PressingLabelActivates | switcher.py:177-189 | in a registry built by the loop, the key of the i-th letter activates the i-th kept window |
| Layout.OverlapWithoutDivision | switcher.py:112-116 | the collision test with floor division equals 2·abs(Δx)+2 ≤ sum of widths and 2·abs(Δy)+2 ≤ sum of heights |
| Layout.OverlapSymmetric | switcher.py:112-116 | the collision test gives the same answer with its arguments swapped |
| Layout.SelfOverlap | switcher.py:112-116 | a badge collides with itself exactly when it is at least one unit wide and one unit high |
| Layout.Clamp | switcher.py:132-133 | a negative coordinate becomes 0; a non-negative one is kept |
| Layout.WorkingList | switcher.py:124-135 | one badge per letter among the first n letters (n the registry size, at most ten), in alphabet order, carrying that switch's letter, its window's corner clamped to the screen, and its badge size |
| Layout.SortByPosition | switcher.py:137 | the sort returns an ordering by x then y that is a permutation of its input |
| Layout.InsertSorted | switcher.py:137 | inserting a badge into an ordered list keeps it ordered |
| Layout.SortStable | switcher.py:137 | badges on the same corner keep their input order (Python's sort is stable) |
| Layout.SortLetters | switcher.py:137 | sorting neither loses nor adds a letter |
| Layout.Shift | switcher.py:141-148 | a non-colliding badge is unchanged; a colliding one moves on one axis only: right to prev.x + prev.wid + 4 when 3·(horizontal distance to clear) ≤ 4·(vertical distance to clear), else down to prev.y + prev.hei + 0; letter and size kept |
| Layout.WeightExact | switcher.py:145 | the integer test 3·dx ≤ 4·dy is exactly "dx ≤ dy · 4/3" in rational arithmetic |
| Layout.ShiftSeparates | switcher.py:141-148 | a badge no wider and no taller than the badge it collides with no longer collides with it after the shift |
| Layout.ShiftCanMoveLeft | switcher.py:143-146 | a concrete wide badge colliding with a narrow one is moved left by the shift |
| Layout.ShiftCanKeepOverlap | switcher.py:144-148 | a concrete colliding badge is left in place by the shift and still collides |
| Layout.Resolve | switcher.py:140-148 | checking a badge against the placed badges keeps its letter and size, and keeps it on the screen when all are on the screen |
| Layout.ResolveUntouched | switcher.py:140-141 | a badge that collides with no placed badge is not moved |
| Layout.Arrange | switcher.py:139-150 | one committed badge per sorted badge, in order, with the same letter and size; all on the screen when the input is |
| Layout.EarlierNeverModified | switcher.py:139-150 | committing later badges never changes earlier ones; the k-th badge is its sorted badge checked against the first k committed ones |
| Layout.ResidualOverlap | switcher.py:119-150 | three concrete badges of one size end with the third overlapping the first after the pass |
| Layout.TwoIdenticalBadges | switcher.py:137-150 | two equal badges on one corner: the first stays; the second moves right by width + 4 when 3·width ≤ 4·height, else down by height + 0 |
| Layout.WorkingListSizedBy | switcher.py:124-135 | every working-list badge names a registered letter and has that switch's badge size |
| Layout.PermutationSizedBy | switcher.py:137 | a reordering of badges keeps each badge's registered size |
| Layout.ArrangeSizedBy | switcher.py:139-150 | the shifting pass keeps each badge's registered size |
| Layout.ManageLayout | switcher.py:118-150 | the layout of a registry has one badge per laid-out switch, carries each working-list letter exactly as often, and keeps every badge on the screen; when every switch is stored under its own letter, each badge has its switch's badge size |
| Switcher.Respond | switcher.py:177-189 | the event that ends the wait activates at most one window, and only a registered one; focus loss activates none |
| Switcher.BuiltIsIndexable | switcher.py:125-126 | the layout's lookup of the first n letters (n the registry size) never misses for a registry built by the loop |
| Switcher.Invoke | switcher.py:192-243 | a whole run stops only on a sentinel, crashes only with more than ten kept windows, and otherwise activates at most one window: a kept one, or the previously active one in the two-window case; badges are laid out only when at least two windows are kept |
| Switcher.NoWindowsQuits | switcher.py:209-211 | with no window kept, nothing is activated and no badge is laid out |
| Switcher.OneWindowActivated | switcher.py:212-215 | with exactly one window kept, it is activated and no badge is laid out |
| Switcher.TwoWindowsToggle | switcher.py:216-234 | with two windows kept, the first active, the second is activated at once |
| Switcher.LayoutCoversRegistry | switcher.py:124-135 | the laid-out badges of a built registry carry the first k letters (k the number of kept windows), each exactly once |
| Switcher.KeyPressActivates | switcher.py:177-189 | with three to ten windows kept, badges are laid out for all of them, and the key of the i-th label activates the i-th kept window |

## Left out

- The popup badges, fonts, icons and the off-screen input window (switcher.py:49-76, 245-257) are not modelled: they are toolkit UI. A badge's rendered size is the `render` parameter.
- The wnck screen queries, `activate` calls and X server timestamps (switcher.py:33-34, 95-101, 193-194) are foreign calls.
  - Windows are records with ids; wnck object identity becomes id equality.
  - The window list, the active workspace, and the active and previously active windows are parameters.
  - Activation is the returned `Decision`/`Run` value.
- `sys.exit`, `exit()`, `gtk.main` and `gtk.main_quit` are process lifecycle. They become the terminal values `OtherInstance`, `Finished` and `Crashed`.
- The key-press and focus-out handlers are reduced to one `Event`. Either event ends the wait, so a run consumes exactly one.
  - A key the toolkit cannot name (`keyval_name` gives `None`) makes `None.upper()` raise inside the handler. The handler still quits, so it is modelled as a key that activates nothing.
- Shift: `Y_WEIGHT` is the float `4.0 / 3.0`. The model uses the exact comparison `3·dx ≤ 4·dy`. The two agree for integer distances far beyond any screen size (below about 2^48, ties included). Distances so large that the float product loses integer precision are not modelled.
- Upper: Python 2 `str.upper` on a byte string is modelled as ASCII-only upper-casing. Other characters are left unchanged, as in the C locale.
- The `if sw.get_switch_label() is None` check (switcher.py:127) is not modelled. A registered switch always has a letter, because a `None` label crashes before the switch is stored.
- Dead code is not modelled: the `LayoutManager.is_moved_to_x` assignment (switcher.py:142) and the string-literal block (switcher.py:155-165).
- The window's own width and height from `get_geometry` are not modelled, because the layout does not use them.
- Global non-overlap of the final layout is not claimed, because the code does not achieve it (see `ResidualOverlap`).
