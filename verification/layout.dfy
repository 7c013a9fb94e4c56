/**
 The badge layout: each switch's badge starts at its window's top-left
 corner clamped to the screen, the badges are stably sorted by (x, y), and a
 single greedy pass pushes each badge right or down past every earlier badge
 it overlaps.
 */
module Layout {
  import opened Wrappers
  import opened Labels
  import opened Registry

  /** Gap left to the right of a badge a later one is pushed past. */
  const MarginX: int := 4
  /** Gap left below a badge a later one is pushed past. */
  const MarginY: int := 0

  /** A badge as the layout pass sees it: its switch's letter, top-left corner and size. */
  datatype Box = Box(letter: char, x: int, y: int, wid: nat, hei: nat)

  function Abs(n: int): nat {
    if n < 0 then -n else n
  }

  /**
   Two badges collide when on both axes the distance between their corners
   is below half the sum of their extents (integer division, rounding down).
   */
  predicate Overlap(a: Box, b: Box) {
    && Abs(a.x - b.x) < (a.wid + b.wid) / 2
    && Abs(a.y - b.y) < (a.hei + b.hei) / 2
  }

  lemma FloorHalf(m: nat, n: nat)
    ensures m < n / 2 <==> 2 * m + 2 <= n
  {
    assert n == 2 * (n / 2) + n % 2;
  }

  /** The collision test without division: the rounding down costs one unit of slack. */
  lemma OverlapWithoutDivision(a: Box, b: Box)
    ensures Overlap(a, b) <==>
              && 2 * Abs(a.x - b.x) + 2 <= a.wid + b.wid
              && 2 * Abs(a.y - b.y) + 2 <= a.hei + b.hei
  {
    FloorHalf(Abs(a.x - b.x), a.wid + b.wid);
    FloorHalf(Abs(a.y - b.y), a.hei + b.hei);
  }

  /** The collision test does not depend on the order of its arguments. */
  lemma OverlapSymmetric(a: Box, b: Box)
    ensures Overlap(a, b) <==> Overlap(b, a)
  {
  }

  /** A badge collides with itself exactly when it has at least one unit of width and of height. */
  lemma SelfOverlap(a: Box)
    ensures Overlap(a, a) <==> a.wid >= 1 && a.hei >= 1
  {
    OverlapWithoutDivision(a, a);
  }

  predicate NonNeg(b: Box) {
    b.x >= 0 && b.y >= 0
  }

  predicate AllNonNeg(bs: seq<Box>) {
    forall i | 0 <= i < |bs| :: NonNeg(bs[i])
  }

  /** The switches the layout reads: the first `|reg|` letters must all be registered. */
  predicate Indexable(reg: Reg) {
    forall i | 0 <= i < |reg| && i < |Letters| :: Letters[i] in reg
  }

  function Min(a: int, b: int): int {
    if a < b then a else b
  }

  /** A coordinate moved onto the screen. */
  function Clamp(v: int): (r: nat)
    ensures v >= 0 ==> r == v
    ensures v < 0 ==> r == 0
  {
    if v < 0 then 0 else v
  }

  /**
   The working list: one badge per letter among the first `|reg|`, in
   alphabet order, at its window's corner clamped to the screen and with its
   badge's size.
   */
  function WorkingList(reg: Reg): (bs: seq<Box>)
    requires Indexable(reg)
    ensures |bs| == Min(|reg|, |Letters|)
    ensures AllNonNeg(bs)
    ensures forall i | 0 <= i < |bs| ::
              var sw := reg[Letters[i]];
              && bs[i].letter == sw.letter
              && bs[i].x == Clamp(sw.win.x) && bs[i].y == Clamp(sw.win.y)
              && bs[i].wid == sw.popup.wid && bs[i].hei == sw.popup.hei
  {
    var n := Min(|reg|, |Letters|);
    seq(n, i requires 0 <= i < n =>
      var sw := reg[Letters[i]];
      Box(sw.letter, Clamp(sw.win.x), Clamp(sw.win.y), sw.popup.wid, sw.popup.hei))
  }

  // ---------------------------------------------------------------- sorting

  /** The comparison of the sort: by x, then by y. */
  predicate Le(a: Box, b: Box) {
    a.x < b.x || (a.x == b.x && a.y <= b.y)
  }

  predicate Sorted(s: seq<Box>) {
    forall i, j | 0 <= i < j < |s| :: Le(s[i], s[j])
  }

  /** The badges of `s` whose corner is (x, y), in their order in `s`. */
  function At(s: seq<Box>, x: int, y: int): seq<Box> {
    if s == [] then []
    else
      var last := s[|s| - 1];
      At(s[..|s| - 1], x, y) + (if last.x == x && last.y == y then [last] else [])
  }

  lemma {:induction false} AtConcat(a: seq<Box>, b: seq<Box>, x: int, y: int)
    ensures At(a + b, x, y) == At(a, x, y) + At(b, x, y)
    decreases |b|
  {
    if b == [] {
      assert a + b == a;
    } else {
      var b' := b[..|b| - 1];
      assert (a + b)[..|a + b| - 1] == a + b';
      AtConcat(a, b', x, y);
    }
  }

  lemma {:induction false} AtNone(s: seq<Box>, x: int, y: int)
    requires forall i | 0 <= i < |s| :: s[i].x != x || s[i].y != y
    ensures At(s, x, y) == []
    decreases |s|
  {
    if s != [] {
      AtNone(s[..|s| - 1], x, y);
    }
  }

  /** Inserts `b` after every badge of `s` that does not come after it. */
  function Insert(s: seq<Box>, b: Box): (r: seq<Box>)
    ensures |r| == |s| + 1
    ensures multiset(r) == multiset(s) + multiset{b}
  {
    if s == [] then [b]
    else if Le(s[0], b) then
      assert s == [s[0]] + s[1..];
      [s[0]] + Insert(s[1..], b)
    else
      [b] + s
  }

  /** Inserting into an ordered list gives an ordered list. */
  lemma {:induction false} InsertSorted(s: seq<Box>, b: Box)
    requires Sorted(s)
    ensures Sorted(Insert(s, b))
    decreases |s|
  {
    if s != [] && Le(s[0], b) {
      var rest := Insert(s[1..], b);
      InsertSorted(s[1..], b);
      assert s == [s[0]] + s[1..];
      forall k | 0 <= k < |rest|
        ensures Le(s[0], rest[k])
      {
        assert rest[k] in multiset(rest);
        if rest[k] != b {
          assert rest[k] in multiset(s[1..]);
          var j :| 0 <= j < |s[1..]| && s[1..][j] == rest[k];
          assert s[j + 1] == rest[k];
        }
      }
      assert Insert(s, b) == [s[0]] + rest;
    }
  }

  lemma AtSingle(b: Box, x: int, y: int)
    ensures At([b], x, y) == if b.x == x && b.y == y then [b] else []
  {
    assert [b][..0] == [];
  }

  /** Inserting keeps the badges sharing a corner in their order, the new one last. */
  lemma {:induction false} InsertStable(s: seq<Box>, b: Box, x: int, y: int)
    requires Sorted(s)
    ensures At(Insert(s, b), x, y) == At(s, x, y) + At([b], x, y)
    decreases |s|
  {
    if s == [] {
      assert Insert(s, b) == [b];
      assert At(s, x, y) == [];
    } else if Le(s[0], b) {
      var rest := s[1..];
      assert s == [s[0]] + rest;
      assert Insert(s, b) == [s[0]] + Insert(rest, b);
      InsertStable(rest, b, x, y);
      AtConcat([s[0]], Insert(rest, b), x, y);
      AtConcat([s[0]], rest, x, y);
    } else {
      assert Insert(s, b) == [b] + s;
      AtConcat([b], s, x, y);
      AtSingle(b, x, y);
      if b.x == x && b.y == y {
        forall i | 0 <= i < |s|
          ensures s[i].x != x || s[i].y != y
        {
          assert i == 0 || Le(s[0], s[i]);
        }
        AtNone(s, x, y);
      }
    }
  }

  /**
   Python's stable list sort with the (x, y) comparison: the result is
   ordered, a permutation of the input, and badges sharing a corner keep
   their input order.
   */
  function SortByPosition(bs: seq<Box>): (r: seq<Box>)
    ensures |r| == |bs|
    ensures Sorted(r)
    ensures multiset(r) == multiset(bs)
    decreases |bs|
  {
    if bs == [] then []
    else
      assert bs == bs[..|bs| - 1] + [bs[|bs| - 1]];
      InsertSorted(SortByPosition(bs[..|bs| - 1]), bs[|bs| - 1]);
      Insert(SortByPosition(bs[..|bs| - 1]), bs[|bs| - 1])
  }

  lemma {:induction false} SortStable(bs: seq<Box>, x: int, y: int)
    ensures At(SortByPosition(bs), x, y) == At(bs, x, y)
    decreases |bs|
  {
    if bs != [] {
      var init, last := bs[..|bs| - 1], bs[|bs| - 1];
      assert bs == init + [last];
      SortStable(init, x, y);
      InsertStable(SortByPosition(init), last, x, y);
      AtConcat(init, [last], x, y);
      assert SortByPosition(bs) == Insert(SortByPosition(init), last);
    }
  }

  // ---------------------------------------------------------- greedy pass

  /**
   How badge `cur` moves past an earlier badge `prev`: not at all when they
   do not collide; otherwise on exactly one axis, to just right of `prev`
   (plus the horizontal margin) when the horizontal distance to clear is at
   most 4/3 of the vertical one, and to just below it (plus the vertical
   margin) otherwise. The margins are added after the comparison.
   */
  function Shift(cur: Box, prev: Box): (r: Box)
    ensures r.letter == cur.letter && r.wid == cur.wid && r.hei == cur.hei
    ensures !Overlap(cur, prev) ==> r == cur
    ensures Overlap(cur, prev) && 3 * (prev.x + prev.wid - cur.x) <= 4 * (prev.y + prev.hei - cur.y) ==>
              r.x == prev.x + prev.wid + MarginX && r.y == cur.y
    ensures Overlap(cur, prev) && 3 * (prev.x + prev.wid - cur.x) > 4 * (prev.y + prev.hei - cur.y) ==>
              r.x == cur.x && r.y == prev.y + prev.hei + MarginY
  {
    if !Overlap(cur, prev) then cur
    else if 3 * (prev.x + prev.wid - cur.x) <= 4 * (prev.y + prev.hei - cur.y) then
      cur.(x := prev.x + prev.wid + MarginX)
    else
      cur.(y := prev.y + prev.hei + MarginY)
  }

  /**
   The integer test of Shift is the comparison "horizontal distance at most
   vertical distance times 4/3" in exact rational arithmetic.
   */
  lemma WeightExact(dx: int, dy: int)
    ensures 3 * dx <= 4 * dy <==> (dx as real) <= (dy as real) * (4.0 / 3.0)
  {
  }

  /**
   A badge no larger than the one it collides with no longer collides with
   it after the shift.
   */
  lemma ShiftSeparates(cur: Box, prev: Box)
    requires cur.wid <= prev.wid && cur.hei <= prev.hei
    ensures !Overlap(Shift(cur, prev), prev)
  {
    var r := Shift(cur, prev);
    if Overlap(cur, prev) {
      if r.x == prev.x + prev.wid + MarginX && r.y == cur.y {
        assert (r.wid + prev.wid) / 2 <= prev.wid;
      } else {
        assert (r.hei + prev.hei) / 2 <= prev.hei;
      }
    }
  }

  /** The corner of `cur` after it has been checked against every placed badge, in order. */
  function Resolve(cur: Box, placed: seq<Box>): (r: Box)
    ensures r.letter == cur.letter && r.wid == cur.wid && r.hei == cur.hei
    ensures NonNeg(cur) && AllNonNeg(placed) ==> NonNeg(r)
    decreases |placed|
  {
    if placed == [] then cur
    else Resolve(Shift(cur, placed[0]), placed[1..])
  }

  /** A badge that collides with none of the placed badges stays where it is. */
  lemma {:induction false} ResolveUntouched(cur: Box, placed: seq<Box>)
    requires forall j | 0 <= j < |placed| :: !Overlap(cur, placed[j])
    ensures Resolve(cur, placed) == cur
    decreases |placed|
  {
    if placed != [] {
      ResolveUntouched(cur, placed[1..]);
    }
  }

  /**
   The pass over the sorted badges: each badge is checked against all the
   badges before it, at their final corners, and committed once; the result
   holds one committed badge per input badge, in the same order.
   */
  function Arrange(bs: seq<Box>): (r: seq<Box>)
    ensures |r| == |bs|
    ensures forall i | 0 <= i < |bs| ::
              r[i].letter == bs[i].letter && r[i].wid == bs[i].wid && r[i].hei == bs[i].hei
    ensures AllNonNeg(bs) ==> AllNonNeg(r)
    decreases |bs|
  {
    if bs == [] then []
    else
      var init := bs[..|bs| - 1];
      assert AllNonNeg(bs) ==> AllNonNeg(init);
      var p := Arrange(init);
      p + [Resolve(bs[|bs| - 1], p)]
  }

  /**
   Committing a badge never changes an earlier one: the first k committed
   badges are those of the pass over the first k sorted badges, and the
   k-th is its sorted badge checked against them.
   */
  lemma {:induction false} EarlierNeverModified(bs: seq<Box>, k: nat)
    requires k < |bs|
    ensures Arrange(bs)[..k] == Arrange(bs[..k])
    ensures Arrange(bs)[k] == Resolve(bs[k], Arrange(bs[..k]))
    decreases |bs|
  {
    var init := bs[..|bs| - 1];
    if k < |bs| - 1 {
      assert init[..k] == bs[..k];
      EarlierNeverModified(init, k);
    } else {
      assert init == bs[..k];
    }
  }

  /** A shift can move a badge left: a wide badge overlapping a narrow one is put just right of it. */
  lemma ShiftCanMoveLeft()
    ensures var prev := Box('U', 0, 0, 1, 1);
            var cur := Box('E', 6, 0, 13, 1);
            Shift(cur, prev).x < cur.x
  {
  }

  /**
   A shift can leave a colliding badge where it was: pushed down to the
   bottom of a one-unit badge it already sits on, a taller badge stays put
   and keeps colliding.
   */
  lemma ShiftCanKeepOverlap()
    ensures var prev := Box('U', 0, 0, 1, 1);
            var cur := Box('E', 0, 1, 1, 3);
            Overlap(cur, prev) && Shift(cur, prev) == cur
  {
  }

  /**
   The pass does not separate all badges, even of one size: the third badge
   is checked against the first, then shifted by the second back onto the first.
   */
  lemma ResidualOverlap()
    ensures var a := Box('U', 0, 1, 2, 1);
            var b := Box('E', 1, 0, 2, 1);
            var c := Box('I', 1, 0, 2, 1);
            var r := Arrange([a, b, c]);
            Sorted([a, b, c]) && !Overlap(c, a) && Overlap(r[2], r[0])
  {
    var a := Box('U', 0, 1, 2, 1);
    var b := Box('E', 1, 0, 2, 1);
    var c := Box('I', 1, 0, 2, 1);
    assert [a, b, c][..2] == [a, b];
    assert [a, b][..1] == [a];
    assert Arrange([a]) == [a];
    assert [a][1..] == [];
    assert Resolve(b, [a]) == b;
    assert Arrange([a, b]) == [a, b];
    assert [a, b][1..] == [b];
    assert Resolve(c, [a, b]) == Resolve(c, [b]);
    assert Resolve(c, [a, b]) == Box('I', 1, 1, 2, 1);
  }

  /**
   Two badges of one size (at least one unit each way) on one corner: the
   first stays, the second moves right by its width plus the horizontal
   margin when its width is at most 4/3 of its height, and down by its
   height plus the vertical margin otherwise.
   */
  lemma TwoIdenticalBadges(a: Box, b: Box)
    requires a.x == b.x && a.y == b.y && a.wid == b.wid && a.hei == b.hei
    requires a.wid >= 1 && a.hei >= 1
    ensures var r := Arrange(SortByPosition([a, b]));
            && r[0] == a
            && (3 * a.wid <= 4 * a.hei ==> r[1] == b.(x := b.x + b.wid + MarginX))
            && (3 * a.wid > 4 * a.hei ==> r[1] == b.(y := b.y + b.hei + MarginY))
  {
    assert [a, b][..1] == [a];
    assert SortByPosition([a]) == [a];
    assert SortByPosition([a, b]) == [a, b];
    assert [a, b][..1] == [a];
    assert Arrange([a]) == [a];
    assert [a][1..] == [];
    assert Arrange([a, b])[1] == Resolve(b, [a]) == Shift(b, a);
    SelfOverlap(a);
    assert Overlap(b, a);
  }

  /** The letters of the badges, in order. */
  function LettersOf(bs: seq<Box>): (r: seq<char>)
    ensures |r| == |bs|
  {
    seq(|bs|, i requires 0 <= i < |bs| => bs[i].letter)
  }

  lemma LettersOfConcat(a: seq<Box>, b: seq<Box>)
    ensures LettersOf(a + b) == LettersOf(a) + LettersOf(b)
  {
  }

  lemma {:induction false} InsertLetters(s: seq<Box>, b: Box)
    ensures multiset(LettersOf(Insert(s, b))) == multiset(LettersOf(s)) + multiset{b.letter}
    decreases |s|
  {
    if s == [] {
      assert LettersOf([b]) == [b.letter];
    } else if Le(s[0], b) {
      var rest := s[1..];
      assert s == [s[0]] + rest;
      assert Insert(s, b) == [s[0]] + Insert(rest, b);
      InsertLetters(rest, b);
      LettersOfConcat([s[0]], Insert(rest, b));
      LettersOfConcat([s[0]], rest);
    } else {
      assert Insert(s, b) == [b] + s;
      LettersOfConcat([b], s);
    }
  }

  /** Sorting moves badges but loses or adds none of their letters. */
  lemma {:induction false} SortLetters(bs: seq<Box>)
    ensures multiset(LettersOf(SortByPosition(bs))) == multiset(LettersOf(bs))
    decreases |bs|
  {
    if bs != [] {
      var init, last := bs[..|bs| - 1], bs[|bs| - 1];
      SortLetters(init);
      InsertLetters(SortByPosition(init), last);
      assert bs == init + [last];
      LettersOfConcat(init, [last]);
      assert LettersOf([last]) == [last.letter];
      assert SortByPosition(bs) == Insert(SortByPosition(init), last);
    }
  }

  /** Every badge is labelled with a registered letter and has that switch's badge size. */
  predicate SizedBy(bs: seq<Box>, reg: Reg) {
    forall i | 0 <= i < |bs| ::
      bs[i].letter in reg && bs[i].wid == reg[bs[i].letter].popup.wid && bs[i].hei == reg[bs[i].letter].popup.hei
  }

  lemma PermutationSizedBy(a: seq<Box>, b: seq<Box>, reg: Reg)
    requires multiset(a) == multiset(b)
    requires SizedBy(a, reg)
    ensures SizedBy(b, reg)
  {
    forall i | 0 <= i < |b|
      ensures b[i].letter in reg && b[i].wid == reg[b[i].letter].popup.wid && b[i].hei == reg[b[i].letter].popup.hei
    {
      assert b[i] in multiset(a);
      var j :| 0 <= j < |a| && a[j] == b[i];
    }
  }

  /** A registry whose switches sit under their own letters gives each working badge its switch's size. */
  lemma WorkingListSizedBy(reg: Reg)
    requires Indexable(reg)
    requires forall c | c in reg :: reg[c].letter == c
    ensures SizedBy(WorkingList(reg), reg)
  {
    var work := WorkingList(reg);
    forall i | 0 <= i < |work|
      ensures work[i].letter in reg && work[i].wid == reg[work[i].letter].popup.wid
              && work[i].hei == reg[work[i].letter].popup.hei
    {
      assert work[i].letter == reg[Letters[i]].letter == Letters[i];
    }
  }

  /** The pass keeps every badge's letter and size. */
  lemma ArrangeSizedBy(bs: seq<Box>, reg: Reg)
    ensures SizedBy(bs, reg) ==> SizedBy(Arrange(bs), reg)
  {
  }

  /**
   The whole layout of a registry: one committed badge per switch among the
   first `|reg|` letters, each switch's letter exactly as often as in the
   working list, all on the screen, and, when every switch is stored under
   its own letter, each with its switch's badge size.
   */
  function ManageLayout(reg: Reg): (r: seq<Box>)
    requires Indexable(reg)
    ensures |r| == Min(|reg|, |Letters|)
    ensures AllNonNeg(r)
    ensures multiset(LettersOf(r)) == multiset(LettersOf(WorkingList(reg)))
    ensures (forall c | c in reg :: reg[c].letter == c) ==> SizedBy(r, reg)
  {
    var work := WorkingList(reg);
    var sorted := SortByPosition(work);
    assert AllNonNeg(sorted) by {
      forall i | 0 <= i < |sorted|
        ensures NonNeg(sorted[i])
      {
        assert sorted[i] in multiset(work);
      }
    }
    assert (forall c | c in reg :: reg[c].letter == c) ==> SizedBy(sorted, reg) by {
      if forall c | c in reg :: reg[c].letter == c {
        WorkingListSizedBy(reg);
        PermutationSizedBy(work, sorted, reg);
      }
    }
    SortLetters(work);
    var r := Arrange(sorted);
    ArrangeSizedBy(sorted, reg);
    assert LettersOf(r) == LettersOf(sorted);
    r
  }
}
