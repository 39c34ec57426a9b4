/** What the accordion's handlers promise, proved about the value model in
    FaqState: the cursor stays on the list and wraps around, the reset is
    purely visual and idempotent, at most one panel is open after any event,
    re-activating the recorded index leaves every panel closed, and the arrow
    keys mark exactly one item. */
module FaqProperties {

  import opened FaqState

  /** The cursor after `k` presses of the same arrow key from `c`. */
  function Presses(c: nat, key: Key, k: nat, n: nat): (r: nat)
    requires c < n && (key == Up || key == Down)
    ensures r < n
    decreases k
  {
    if k == 0 then c else Presses(MoveCursor(Some(c), key, n), key, k - 1, n)
  }

  /** The quotient and remainder of `a` by `n` are the only ones with the
      remainder in [0, n). */
  lemma ModUnique(a: int, n: int, q: int, r: int)
    requires n > 0 && 0 <= r < n && a == q * n + r
    ensures a % n == r
  {
    var q', r' := a / n, a % n;
    assert (q - q') * n == r' - r;
    if q - q' >= 1 {
      assert (q - q') * n >= n by { MulAtLeast(q - q', n); }
    } else if q - q' <= -1 {
      assert (q' - q) * n >= n by { MulAtLeast(q' - q, n); }
    }
  }

  lemma MulAtLeast(m: int, n: int)
    requires m >= 1 && n > 0
    ensures m * n >= n
  {
  }

  lemma ModAddMultiple(b: int, q: int, n: int)
    requires n > 0
    ensures (q * n + b) % n == b % n
  {
    var d := b / n;
    assert b == d * n + b % n;
    assert q * n + b == (q + d) * n + b % n;
    ModUnique(q * n + b, n, q + d, b % n);
  }

  lemma SmallMod(x: int, n: int)
    requires 0 <= x < n
    ensures x % n == x
  {
    ModUnique(x, n, 0, x);
  }

  /** Moving the cursor from a set position: Down is +1 and Up is -1, both
      modulo the number of items. */
  lemma MoveCursorIsModular(i: nat, n: nat)
    requires i < n
    ensures MoveCursor(Some(i), Down, n) == (i + 1) % n
    ensures MoveCursor(Some(i), Up, n) == (i - 1) % n
  {
    if i == 0 {
      assert (i - 1) % n == n - 1 by { ModAddMultiple(n - 1, -1, n); }
    } else {
      assert (i - 1) % n == i - 1;
    }
  }

  /** The first press starts at an end of the list: Down at the top, Up at
      the bottom. */
  lemma FirstPress(n: nat)
    requires n > 0
    ensures MoveCursor(None, Down, n) == 0
    ensures MoveCursor(None, Up, n) == n - 1
  {
  }

  /** Up undoes Down and Down undoes Up, from every cursor position. */
  lemma UpUndoesDown(i: nat, n: nat)
    requires i < n
    ensures MoveCursor(Some(MoveCursor(Some(i), Down, n)), Up, n) == i
    ensures MoveCursor(Some(MoveCursor(Some(i), Up, n)), Down, n) == i
  {
    if i + 1 < n {
      SmallMod(i + 1, n);
    } else {
      ModUnique(i + 1, n, 1, 0);
    }
    if i == 0 {
      ModUnique(n, n, 1, 0);
    } else {
      SmallMod(i, n);
    }
  }

  /** `k` presses of Down move the cursor `k` places forward around the list,
      `k` presses of Up `k` places back. */
  lemma {:induction false} PressesWrap(c: nat, k: nat, n: nat)
    requires c < n
    ensures Presses(c, Down, k, n) == (c + k) % n
    ensures Presses(c, Up, k, n) == (c - k) % n
    decreases k
  {
    if k == 0 {
      SmallMod(c, n);
    } else {
      var d := MoveCursor(Some(c), Down, n);
      var u := MoveCursor(Some(c), Up, n);
      PressesWrap(d, k - 1, n);
      PressesWrap(u, k - 1, n);
      if c + 1 < n {
        SmallMod(c + 1, n);
        assert d == c + 1;
      } else {
        ModUnique(c + 1, n, 1, 0);
        assert d == 0;
        ModAddMultiple(k - 1, 1, n);
        assert 1 * n + (k - 1) == c + k;
      }
      if c == 0 {
        assert u == n - 1;
        ModAddMultiple(-(k as int), 1, n);
        assert 1 * n + -(k as int) == u - (k - 1);
      } else {
        assert u == c - 1;
      }
    }
  }

  /** Navigation is circular: as many presses of one arrow key as there are
      items bring the cursor back where it was. */
  lemma FullCircle(c: nat, n: nat)
    requires c < n
    ensures Presses(c, Down, n, n) == c
    ensures Presses(c, Up, n, n) == c
  {
    PressesWrap(c, n, n);
    SmallMod(c, n);
    ModAddMultiple(c, 1, n);
    assert 1 * n + c == c + n;
    ModAddMultiple(c, -1, n);
    assert -1 * n + c == c - n;
  }

  /** The reset is idempotent: a second reset changes nothing. */
  lemma ResetIdempotent(s: State)
    ensures ResetAccordion(ResetAccordion(s)) == ResetAccordion(s)
  {
  }

  /** After the reset nothing is open, nothing is marked, and the visual
      state is coherent with any recorded expansion. */
  lemma ResetCoherent(s: State)
    ensures Coherent(ResetAccordion(s)) && NoneOpen(ResetAccordion(s))
    ensures forall i :: 0 <= i < |ResetAccordion(s).items| ==> !ResetAccordion(s).items[i].marked
  {
  }

  lemma CoherentAtMostOneOpen(s: State)
    requires Coherent(s)
    ensures AtMostOneOpen(s)
  {
  }

  /** Toggling a coherent state whose panels are all closed leaves it
      coherent. */
  lemma ToggleKeepsCoherent(s: State, p: PanelIndex)
    requires p.index < |s.items| && Coherent(s) && NoneOpen(s)
    ensures Coherent(TogglePanel(s, p))
  {
  }

  /** Every handler resets before it toggles at most once, so whatever the
      state before the event, afterwards the visuals agree with the recorded
      expansion and at most one panel is open. */
  lemma {:induction false} StepCoherent(s: State, e: Event)
    requires WellFormed(s)
    requires e.Click? ==> InRange(e.trigger, |s.items|)
    ensures Coherent(Step(s, e)) && AtMostOneOpen(Step(s, e))
  {
    var reset := ResetAccordion(s);
    ResetCoherent(s);
    match e
    case Click(t) =>
      if t.Some? {
        ResetCoherent(reset.(clickIndex := t));
        ToggleKeepsCoherent(reset.(clickIndex := t), ByClick(t.value));
      }
    case KeyDown(k) =>
      if k == Up || k == Down {
        var moved := reset.(arrowIndex := Some(MoveCursor(s.arrowIndex, k, |s.items|)));
        assert NoneOpen(MarkElement(moved)) && Coherent(MarkElement(moved));
      } else if k == Enter && s.arrowIndex.Some? {
        ToggleKeepsCoherent(reset, ByArrow(s.arrowIndex.value));
      }
    CoherentAtMostOneOpen(Step(s, e));
  }

  /** A click on a trigger opens that item's panel, and only that one,
      exactly when the item is not the one a click recorded last in
      `expandedIndex`. */
  lemma ClickOpens(s: State, t: nat)
    requires WellFormed(s) && t < |s.items|
    ensures var r := ClickNavigation(s, Some(t));
      (forall i :: 0 <= i < |r.items| ==>
         (r.items[i].expanded <==> i == t && s.expandedIndex != Some(ByClick(t)))) &&
      r.expandedIndex == Some(ByClick(t)) && r.clickIndex == Some(t) &&
      (forall i :: 0 <= i < |r.items| ==> !r.items[i].marked)
  {
  }

  /** Enter on a cursor opens the item under it, and only that one, exactly
      when it is not the one the keyboard recorded last in `expandedIndex`. */
  lemma EnterOpens(s: State)
    requires WellFormed(s) && s.arrowIndex.Some?
    ensures var r := ArrowNavigation(s, Enter);
      (forall i :: 0 <= i < |r.items| ==>
         (r.items[i].expanded <==> i == s.arrowIndex.value && s.expandedIndex != Some(ByArrow(s.arrowIndex.value)))) &&
      r.expandedIndex == Some(ByArrow(s.arrowIndex.value)) && r.arrowIndex == s.arrowIndex &&
      (forall i :: 0 <= i < |r.items| ==> !r.items[i].marked) &&
      !EnterThrows(s, Enter)
  {
  }

  /** The fake toggle: a click on the trigger whose index a click recorded in
      `expandedIndex` closes every panel and keeps the recorded index. */
  lemma FakeToggleClick(s: State, t: nat)
    requires WellFormed(s) && t < |s.items|
    requires s.expandedIndex == Some(ByClick(t))
    ensures NoneOpen(ClickNavigation(s, Some(t)))
    ensures ClickNavigation(s, Some(t)).expandedIndex == s.expandedIndex
  {
    ClickOpens(s, t);
  }

  /** The fake toggle through the keyboard: Enter on the cursor the keyboard
      recorded in `expandedIndex` closes every panel and keeps the index. */
  lemma FakeToggleEnter(s: State)
    requires WellFormed(s) && s.arrowIndex.Some?
    requires s.expandedIndex == Some(ByArrow(s.arrowIndex.value))
    ensures NoneOpen(ArrowNavigation(s, Enter))
    ensures ArrowNavigation(s, Enter).expandedIndex == s.expandedIndex
  {
    EnterOpens(s);
  }

  /** The reset does not forget `expandedIndex`: after a click opened an item
      and a second click landed outside every trigger, clicking that item's
      trigger again opens nothing. */
  lemma StaleClickStaysClosed(s: State, t: nat)
    requires WellFormed(s) && t < |s.items|
    ensures var first := ClickNavigation(s, Some(t));
      var closed := ClickNavigation(first, None);
      NoneOpen(closed) && NoneOpen(ClickNavigation(closed, Some(t)))
  {
    var first := ClickNavigation(s, Some(t));
    var closed := ClickNavigation(first, None);
    assert closed.expandedIndex == Some(ByClick(t));
    FakeToggleClick(closed, t);
  }

  /** An index the click recorded never equals a keyboard index: Enter on the
      item a click has just opened opens it again instead of being a no-op. */
  lemma ChannelsNeverMatch(s: State, t: nat)
    requires WellFormed(s) && t < |s.items| && s.arrowIndex == Some(t)
    ensures var clicked := ClickNavigation(s, Some(t));
      var entered := ArrowNavigation(clicked, Enter);
      entered.items[t].expanded && entered.expandedIndex == Some(ByArrow(t))
  {
    var clicked := ClickNavigation(s, Some(t));
    assert clicked.expandedIndex == Some(ByClick(t));
    EnterOpens(clicked);
  }

  /** Up and Down move the cursor, mark exactly the item under it, open no
      panel, never throw, and leave `clickIndex` and `expandedIndex` alone. */
  lemma ArrowMarksOne(s: State, key: Key)
    requires WellFormed(s) && (key == Up || key == Down)
    ensures var r := ArrowNavigation(s, key);
      r.arrowIndex == Some(MoveCursor(s.arrowIndex, key, |s.items|)) &&
      (forall i :: 0 <= i < |r.items| ==> (r.items[i].marked <==> i == r.arrowIndex.value)) &&
      NoneOpen(r) &&
      r.expandedIndex == s.expandedIndex && r.clickIndex == s.clickIndex &&
      !EnterThrows(s, key)
  {
  }

  /** A click outside every trigger, or a key other than Up, Down and Enter,
      only resets the visuals. */
  lemma OnlyResets(s: State, e: Event)
    requires WellFormed(s)
    requires e == Click(None) || e == KeyDown(Other)
    ensures Step(s, e) == ResetAccordion(s)
  {
  }

  /** Enter with no cursor changes nothing beyond the reset, whether the
      toggle then returns quietly (no index recorded) or throws. */
  lemma EnterWithoutCursor(s: State)
    requires WellFormed(s) && s.arrowIndex.None?
    ensures ArrowNavigation(s, Enter) == ResetAccordion(s)
    ensures EnterThrows(s, Enter) <==> s.expandedIndex.Some?
  {
  }

  /** With three items: Down, Down, Enter opens the second item; Up moves the
      cursor to the first and closes it; Down and Enter on the second item
      then open nothing, because `expandedIndex` still names it. */
  lemma ThreeItemWalk()
    ensures var s0 := Initial(3);
      var s1 := Step(s0, KeyDown(Down));
      var s2 := Step(s1, KeyDown(Down));
      var s3 := Step(s2, KeyDown(Enter));
      var s4 := Step(s3, KeyDown(Up));
      var s5 := Step(s4, KeyDown(Down));
      var s6 := Step(s5, KeyDown(Enter));
      s1.arrowIndex == Some(0) && s2.arrowIndex == Some(1) &&
      s3.items[1].expanded && s3.expandedIndex == Some(ByArrow(1)) &&
      s4.arrowIndex == Some(0) && NoneOpen(s4) && s4.expandedIndex == Some(ByArrow(1)) &&
      s5.arrowIndex == Some(1) && NoneOpen(s6)
  {
    var s0 := Initial(3);
    var s1 := Step(s0, KeyDown(Down));
    var s2 := Step(s1, KeyDown(Down));
    var s3 := Step(s2, KeyDown(Enter));
    var s4 := Step(s3, KeyDown(Up));
    var s5 := Step(s4, KeyDown(Down));
    ArrowMarksOne(s0, Down);
    ArrowMarksOne(s1, Down);
    EnterOpens(s2);
    ArrowMarksOne(s3, Up);
    ArrowMarksOne(s4, Down);
    FakeToggleEnter(s5);
  }
}
