/** The FAQ accordion's interaction state machine, as values.

    A state holds the three indices of the module-level `state` object of
    script.js (the keyboard cursor `arrowIndex`, the last clicked item
    `clickIndex`, and `expandedIndex`, the index last opened by the toggle)
    together with the visual state of every item: whether its trigger button
    carries the "marked" class, whether its answer panel is expanded, and which
    glyph its toggle icon shows. The number of items is the length of `items`.

    Each handler of the source is a function here; the class in FaqAccordion
    runs the same handlers in place over arrays and is proved against these
    functions. */
module FaqState {

  datatype Option<T> = None | Some(value: T)

  /** The two icon assets a toggle icon can show. */
  datatype Icon = Plus | Minus

  /** What one item looks like: its button marked by the keyboard cursor,
      its panel expanded or collapsed, its icon. */
  datatype ItemVisual = ItemVisual(marked: bool, expanded: bool, icon: Icon)

  /** An item as the reset leaves it, and as the initial markup renders it. */
  const Cleared := ItemVisual(false, false, Plus)

  /** `expandedIndex` remembers the index the toggle was called with. A click
      passes the string taken from the item's id and the keyboard passes the
      number `arrowIndex`; the source compares them with `===`, so an index
      recorded by one channel never equals an index of the other. */
  datatype PanelIndex = ByClick(index: nat) | ByArrow(index: nat)

  datatype Key = Up | Down | Enter | Other

  /** A keydown, or a click already resolved to the item whose trigger it
      landed in (None when it landed outside every trigger). */
  datatype Event = KeyDown(key: Key) | Click(trigger: Option<nat>)

  datatype State = State(
    arrowIndex: Option<nat>,
    clickIndex: Option<nat>,
    expandedIndex: Option<PanelIndex>,
    items: seq<ItemVisual>)

  predicate InRange(o: Option<nat>, n: nat)
  {
    o.Some? ==> o.value < n
  }

  /** A loaded list with at least one item, every index pointing into it. */
  predicate WellFormed(s: State)
  {
    |s.items| > 0 &&
    InRange(s.arrowIndex, |s.items|) &&
    InRange(s.clickIndex, |s.items|) &&
    (s.expandedIndex.Some? ==> s.expandedIndex.value.index < |s.items|)
  }

  /** The state right after the list is rendered: no index set, every item
      unmarked, collapsed, with the plus icon. */
  function Initial(n: nat): (s: State)
    requires n > 0
    ensures WellFormed(s) && |s.items| == n
    ensures s.arrowIndex == None && s.clickIndex == None && s.expandedIndex == None
    ensures forall i :: 0 <= i < n ==> s.items[i] == Cleared
  {
    State(None, None, None, seq(n, _ => Cleared))
  }

  /** resetAccordion: every button unmarked, every panel collapsed, every icon
      plus. It touches no index; in particular `expandedIndex` survives. */
  function ResetAccordion(s: State): (r: State)
    ensures |r.items| == |s.items|
    ensures forall i :: 0 <= i < |r.items| ==>
              !r.items[i].marked && !r.items[i].expanded && r.items[i].icon == Plus
    ensures r.arrowIndex == s.arrowIndex && r.clickIndex == s.clickIndex
    ensures r.expandedIndex == s.expandedIndex
  {
    s.(items := seq(|s.items|, _ => Cleared))
  }

  /** The cursor after an Up or Down key: the first Down starts at the top,
      the first Up at the bottom; afterwards both wrap around. */
  function MoveCursor(cursor: Option<nat>, key: Key, n: nat): (c: nat)
    requires n > 0 && InRange(cursor, n)
    requires key == Up || key == Down
    ensures c < n
  {
    match cursor
    case None => if key == Up then n - 1 else 0
    case Some(i) =>
      if key == Down then (i + 1) % n
      else if i == 0 then n - 1
      else i - 1
  }

  /** markElement: adds the marked class to the button under the cursor. */
  function MarkElement(s: State): (r: State)
    requires s.arrowIndex.Some? && s.arrowIndex.value < |s.items|
    ensures r.arrowIndex == s.arrowIndex && r.clickIndex == s.clickIndex
    ensures r.expandedIndex == s.expandedIndex && |r.items| == |s.items|
    ensures r.items[s.arrowIndex.value] == s.items[s.arrowIndex.value].(marked := true)
    ensures forall i :: 0 <= i < |s.items| && i != s.arrowIndex.value ==> r.items[i] == s.items[i]
  {
    var c := s.arrowIndex.value;
    s.(items := s.items[c := s.items[c].(marked := true)])
  }

  /** togglePanel: nothing happens when the index is the one recorded in
      `expandedIndex`; otherwise that one panel opens, its icon turns to
      minus, and the index is recorded. No other item changes. */
  function TogglePanel(s: State, p: PanelIndex): (r: State)
    requires p.index < |s.items|
    ensures s.expandedIndex == Some(p) ==> r == s
    ensures s.expandedIndex != Some(p) ==>
              r.expandedIndex == Some(p) && |r.items| == |s.items| &&
              r.items[p.index] == s.items[p.index].(expanded := true, icon := Minus) &&
              forall i :: 0 <= i < |s.items| && i != p.index ==> r.items[i] == s.items[i]
    ensures r.arrowIndex == s.arrowIndex && r.clickIndex == s.clickIndex
  {
    if s.expandedIndex == Some(p) then s
    else
      var i := p.index;
      s.(items := s.items[i := s.items[i].(expanded := true, icon := Minus)],
         expandedIndex := Some(p))
  }

  /** clickNavigation: reset, then, for a click inside a trigger, record the
      item as `clickIndex` and toggle it. */
  function ClickNavigation(s: State, trigger: Option<nat>): (r: State)
    requires WellFormed(s) && InRange(trigger, |s.items|)
    ensures WellFormed(r) && |r.items| == |s.items|
    ensures r.arrowIndex == s.arrowIndex
    ensures r.clickIndex == if trigger.Some? then trigger else s.clickIndex
  {
    var reset := ResetAccordion(s);
    match trigger
    case None => reset
    case Some(t) => TogglePanel(reset.(clickIndex := trigger), ByClick(t))
  }

  /** arrowNavigation: reset; Up and Down move the cursor and mark the item
      under it; Enter toggles the item under the cursor; other keys do nothing
      more. Enter with no cursor passes `undefined` to the toggle, which
      returns at once while `expandedIndex` is unset too and otherwise throws
      (see EnterThrows); the state is then the reset one either way. */
  function ArrowNavigation(s: State, key: Key): (r: State)
    requires WellFormed(s)
    ensures WellFormed(r) && |r.items| == |s.items|
    ensures r.clickIndex == s.clickIndex
    ensures key != Up && key != Down ==> r.arrowIndex == s.arrowIndex
  {
    var reset := ResetAccordion(s);
    match key
    case Up => MarkElement(reset.(arrowIndex := Some(MoveCursor(s.arrowIndex, Up, |s.items|))))
    case Down => MarkElement(reset.(arrowIndex := Some(MoveCursor(s.arrowIndex, Down, |s.items|))))
    case Enter =>
      (match s.arrowIndex
       case None => reset
       case Some(a) => TogglePanel(reset, ByArrow(a)))
    case Other => reset
  }

  /** Enter with no cursor while `expandedIndex` is set: the toggle looks up
      the panel of index `undefined`, finds none, and the handler throws a
      TypeError after the reset has been applied. */
  predicate EnterThrows(s: State, key: Key)
  {
    key == Enter && s.arrowIndex.None? && s.expandedIndex.Some?
  }

  /** One input event, dispatched to its handler. */
  function Step(s: State, e: Event): (r: State)
    requires WellFormed(s)
    requires e.Click? ==> InRange(e.trigger, |s.items|)
    ensures WellFormed(r) && |r.items| == |s.items|
  {
    match e
    case Click(t) => ClickNavigation(s, t)
    case KeyDown(k) => ArrowNavigation(s, k)
  }

  /** The visual state agrees with the single recorded expansion: a panel is
      expanded only if it is the one `expandedIndex` names, and an icon shows
      minus exactly when its panel is expanded. */
  predicate Coherent(s: State)
  {
    (forall i :: 0 <= i < |s.items| && s.items[i].expanded ==>
       s.expandedIndex.Some? && s.expandedIndex.value.index == i) &&
    (forall i :: 0 <= i < |s.items| ==> (s.items[i].expanded <==> s.items[i].icon == Minus))
  }

  predicate AtMostOneOpen(s: State)
  {
    forall i, j ::
      0 <= i < |s.items| && 0 <= j < |s.items| && s.items[i].expanded && s.items[j].expanded
      ==> i == j
  }

  predicate NoneOpen(s: State)
  {
    forall i :: 0 <= i < |s.items| ==> !s.items[i].expanded
  }
}
