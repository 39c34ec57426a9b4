/** The accordion as script.js runs it: the module-level `state` object with
    its three indices, and the per-item class lists and icon sources that the
    handlers change in place, here one array per kind of visual state, indexed
    like the stored lists of buttons, panels and icons. Every method is proved
    to do what the function of the same name in FaqState says, and the event
    handlers keep the visuals coherent with `expandedIndex`. */
module FaqAccordion {

  import opened FaqState
  import FaqProperties

  /** The items of a snapshot, read off the three per-item arrays. */
  function Zip(marks: seq<bool>, panels: seq<bool>, glyphs: seq<Icon>): (items: seq<ItemVisual>)
    requires |marks| == |panels| == |glyphs|
    ensures |items| == |marks|
    ensures forall i :: 0 <= i < |items| ==> items[i] == ItemVisual(marks[i], panels[i], glyphs[i])
  {
    seq(|marks|, i requires 0 <= i < |marks| => ItemVisual(marks[i], panels[i], glyphs[i]))
  }

  class Accordion {
    /** The number of loaded questions. */
    const n: nat
    /** The keyboard cursor. */
    var arrowIndex: Option<nat>
    /** The item of the last click on a trigger. */
    var clickIndex: Option<nat>
    /** The index the toggle last opened, tagged with the channel it came from. */
    var expandedIndex: Option<PanelIndex>
    /** Whether each trigger button carries the marked class. */
    const marked: array<bool>
    /** Whether each answer panel is expanded. */
    const expanded: array<bool>
    /** The glyph each toggle icon shows. */
    const icons: array<Icon>

    ghost predicate Shaped()
      reads this
    {
      marked.Length == n && expanded.Length == n && icons.Length == n && marked != expanded
    }

    /** The accordion's state as a value of the model. */
    ghost function Snapshot(): (s: State)
      requires Shaped()
      reads this, marked, expanded, icons
      ensures |s.items| == n
    {
      State(arrowIndex, clickIndex, expandedIndex, Zip(marked[..], expanded[..], icons[..]))
    }

    ghost predicate Valid()
      reads this, marked, expanded, icons
    {
      Shaped() && WellFormed(Snapshot())
    }

    /** The accordion right after `init` rendered `n` items: every item
        unmarked, collapsed, with the plus icon, and no index set. */
    constructor (n: nat)
      requires n > 0
      ensures Valid() && this.n == n && Snapshot() == Initial(n)
      ensures fresh(marked) && fresh(expanded) && fresh(icons)
    {
      this.n := n;
      arrowIndex, clickIndex, expandedIndex := None, None, None;
      marked := new bool[n](_ => false);
      expanded := new bool[n](_ => false);
      icons := new Icon[n](_ => Plus);
      new;
      assert Snapshot().items == Initial(n).items;
    }

    /** resetAccordion: a loop over every item that unmarks its button,
        collapses its panel and sets its icon to plus. */
    method ResetAccordion()
      requires Valid()
      modifies marked, expanded, icons
      ensures Valid() && Snapshot() == FaqState.ResetAccordion(old(Snapshot()))
    {
      for i := 0 to n
        invariant forall j :: 0 <= j < i ==> !marked[j] && !expanded[j] && icons[j] == Plus
      {
        marked[i] := false;
        expanded[i] := false;
        icons[i] := Plus;
      }
      assert Snapshot().items == FaqState.ResetAccordion(old(Snapshot())).items;
    }

    /** markElement: marks the button under the cursor. */
    method MarkElement()
      requires Valid() && arrowIndex.Some?
      modifies marked
      ensures Valid() && Snapshot() == FaqState.MarkElement(old(Snapshot()))
    {
      marked[arrowIndex.value] := true;
      assert Snapshot().items == FaqState.MarkElement(old(Snapshot())).items;
    }

    /** togglePanel: returns at once when `p` is the recorded index, and
        otherwise opens that panel, shows the minus icon and records `p`. */
    method TogglePanel(p: PanelIndex)
      requires Valid() && p.index < n
      modifies this`expandedIndex, expanded, icons
      ensures Valid() && Snapshot() == FaqState.TogglePanel(old(Snapshot()), p)
    {
      if expandedIndex == Some(p) {
        return;
      }
      expanded[p.index] := true;
      icons[p.index] := Minus;
      expandedIndex := Some(p);
      assert Snapshot().items == FaqState.TogglePanel(old(Snapshot()), p).items;
    }

    /** clickNavigation, for a click already resolved to the trigger it
        landed in, if any. */
    method ClickNavigation(trigger: Option<nat>)
      requires Valid() && InRange(trigger, n)
      modifies this`clickIndex, this`expandedIndex, marked, expanded, icons
      ensures Valid() && Snapshot() == FaqState.ClickNavigation(old(Snapshot()), trigger)
      ensures Coherent(Snapshot()) && AtMostOneOpen(Snapshot())
    {
      ghost var before := Snapshot();
      ResetAccordion();
      if trigger.Some? {
        clickIndex := trigger;
        TogglePanel(ByClick(trigger.value));
      }
      FaqProperties.StepCoherent(before, Click(trigger));
    }

    /** arrowNavigation. `threw` reports the TypeError raised when Enter is
        pressed with no cursor while `expandedIndex` is set; the reset has
        been applied by then and nothing else changes. */
    method ArrowNavigation(key: Key) returns (threw: bool)
      requires Valid()
      modifies this`arrowIndex, this`expandedIndex, marked, expanded, icons
      ensures Valid() && Snapshot() == FaqState.ArrowNavigation(old(Snapshot()), key)
      ensures threw == EnterThrows(old(Snapshot()), key)
      ensures Coherent(Snapshot()) && AtMostOneOpen(Snapshot())
    {
      ghost var before := Snapshot();
      ResetAccordion();
      ghost var reset := Snapshot();
      threw := false;
      if key == Up || key == Down {
        if arrowIndex.None? {
          if key == Up {
            arrowIndex := Some(n - 1);
            assert Snapshot() == reset.(arrowIndex := Some(MoveCursor(before.arrowIndex, key, n)));
            MarkElement();
          }
          if key == Down {
            arrowIndex := Some(0);
            assert Snapshot() == reset.(arrowIndex := Some(MoveCursor(before.arrowIndex, key, n)));
            MarkElement();
          }
        } else {
          if key == Down {
            arrowIndex := Some((arrowIndex.value + 1) % n);
            assert Snapshot() == reset.(arrowIndex := Some(MoveCursor(before.arrowIndex, key, n)));
            MarkElement();
          }
          if key == Up {
            if arrowIndex.value == 0 {
              arrowIndex := Some(n - 1);
            } else {
              arrowIndex := Some(arrowIndex.value - 1);
            }
            assert Snapshot() == reset.(arrowIndex := Some(MoveCursor(before.arrowIndex, key, n)));
            MarkElement();
          }
        }
      }
      if key == Enter {
        if arrowIndex.None? {
          // the toggle compares `undefined` with expandedIndex: equal only
          // while it is unset; otherwise it looks up a panel that is not there
          threw := expandedIndex.Some?;
        } else {
          TogglePanel(ByArrow(arrowIndex.value));
        }
      }
      FaqProperties.StepCoherent(before, KeyDown(key));
    }
  }
}
