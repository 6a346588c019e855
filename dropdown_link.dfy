/** The social-link dropdown (`src/components/DropdownLink.jsx`): one
    `isOpen` flag driven by key presses on the trigger, clicks on the
    trigger and on the options, and mouse presses anywhere on the page. */
module DropdownLink {

  /** The events that reach the dropdown's handlers. */
  datatype Event =
    | KeyDown(key: string)
    | TriggerClick
    | MouseDown(insideContainer: bool)
    | OptionClick

  /** The trigger's `keydown` handler: Escape closes, then Enter or space
      toggles. */
  function AfterKey(open: bool, key: string): bool
  {
    var afterEscape := if key == "Escape" then false else open;
    if key == "Enter" || key == " " then !afterEscape else afterEscape
  }

  /** The state after one event. */
  function Transition(open: bool, e: Event): bool
  {
    match e
    case KeyDown(key) => AfterKey(open, key)
    case TriggerClick => !open
    case MouseDown(inside) => if inside then open else false
    case OptionClick => false
  }

  /** The state after a run of events. */
  function Run(open: bool, events: seq<Event>): bool
    decreases |events|
  {
    if events == [] then open else Run(Transition(open, events[0]), events[1..])
  }

  /** Escape, an option click and a press outside always leave it closed;
      Enter, space and a trigger click flip it; any other key and a press
      inside leave it as it was. */
  lemma TransitionTable(open: bool, e: Event)
    ensures e == KeyDown("Escape") || e == OptionClick || e == MouseDown(false) ==> !Transition(open, e)
    ensures e == KeyDown("Enter") || e == KeyDown(" ") || e == TriggerClick ==> Transition(open, e) == !open
    ensures (e.KeyDown? && e.key !in {"Escape", "Enter", " "}) || e == MouseDown(true) ==>
      Transition(open, e) == open
  {
  }

  /** A toggling event applied twice restores the state. */
  lemma ToggleTwice(open: bool, e: Event)
    requires e == KeyDown("Enter") || e == KeyDown(" ") || e == TriggerClick
    ensures Run(open, [e, e]) == open
  {
    assert [e, e][1..] == [e];
    assert [e][1..] == [];
    assert "Enter" != "Escape" && " " != "Escape";
    assert Transition(Transition(open, e), e) == open;
    assert Run(open, [e, e]) == Run(Transition(open, e), [e]);
    assert Run(Transition(open, e), [e]) == Run(Transition(Transition(open, e), e), []);
  }

  /** A run that ends in a closing event ends closed, whatever came
      before. */
  lemma {:induction false} RunEndsClosed(open: bool, events: seq<Event>, last: Event)
    requires last == KeyDown("Escape") || last == OptionClick || last == MouseDown(false)
    ensures !Run(open, events + [last])
    decreases |events|
  {
    if events == [] {
      assert [last][1..] == [];
    } else {
      assert (events + [last])[1..] == events[1..] + [last];
      RunEndsClosed(Transition(open, events[0]), events[1..], last);
    }
  }

  /** The component's state. */
  class Dropdown {
    var isOpen: bool

    constructor ()
      ensures !isOpen
    {
      isOpen := false;
    }

    /** `handleKeyDown`. */
    method KeyDown(key: string)
      modifies this
      ensures isOpen == Transition(old(isOpen), Event.KeyDown(key))
    {
      if key == "Escape" {
        isOpen := false;
      }
      if key == "Enter" || key == " " {
        isOpen := !isOpen;
      }
    }

    /** The trigger's `onClick`. */
    method ClickTrigger()
      modifies this
      ensures isOpen == Transition(old(isOpen), TriggerClick)
    {
      isOpen := !isOpen;
    }

    /** `handleClickOutside` for a `mousedown` anywhere in the document. */
    method MouseDownAt(insideContainer: bool)
      modifies this
      ensures isOpen == Transition(old(isOpen), MouseDown(insideContainer))
    {
      if !insideContainer {
        isOpen := false;
      }
    }

    /** An option's `onClick`. */
    method ClickOption()
      modifies this
      ensures isOpen == Transition(old(isOpen), OptionClick)
    {
      isOpen := false;
    }

    /** The menu is in the tree exactly when the dropdown is open. */
    predicate MenuRendered()
      reads this
    {
      isOpen
    }

    /** `aria-expanded` mirrors the state. */
    function AriaExpanded(): (expanded: string)
      reads this
      ensures expanded == "true" <==> MenuRendered()
      ensures expanded == "false" <==> !MenuRendered()
    {
      if isOpen then "true" else "false"
    }
  }
}
