/** The hamburger menu (js/index.js:29-74): two marker classes, one on the
    dropdown panel and one on its trigger button, switched by four listeners. */
module Menu {

  /** Whether the panel carries `nav-bar__hamburger--active` and whether the
      trigger carries `nav-bar__nav-link--active`. */
  datatype MenuState = MenuState(panelActive: bool, buttonActive: bool)

  /** The events the listeners react to. A document click carries where its
      target lies: inside the panel, and inside the trigger. */
  datatype MenuEvent =
    | TriggerClick
    | DocumentClick(insidePanel: bool, onButton: bool)
    | PanelLinkClick
    | KeyDown(key: string)

  const Closed := MenuState(false, false)

  /** Panel and trigger agree: both marked (open) or both unmarked (closed). */
  predicate Synced(s: MenuState) {
    s.panelActive == s.buttonActive
  }

  /** The state after one listener has run. */
  function Transition(s: MenuState, ev: MenuEvent): MenuState {
    match ev
    case TriggerClick => MenuState(!s.panelActive, !s.buttonActive)
    case DocumentClick(insidePanel, onButton) =>
      if !s.panelActive then s
      else if !insidePanel && !onButton then Closed
      else s
    case PanelLinkClick => Closed
    case KeyDown(key) => if key == "Escape" && s.panelActive then Closed else s
  }

  /** The state after a sequence of events, taken in dispatch order. */
  function RunEvents(s: MenuState, events: seq<MenuEvent>): MenuState
    decreases |events|
  {
    if |events| == 0 then s else Transition(RunEvents(s, events[..|events| - 1]), events[|events| - 1])
  }

  /** Every listener keeps panel and trigger in step. */
  lemma TransitionSynced(s: MenuState, ev: MenuEvent)
    requires Synced(s)
    ensures Synced(Transition(s, ev))
  {
  }

  /** Panel and trigger stay in step over any sequence of events. */
  lemma {:induction false} RunEventsSynced(s: MenuState, events: seq<MenuEvent>)
    requires Synced(s)
    decreases |events|
    ensures Synced(RunEvents(s, events))
  {
    if |events| > 0 {
      RunEventsSynced(s, events[..|events| - 1]);
      TransitionSynced(RunEvents(s, events[..|events| - 1]), events[|events| - 1]);
    }
  }

  /** Each trigger click flips the panel exactly once: after `n` clicks the
      panel is open exactly when it started open and `n` is even, or started
      closed and `n` is odd. */
  lemma {:induction false} TriggerClicksAlternate(s: MenuState, events: seq<MenuEvent>)
    requires forall k :: 0 <= k < |events| ==> events[k] == TriggerClick
    decreases |events|
    ensures RunEvents(s, events).panelActive == (s.panelActive != (|events| % 2 == 1))
    ensures RunEvents(s, events).buttonActive == (s.buttonActive != (|events| % 2 == 1))
  {
    if |events| > 0 {
      var front := events[..|events| - 1];
      assert forall k :: 0 <= k < |front| ==> front[k] == events[k];
      TriggerClicksAlternate(s, front);
    }
  }

  /** A closed menu opens only on a trigger click. */
  lemma OnlyTriggerOpens(s: MenuState, ev: MenuEvent)
    requires !s.panelActive && Transition(s, ev).panelActive
    ensures ev == TriggerClick
  {
  }

  /** An open menu closes on a trigger click, on a click outside both panel
      and trigger, on a panel-link click and on Escape; every other event
      leaves it as it is. */
  lemma OpenCloses(s: MenuState, ev: MenuEvent)
    requires Synced(s) && s.panelActive
    ensures Transition(s, ev) == Closed <==>
      || ev == TriggerClick
      || (ev.DocumentClick? && !ev.insidePanel && !ev.onButton)
      || ev == PanelLinkClick
      || ev == KeyDown("Escape")
    ensures Transition(s, ev) != Closed ==> Transition(s, ev) == s
  {
  }

  /** The outside-click listener ignores a click in the panel or on the
      trigger, and any click while the panel is closed. */
  lemma DocumentClickIgnored(s: MenuState, insidePanel: bool, onButton: bool)
    requires insidePanel || onButton || !s.panelActive
    ensures Transition(s, DocumentClick(insidePanel, onButton)) == s
  {
  }

  /** Escape while closed, and any other key, change nothing. */
  lemma KeyDownIgnored(s: MenuState, key: string)
    requires key != "Escape" || !s.panelActive
    ensures Transition(s, KeyDown(key)) == s
  {
  }

  /** The marker classes of the panel and the trigger, switched by the listeners. */
  class HamburgerMenu {
    var panelActive: bool
    var buttonActive: bool

    function State(): MenuState
      reads this
    {
      MenuState(panelActive, buttonActive)
    }

    /** The classes as the page's markup sets them. */
    constructor (panelActive: bool, buttonActive: bool)
      ensures State() == MenuState(panelActive, buttonActive)
    {
      this.panelActive := panelActive;
      this.buttonActive := buttonActive;
    }

    /** Click on the trigger: toggles both classes. */
    method OnTriggerClick()
      modifies this
      ensures State() == Transition(old(State()), TriggerClick)
      ensures panelActive == !old(panelActive) && buttonActive == !old(buttonActive)
    {
      panelActive := !panelActive;
      buttonActive := !buttonActive;
    }

    /** Click anywhere in the document: closes an open panel when the target
        lies outside both the panel and the trigger. */
    method OnDocumentClick(insidePanel: bool, onButton: bool)
      modifies this
      ensures State() == Transition(old(State()), DocumentClick(insidePanel, onButton))
      ensures old(panelActive) && !insidePanel && !onButton ==> State() == Closed
      ensures !(old(panelActive) && !insidePanel && !onButton) ==> State() == old(State())
    {
      if !panelActive {
        return;
      }
      if !insidePanel && !onButton {
        panelActive := false;
        buttonActive := false;
      }
    }

    /** Click on a link inside the panel: always closes the menu. */
    method OnPanelLinkClick()
      modifies this
      ensures State() == Transition(old(State()), PanelLinkClick)
      ensures State() == Closed
    {
      panelActive := false;
      buttonActive := false;
    }

    /** Key press anywhere in the document: Escape closes an open menu. */
    method OnKeyDown(key: string)
      modifies this
      ensures State() == Transition(old(State()), KeyDown(key))
      ensures key == "Escape" && old(panelActive) ==> State() == Closed
      ensures !(key == "Escape" && old(panelActive)) ==> State() == old(State())
    {
      if key == "Escape" && panelActive {
        panelActive := false;
        buttonActive := false;
      }
    }
  }
}
