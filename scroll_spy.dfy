/** The scroll-spy (js/index.js:100-166): which sections are observed, and how
    each batch of intersection entries moves the highlight between nav links.
    Sections are identified by their index among the page's `<section>`
    elements (index 0 is the hero section) and links by their index among the
    tracked nav links. */
module ScrollSpy {
  import opened Wrappers
  import opened JsString
  import opened JsArray
  import opened NavLinks

  /** One intersection record, reduced to the section it reports on and
      whether that section now lies in the active region of the viewport. */
  datatype Entry = Entry(target: nat, isIntersecting: bool)

  /** The highlight state: the current active link, the active flag of every
      tracked link, and the sections still being observed. */
  datatype SpyState = SpyState(current: Option<nat>, active: seq<bool>, observed: set<nat>)

  /** A section whose trimmed id is non-empty and names a key of the map. */
  predicate Tracked(navLinkMap: map<string, nat>, id: string) {
    var t := Trim(id);
    t != "" && t in navLinkMap
  }

  /** The nav link a tracked section maps to. */
  function LinkOf(navLinkMap: map<string, nat>, id: string): nat
    requires Tracked(navLinkMap, id)
  {
    navLinkMap[Trim(id)]
  }

  /** Every link the map or the current reference names has a flag. */
  predicate InRange(navLinkMap: map<string, nat>, s: SpyState) {
    && (forall key :: key in navLinkMap ==> navLinkMap[key] < |s.active|)
    && (s.current.Some? ==> s.current.value < |s.active|)
  }

  /** The current active link, if any, carries the active flag. */
  predicate CurrentFlagged(s: SpyState) {
    s.current.Some? ==> s.current.value < |s.active| && s.active[s.current.value]
  }

  /** The invariant of the highlight: exactly the current active link, if any,
      carries the active flag. */
  predicate Exclusive(s: SpyState) {
    forall i :: 0 <= i < |s.active| ==> (s.active[i] <==> s.current == Some(i))
  }

  predicate EntriesInRange(sections: seq<string>, entries: seq<Entry>) {
    forall k :: 0 <= k < |entries| ==> entries[k].target < |sections|
  }

  /** The effect of one entry of a callback batch. */
  function Step(navLinkMap: map<string, nat>, sections: seq<string>, s: SpyState, e: Entry): (r: SpyState)
    requires e.target < |sections| && InRange(navLinkMap, s)
    ensures InRange(navLinkMap, r) && |r.active| == |s.active|
  {
    var id := sections[e.target];
    if !Tracked(navLinkMap, id) then
      s.(observed := s.observed - {e.target})
    else
      var link := LinkOf(navLinkMap, id);
      if !e.isIntersecting then
        if s.current == Some(link) then s.(current := None, active := s.active[link := false]) else s
      else if s.current == Some(link) then
        s
      else
        var cleared := if s.current.Some? then s.active[s.current.value := false] else s.active;
        s.(current := Some(link), active := cleared[link := true])
  }

  /** The effect of a whole batch, its entries taken in delivery order. */
  function Run(navLinkMap: map<string, nat>, sections: seq<string>, s: SpyState, entries: seq<Entry>): (r: SpyState)
    requires EntriesInRange(sections, entries) && InRange(navLinkMap, s)
    decreases |entries|
    ensures InRange(navLinkMap, r) && |r.active| == |s.active|
  {
    if |entries| == 0 then s
    else
      var last := |entries| - 1;
      Step(navLinkMap, sections, Run(navLinkMap, sections, s, entries[..last]), entries[last])
  }

  /** The sections a batch stops observing: those its untracked entries report on. */
  function Unobserved(navLinkMap: map<string, nat>, sections: seq<string>, entries: seq<Entry>): set<nat>
    requires EntriesInRange(sections, entries)
    decreases |entries|
  {
    if |entries| == 0 then {}
    else
      var last := |entries| - 1;
      var front := Unobserved(navLinkMap, sections, entries[..last]);
      if Tracked(navLinkMap, sections[entries[last].target]) then front else front + {entries[last].target}
  }

  /** Registers every section but the first whose trimmed id is a key of the map. */
  method ObserveSections(sections: seq<string>, navLinkMap: map<string, nat>) returns (observed: set<nat>)
    ensures forall i :: i in observed <==> 1 <= i < |sections| && Tracked(navLinkMap, sections[i])
  {
    var candidates := DropFirst(sections);
    observed := {};
    for k := 0 to |candidates|
      invariant forall i :: i in observed <==> 1 <= i <= k && Tracked(navLinkMap, sections[i])
    {
      var sectionId := Trim(candidates[k]);
      if sectionId != "" && sectionId in navLinkMap {
        observed := observed + {k + 1};
      }
    }
  }

  /** An entry for a section with a blank or unknown id stops observing that
      section and leaves the highlight alone. */
  lemma StepUntracked(navLinkMap: map<string, nat>, sections: seq<string>, s: SpyState, e: Entry)
    requires e.target < |sections| && InRange(navLinkMap, s)
    requires !Tracked(navLinkMap, sections[e.target])
    ensures var r := Step(navLinkMap, sections, s, e);
      r.current == s.current && r.active == s.active && r.observed == s.observed - {e.target}
  {
  }

  /** An exit clears the highlight only if it is on the exiting section's link;
      no other link is promoted, and nothing else changes. */
  lemma StepExit(navLinkMap: map<string, nat>, sections: seq<string>, s: SpyState, e: Entry)
    requires e.target < |sections| && InRange(navLinkMap, s)
    requires Tracked(navLinkMap, sections[e.target]) && !e.isIntersecting
    ensures var r := Step(navLinkMap, sections, s, e);
      var link := LinkOf(navLinkMap, sections[e.target]);
      && r.observed == s.observed
      && r.current != Some(link)
      && (s.current != Some(link) ==> r == s)
      && (s.current == Some(link) ==> r.current == None && !r.active[link])
      && forall i :: 0 <= i < |s.active| && i != link ==> r.active[i] == s.active[i]
  {
  }

  /** An entry moves the highlight to its section's link: repeated for the
      current link it changes nothing, and otherwise it clears the previous
      link, sets the new one and touches no other flag. */
  lemma StepEnter(navLinkMap: map<string, nat>, sections: seq<string>, s: SpyState, e: Entry)
    requires e.target < |sections| && InRange(navLinkMap, s)
    requires Tracked(navLinkMap, sections[e.target]) && e.isIntersecting
    ensures var r := Step(navLinkMap, sections, s, e);
      var link := LinkOf(navLinkMap, sections[e.target]);
      && r.observed == s.observed
      && r.current == Some(link)
      && (s.current == Some(link) ==> r == s)
      && (s.current != Some(link) ==> r.active[link])
      && (s.current.Some? && s.current != Some(link) ==> !r.active[s.current.value])
      && forall i :: 0 <= i < |s.active| && i != link && s.current != Some(i) ==> r.active[i] == s.active[i]
  {
  }

  /** Delivering the same entry twice has the effect of delivering it once. */
  lemma StepIdempotent(navLinkMap: map<string, nat>, sections: seq<string>, s: SpyState, e: Entry)
    requires e.target < |sections| && InRange(navLinkMap, s)
    ensures var r := Step(navLinkMap, sections, s, e);
      Step(navLinkMap, sections, r, e) == r
  {
  }

  /** Each entry keeps the current active link flagged. */
  lemma StepCurrentFlagged(navLinkMap: map<string, nat>, sections: seq<string>, s: SpyState, e: Entry)
    requires e.target < |sections| && InRange(navLinkMap, s)
    requires CurrentFlagged(s)
    ensures CurrentFlagged(Step(navLinkMap, sections, s, e))
  {
  }

  /** Each entry keeps the highlight exclusive. */
  lemma StepExclusive(navLinkMap: map<string, nat>, sections: seq<string>, s: SpyState, e: Entry)
    requires e.target < |sections| && InRange(navLinkMap, s)
    requires Exclusive(s)
    ensures Exclusive(Step(navLinkMap, sections, s, e))
  {
  }

  /** A batch keeps the highlight exclusive after every entry, so at most one
      link is highlighted at the end of it. */
  lemma {:induction false} RunExclusive(navLinkMap: map<string, nat>, sections: seq<string>, s: SpyState, entries: seq<Entry>)
    requires EntriesInRange(sections, entries) && InRange(navLinkMap, s)
    requires Exclusive(s)
    decreases |entries|
    ensures Exclusive(Run(navLinkMap, sections, s, entries))
  {
    if |entries| > 0 {
      var last := |entries| - 1;
      RunExclusive(navLinkMap, sections, s, entries[..last]);
      StepExclusive(navLinkMap, sections, Run(navLinkMap, sections, s, entries[..last]), entries[last]);
    }
  }

  /** A section leaves the observed set exactly when some entry of the batch
      reports on it while its id is blank or has no nav link. */
  lemma {:induction false} UnobservedSpec(navLinkMap: map<string, nat>, sections: seq<string>, entries: seq<Entry>, t: nat)
    requires EntriesInRange(sections, entries)
    decreases |entries|
    ensures t in Unobserved(navLinkMap, sections, entries) <==>
      exists k :: 0 <= k < |entries| && entries[k].target == t && !Tracked(navLinkMap, sections[entries[k].target])
  {
    if |entries| > 0 {
      var last := |entries| - 1;
      var front := entries[..last];
      var u := Unobserved(navLinkMap, sections, entries);
      UnobservedSpec(navLinkMap, sections, front, t);
      if t in u && (Tracked(navLinkMap, sections[entries[last].target]) || entries[last].target != t) {
        var k :| 0 <= k < |front| && front[k].target == t && !Tracked(navLinkMap, sections[front[k].target]);
        assert front[k] == entries[k];
      }
      forall k | 0 <= k < |entries| && entries[k].target == t && !Tracked(navLinkMap, sections[entries[k].target])
        ensures t in u
      {
        if k < last {
          assert front[k] == entries[k];
        }
      }
    }
  }

  /** One entry removes its section from the observed set exactly when the
      section is untracked. */
  lemma StepObserved(navLinkMap: map<string, nat>, sections: seq<string>, s: SpyState, e: Entry)
    requires e.target < |sections| && InRange(navLinkMap, s)
    ensures Step(navLinkMap, sections, s, e).observed ==
      if Tracked(navLinkMap, sections[e.target]) then s.observed else s.observed - {e.target}
  {
  }

  /** A batch stops observing exactly the sections its untracked entries name. */
  lemma {:induction false} RunObserved(navLinkMap: map<string, nat>, sections: seq<string>, s: SpyState, entries: seq<Entry>)
    requires EntriesInRange(sections, entries) && InRange(navLinkMap, s)
    decreases |entries|
    ensures Run(navLinkMap, sections, s, entries).observed == s.observed - Unobserved(navLinkMap, sections, entries)
  {
    if |entries| > 0 {
      var last := |entries| - 1;
      var front := entries[..last];
      RunObserved(navLinkMap, sections, s, front);
      StepObserved(navLinkMap, sections, Run(navLinkMap, sections, s, front), entries[last]);
    }
  }

  /** A batch whose entries all report on tracked sections, as every entry
      for an observed section does, leaves the observed set alone. */
  lemma {:induction false} RunTrackedKeepsObserved(navLinkMap: map<string, nat>, sections: seq<string>, s: SpyState, entries: seq<Entry>)
    requires EntriesInRange(sections, entries) && InRange(navLinkMap, s)
    requires forall k :: 0 <= k < |entries| ==> Tracked(navLinkMap, sections[entries[k].target])
    decreases |entries|
    ensures Run(navLinkMap, sections, s, entries).observed == s.observed
  {
    if |entries| > 0 {
      var last := |entries| - 1;
      var front := entries[..last];
      assert forall k :: 0 <= k < |front| ==> front[k] == entries[k];
      RunTrackedKeepsObserved(navLinkMap, sections, s, front);
      StepObserved(navLinkMap, sections, Run(navLinkMap, sections, s, front), entries[last]);
    }
  }

  /** A batch whose entries all report on untracked sections leaves the
      highlight alone. */
  lemma {:induction false} RunUntracked(navLinkMap: map<string, nat>, sections: seq<string>, s: SpyState, entries: seq<Entry>)
    requires EntriesInRange(sections, entries) && InRange(navLinkMap, s)
    requires forall k :: 0 <= k < |entries| ==> !Tracked(navLinkMap, sections[entries[k].target])
    decreases |entries|
    ensures var r := Run(navLinkMap, sections, s, entries);
      r.current == s.current && r.active == s.active
  {
    if |entries| > 0 {
      var last := |entries| - 1;
      RunUntracked(navLinkMap, sections, s, entries[..last]);
    }
  }

  /** Last entry wins: when an entry reports its section entering and every
      later tracked entry of the batch reports some other section's link
      leaving, that entry's link is the current one at the end and (if the
      highlight was exclusive before the batch) the only highlighted one. */
  lemma {:induction false} RunLastEnterWins(navLinkMap: map<string, nat>, sections: seq<string>, s: SpyState, entries: seq<Entry>, j: nat)
    requires EntriesInRange(sections, entries) && InRange(navLinkMap, s)
    requires j < |entries| && Tracked(navLinkMap, sections[entries[j].target]) && entries[j].isIntersecting
    requires forall k :: j < k < |entries| && Tracked(navLinkMap, sections[entries[k].target]) ==>
      && !entries[k].isIntersecting
      && LinkOf(navLinkMap, sections[entries[k].target]) != LinkOf(navLinkMap, sections[entries[j].target])
    decreases |entries|
    ensures var r := Run(navLinkMap, sections, s, entries);
      var link := LinkOf(navLinkMap, sections[entries[j].target]);
      && r.current == Some(link)
      && (Exclusive(s) ==> forall i :: 0 <= i < |r.active| ==> (r.active[i] <==> i == link))
  {
    var last := |entries| - 1;
    var front := entries[..last];
    var before := Run(navLinkMap, sections, s, front);
    if Exclusive(s) {
      RunExclusive(navLinkMap, sections, s, entries);
    }
    if j == last {
      StepEnter(navLinkMap, sections, before, entries[j]);
    } else {
      assert front[j] == entries[j];
      assert forall k :: j < k < |front| ==> front[k] == entries[k];
      RunLastEnterWins(navLinkMap, sections, s, front, j);
      if Tracked(navLinkMap, sections[entries[last].target]) {
        StepExit(navLinkMap, sections, before, entries[last]);
      } else {
        StepUntracked(navLinkMap, sections, before, entries[last]);
      }
    }
  }

  /** Scrolling up: `about` entering and then `contact`, the current section,
      leaving in one batch leaves `about` highlighted, since an exit of a link
      that is no longer current changes nothing. */
  lemma ScrollUpScenario()
    ensures var sections := ["hero", "about", "contact"];
      var m := map["about" := 0, "contact" := 1];
      Run(m, sections, SpyState(Some(1), [false, true], {1, 2}), [Entry(1, true), Entry(2, false)])
        == SpyState(Some(0), [true, false], {1, 2})
  {
    assert Trim("about") == "about";
    assert Trim("contact") == "contact";
  }

  /** When an entry reports its section leaving and every later tracked entry
      of the batch is an exit too, that section's link is not the active one at
      the end; if the link was current when the exit arrived, no link is; and,
      if the highlight was exclusive before the batch, the link carries no flag. */
  lemma {:induction false} RunLastExit(navLinkMap: map<string, nat>, sections: seq<string>, s: SpyState, entries: seq<Entry>, j: nat)
    requires EntriesInRange(sections, entries) && InRange(navLinkMap, s)
    requires j < |entries| && Tracked(navLinkMap, sections[entries[j].target]) && !entries[j].isIntersecting
    requires forall k :: j < k < |entries| && Tracked(navLinkMap, sections[entries[k].target]) ==> !entries[k].isIntersecting
    decreases |entries|
    ensures var r := Run(navLinkMap, sections, s, entries);
      var link := LinkOf(navLinkMap, sections[entries[j].target]);
      && r.current != Some(link)
      && (Run(navLinkMap, sections, s, entries[..j]).current == Some(link) ==> r.current == None)
      && (Exclusive(s) ==> !r.active[link])
  {
    var last := |entries| - 1;
    var front := entries[..last];
    var before := Run(navLinkMap, sections, s, front);
    if Exclusive(s) {
      RunExclusive(navLinkMap, sections, s, entries);
    }
    if j == last {
      assert entries[..j] == front;
      StepExit(navLinkMap, sections, before, entries[j]);
    } else {
      assert front[j] == entries[j];
      assert front[..j] == entries[..j];
      assert forall k :: j < k < |front| ==> front[k] == entries[k];
      RunLastExit(navLinkMap, sections, s, front, j);
      if Tracked(navLinkMap, sections[entries[last].target]) {
        StepExit(navLinkMap, sections, before, entries[last]);
      } else {
        StepUntracked(navLinkMap, sections, before, entries[last]);
      }
    }
  }

  /** The first batch after observation reports every observed section: with
      `about` marked active and both `about` and `contact` reported leaving,
      the first entry clears `about` and the second changes nothing. */
  lemma FirstBatchScenario()
    ensures var sections := ["hero", "about", "contact"];
      var m := map["about" := 0, "contact" := 1];
      Run(m, sections, SpyState(Some(0), [true, false], {1, 2}), [Entry(1, false), Entry(2, false)])
        == SpyState(None, [false, false], {1, 2})
  {
    assert Trim("about") == "about";
    assert Trim("contact") == "contact";
  }

  /** If the markup highlights at most one tracked link, the state the script
      starts from is exclusive. */
  lemma InitialExclusive(links: seq<NavLink>, observed: set<nat>)
    requires forall i, j :: 0 <= i < |links| && 0 <= j < |links| && links[i].active && links[j].active ==> i == j
    ensures Exclusive(SpyState(InitialActive(links), ActiveFlags(links), observed))
  {
  }

  /** A page with sections `hero`, `about`, `contact` and a section without
      an id, and nav links to `#about`, `#contact` and a final call-to-action
      link: `about` entering highlights its link and nothing else; `about`
      leaving clears it; the section without an id is not observed, an entry
      for it changes nothing, and from a state that did observe it such an
      entry stops observing it. */
  lemma AboutScenario()
    ensures NavLinkMapOf(TrackedLinks(
        [NavLink([Some("#about")], false), NavLink([Some("#contact")], false), NavLink([Some("#signup")], false)]))
      == map["about" := 0, "contact" := 1]
    ensures forall i :: 1 <= i < 4 ==>
      (Tracked(map["about" := 0, "contact" := 1], ["hero", "about", "contact", ""][i]) <==> i == 1 || i == 2)
    ensures var sections := ["hero", "about", "contact", ""];
      var m := map["about" := 0, "contact" := 1];
      var start := SpyState(None, [false, false], {1, 2});
      var entered := Run(m, sections, start, [Entry(1, true)]);
      var left := Run(m, sections, entered, [Entry(1, false)]);
      && entered == SpyState(Some(0), [true, false], {1, 2})
      && left == SpyState(None, [false, false], {1, 2})
      && Run(m, sections, start, [Entry(3, true)]) == start
      && Run(m, sections, start.(observed := {1, 2, 3}), [Entry(3, true)]) == start
  {
    var links := [NavLink([Some("#about")], false), NavLink([Some("#contact")], false)];
    assert TrackedLinks(links + [NavLink([Some("#signup")], false)]) == links;
    assert Trim("#about") == "#about";
    assert Trim("#contact") == "#contact";
    assert Trim("about") == "about";
    assert Trim("") == "";
    assert LinkKey(links[0]) == Some("about");
    assert LinkKey(links[1]) == Some("contact");
    assert links[..1] == [links[0]];
    assert InsertAll(Keys(links)[..1]) == map["about" := 0];
    assert Keys(links)[..2] == Keys(links);
  }

  /** The scroll-spy's state as the script holds it: the map and the section
      ids are fixed at start-up; the current reference, the link flags and the
      observed set change with each callback. */
  class SectionTracker {
    const sections: seq<string>
    const navLinkMap: map<string, nat>
    var current: Option<nat>
    var active: seq<bool>
    var observed: set<nat>

    function State(): SpyState
      reads this
    {
      SpyState(current, active, observed)
    }

    /** Every link named has a flag, and only a section after the first whose
        trimmed id is a key of the map is observed. */
    ghost predicate Valid()
      reads this
    {
      && InRange(navLinkMap, State())
      && CurrentFlagged(State())
      && forall i :: i in observed ==> 1 <= i < |sections| && Tracked(navLinkMap, sections[i])
    }

    /** Start-up: the map over the tracked links, their flags from the markup,
        the initial active link, and the observed sections. */
    constructor (pageLinks: seq<NavLink>, pageSections: seq<string>)
      ensures Valid()
      ensures sections == pageSections
      ensures navLinkMap == NavLinkMapOf(TrackedLinks(pageLinks))
      ensures active == ActiveFlags(TrackedLinks(pageLinks))
      ensures current == InitialActive(TrackedLinks(pageLinks))
      ensures forall i :: i in observed <==> 1 <= i < |sections| && Tracked(navLinkMap, sections[i])
    {
      var links := TrackedLinks(pageLinks);
      var m := BuildNavLinkMap(links);
      NavLinkMapInRange(links);
      InitialActiveSpec(links);
      var obs := ObserveSections(pageSections, m);
      sections := pageSections;
      navLinkMap := m;
      active := ActiveFlags(links);
      current := InitialActive(links);
      observed := obs;
    }

    /** The intersection callback: processes the batch entry by entry. */
    method OnIntersection(entries: seq<Entry>)
      requires Valid() && EntriesInRange(sections, entries)
      modifies this
      ensures Valid()
      ensures State() == Run(navLinkMap, sections, old(State()), entries)
      ensures old(Exclusive(State())) ==> Exclusive(State())
    {
      for i := 0 to |entries|
        invariant Valid()
        invariant State() == Run(navLinkMap, sections, old(State()), entries[..i])
      {
        assert entries[..i + 1][..i] == entries[..i];
        StepCurrentFlagged(navLinkMap, sections, State(), entries[i]);
        var entry := entries[i];
        var id := Trim(sections[entry.target]);
        if id == "" {
          observed := observed - {entry.target};
          continue;
        }
        if id !in navLinkMap {
          observed := observed - {entry.target};
          continue;
        }
        var targetLink := navLinkMap[id];
        if !entry.isIntersecting {
          if current == Some(targetLink) {
            active := active[targetLink := false];
            current := None;
          }
          continue;
        }
        if current == Some(targetLink) {
          continue;
        }
        if current.Some? {
          active := active[current.value := false];
        }
        active := active[targetLink := true];
        current := Some(targetLink);
      }
      assert entries[..|entries|] == entries;
      if old(Exclusive(State())) {
        RunExclusive(navLinkMap, sections, old(State()), entries);
      }
    }
  }
}
