# Navigation model of a landing page script

A Dafny model of the client-side navigation in `js/index.js`: the hamburger
menu (a dropdown panel and its trigger button, each with a marker class) and
the scroll-spy that highlights the nav link of the section currently in view.
Elements are indices and CSS marker classes are booleans:

- a `<section>` is its index among the page's sections (index 0 is the hero
  section) together with its `id` attribute;
- a nav link is its index among the tracked nav links, i.e. all
  `.nav-bar__nav-link` elements except the last (the call-to-action item);
- an intersection record is the section it reports on plus its
  `isIntersecting` bit.

Modules:

- `Wrappers`: `Option`.
- `JsString`: ECMAScript `String.prototype.trim`, with the white-space and line-terminator code points written out.
- `JsArray`: `Array.prototype.find` (as the index it returns), `slice(1)` and `slice(0, -1)`.
- `NavLinks`: turns each link's first `a[href^="#"]` anchor into a section-id key, and builds the nav-link map in place (`BuildNavLinkMap`, a loop proved equal to `NavLinkMapOf`). Also defines the initially active link.
- `ScrollSpy`: the observe filter (`ObserveSections`, a loop), the effect of one intersection entry (`Step`) and of a batch (`Run`), lemmas about both, and the class `SectionTracker`. That class holds the script's mutable state (`current`, the per-link `active` flags and the `observed` set). Its callback `OnIntersection` loops over the batch and is proved equal to `Run`.
- `Menu`: the menu as a state machine (`Transition`, `RunEvents`), lemmas about it, and the class `HamburgerMenu`. Its four listener methods are each proved equal to one `Transition`.
- `Navigation`: start-up. `OnContentLoaded` sets up both features, or neither (it returns `null` objects) when the trigger or the panel is missing.

Two invariants of the scroll-spy state:

- `CurrentFlagged`: the current active link, if any, carries the flag. It holds from start-up on and is part of `SectionTracker.Valid()`.
- `Exclusive`: exactly the current active link carries the flag. Every entry and every batch preserves it. It holds at start-up when the markup marks at most one tracked link active (`InitialExclusive`).

Behaviour of the script worth noting, which the model follows:

- The initially active link is the *first* tracked link with the class. The last nav link is never considered.
- The menu starts in whatever state the markup gives it, not necessarily closed.
- "At most one link highlighted" is therefore guaranteed only when the markup starts with at most one tracked link active. With two, the second keeps its class until something clears it.
- The blank-id guard on an anchor's `href` cannot fire, because the selector only matches values starting with `#` and trimming keeps that `#` (`HashHrefKey`).
- For a section that passed the observe filter, the callback's two "unobserve" branches cannot fire, so observation never shrinks (`RunTrackedKeepsObserved`).

## Model

| member | source | states |
|---|---|---|
| `JsString.TrimStartSpec` | js/index.js:92 | leading trim yields a suffix, drops only white space, and leaves no leading white space |
| `JsString.TrimEndSpec` | js/index.js:92 | trailing trim yields a prefix, drops only white space, and leaves no trailing white space |
| `JsString.TrimEmpty` | js/index.js:114-116 | an id trims to the empty string exactly when it is all white space (the blank-id case) |
| `JsString.TrimKeepsLeadingHash` | js/index.js:88-94 | a value starting with `#` still starts with `#` after trimming |
| `JsString.Trim` | js/index.js:92 | `trim` on both ends; its meaning is given by `TrimStartSpec`, `TrimEndSpec`, `TrimEmpty` and `TrimKeepsLeadingHash` |
| `JsArray.Find` | js/index.js:108-109 | `find` returns the first element satisfying the predicate, and none exactly when no element does |
| `JsArray.DropFirst` | js/index.js:81 | `slice(1)` drops exactly the first element and keeps the rest in order |
| `JsArray.DropLast` | js/index.js:82 | `slice(0, -1)` drops exactly the last element and keeps the rest in order |
| `NavLinks.InitialActive` | js/index.js:108-109 | the link highlighted at load; its meaning is given by `InitialActiveSpec` |
| `NavLinks.HrefKey` | js/index.js:92-96 | an anchor's `href` to a section key; its meaning is given by `HashHrefKey` |
| `NavLinks.LinkKey` | js/index.js:88-96 | a nav link to its section key, via its first `#` anchor; its meaning is given by `LinkKeySpec` |
| `NavLinks.InsertAll` | js/index.js:97 | the sequence of `Map.set` calls; its meaning is given by `InsertAllKeys` and `InsertAllLastWins` |
| `NavLinks.NavLinkMapOf` | js/index.js:85-98 | the nav-link map over the tracked links; its meaning is given by `NavLinkMapSpec` and `NavLinkMapInRange` |
| `NavLinks.BuildNavLinkMap` | js/index.js:85-98 | the in-place loop over the tracked links yields exactly the map `NavLinkMapOf` describes |
| `NavLinks.HashHrefKey` | js/index.js:88-96 | for an `href` the anchor selector matched, the trimmed value is never empty; the key is missing exactly for a bare `#`; otherwise `#` + key is the trimmed `href` |
| `NavLinks.LinkKeySpec` | js/index.js:87-96 | a link has a key exactly when its first `#` anchor's trimmed `href` is not a bare `#`; the key is that value without its `#` |
| `NavLinks.InsertAllKeys` | js/index.js:97 | after the inserts, a key is present exactly when it was inserted |
| `NavLinks.InsertAllLastWins` | js/index.js:97 | a repeated key maps to its last insert |
| `NavLinks.NavLinkMapSpec` | js/index.js:85-98 | the map has a key exactly when some tracked link refers to that section; it maps to a link that does, and no later link does |
| `NavLinks.NavLinkMapInRange` | js/index.js:85-98 | every link in the map is one of the tracked links |
| `NavLinks.InitialActiveSpec` | js/index.js:108-109 | the initial active link is the first tracked link with the active class, and none exactly when no tracked link has it |
| `ScrollSpy.Step` | js/index.js:112-148 | one entry of the callback; keeps every named link within the flags; its per-case meaning is given by `StepUntracked`, `StepObserved`, `StepExit`, `StepEnter`, `StepIdempotent`, `StepCurrentFlagged` and `StepExclusive` |
| `ScrollSpy.Run` | js/index.js:111-148 | a whole batch, in delivery order; keeps every named link within the flags; its meaning is given by `RunExclusive`, `RunObserved`, `RunTrackedKeepsObserved`, `RunUntracked`, `RunLastEnterWins` and `RunLastExit` |
| `ScrollSpy.Unobserved` | js/index.js:116-129 | the sections a batch stops observing; its meaning is given by `UnobservedSpec` |
| `ScrollSpy.ObserveSections` | js/index.js:153-166 | a section is observed exactly when it is not the first and its trimmed id is non-empty and a key of the map |
| `ScrollSpy.StepUntracked` | js/index.js:114-129 | an entry with a blank or unmapped id removes its section from the observed set and leaves the active reference and all flags unchanged |
| `ScrollSpy.StepObserved` | js/index.js:114-129 | one entry changes the observed set only by removing an untracked section |
| `ScrollSpy.StepExit` | js/index.js:133-139 | an exit clears the link's flag and the reference only when that link is current; otherwise nothing changes; no link is promoted; no other flag changes |
| `ScrollSpy.StepEnter` | js/index.js:142-147 | an entry for the current link changes nothing; otherwise the previous link is cleared, the new link is set and becomes current, and no other flag changes |
| `ScrollSpy.StepIdempotent` | js/index.js:133-147 | delivering the same entry twice has the effect of delivering it once |
| `ScrollSpy.StepCurrentFlagged` | js/index.js:133-147 | every entry keeps the current active link flagged |
| `ScrollSpy.StepExclusive` | js/index.js:131-147 | every entry keeps "flags set = {current}" |
| `ScrollSpy.RunExclusive` | js/index.js:111-148 | a batch keeps "flags set = {current}" after every entry, so at most one link is highlighted when it ends |
| `ScrollSpy.UnobservedSpec` | js/index.js:112-129 | a batch unobserves a section exactly when one of its entries reports on it with a blank or unmapped id |
| `ScrollSpy.RunObserved` | js/index.js:111-148 | a batch's observed set is the old one minus exactly those sections |
| `ScrollSpy.RunTrackedKeepsObserved` | js/index.js:122-129 | when every entry reports on a tracked section, as entries for observed sections do, nothing is unobserved |
| `ScrollSpy.RunUntracked` | js/index.js:112-129 | a batch of only blank or unmapped entries leaves the active reference and all flags unchanged |
| `ScrollSpy.RunLastEnterWins` | js/index.js:111-148 | when an entry is intersecting and every later mapped entry is an exit of some other link, its link is current at the end and, given exclusivity before, the only flagged link |
| `ScrollSpy.ScrollUpScenario` | js/index.js:133-147 | `about` entering and then the current `contact` leaving, in one batch, ends with `about` current and the only flagged link |
| `ScrollSpy.RunLastExit` | js/index.js:111-148 | when an entry is an exit and every later mapped entry is an exit too, its link is not current at the end, the reference is none if that exit cleared it, and, given exclusivity before, the link carries no flag |
| `ScrollSpy.FirstBatchScenario` | js/index.js:133-139 | with `about` active, the batch `[about exit, contact exit]` ends with no current link and no flag set |
| `ScrollSpy.InitialExclusive` | js/index.js:108-109 | when the markup marks at most one tracked link active, the start state satisfies "flags set = {current}" |
| `ScrollSpy.AboutScenario` | js/index.js:111-166 | sections hero/about/contact plus one without id: the filter observes exactly about and contact; `about` entering highlights only its link; `about` leaving clears it; an entry for the section without id changes nothing, or removes it from a set that held it |
| `ScrollSpy.SectionTracker.constructor` | js/index.js:81-166 | start-up state: the map over the tracked links, their markup flags, the first active link as current, and exactly the filtered sections observed |
| `ScrollSpy.SectionTracker.OnIntersection` | js/index.js:111-149 | the callback's loop leaves exactly the state `Run` gives for the batch, and keeps `Valid()` and exclusivity |
| `Menu.Transition` | js/index.js:29-74 | the effect of one listener; its meaning is given by `TransitionSynced`, `OnlyTriggerOpens`, `OpenCloses`, `DocumentClickIgnored` and `KeyDownIgnored` |
| `Menu.RunEvents` | js/index.js:29-74 | a sequence of events in dispatch order; its meaning is given by `RunEventsSynced` and `TriggerClicksAlternate` |
| `Menu.TransitionSynced` | js/index.js:29-74 | every listener keeps the panel's and the trigger's classes equal when they start equal |
| `Menu.RunEventsSynced` | js/index.js:29-74 | panel and trigger stay equal over any sequence of events |
| `Menu.TriggerClicksAlternate` | js/index.js:29-33 | each trigger click flips both classes exactly once, so the panel is open after n clicks exactly when its start state differs from n being odd |
| `Menu.OnlyTriggerOpens` | js/index.js:29-74 | a closed panel opens only on a trigger click |
| `Menu.OpenCloses` | js/index.js:29-74 | an open, synced menu closes exactly on a trigger click, an outside click, a panel-link click or Escape; every other event leaves it unchanged |
| `Menu.DocumentClickIgnored` | js/index.js:38-52 | a document click inside the panel, on the trigger, or while closed changes nothing |
| `Menu.KeyDownIgnored` | js/index.js:68-74 | any key but Escape, and Escape while closed, changes nothing |
| `Menu.HamburgerMenu.constructor` | js/index.js:15-16 | the two marker classes start as the markup has them |
| `Menu.HamburgerMenu.OnTriggerClick` | js/index.js:29-33 | toggles both classes |
| `Menu.HamburgerMenu.OnDocumentClick` | js/index.js:38-52 | clears both classes exactly when the panel is open and the target is neither in the panel nor in the trigger; otherwise nothing changes |
| `Menu.HamburgerMenu.OnPanelLinkClick` | js/index.js:58-63 | always clears both classes |
| `Menu.HamburgerMenu.OnKeyDown` | js/index.js:68-74 | clears both classes exactly when the key is Escape and the panel is open; otherwise nothing changes |
| `Navigation.OnContentLoaded` | js/index.js:13-24 | both features are set up exactly when trigger and panel were both found, otherwise neither is; once set up, the start-up state is the markup's menu classes, the nav-link map, the markup flags, the first active link, and exactly the filtered sections observed |

## Left out

- Style imports (js/index.js:5-10): asset bundling with no logic.
- DOM queries: `querySelector`/`querySelectorAll` results are inputs (whether the trigger and the panel were found, the nav links' anchors and classes, the sections' ids).
- Intersection geometry: the observer's `root`, `rootMargin` and `threshold` (js/index.js:100-104) decide when the browser reports a section as intersecting. That is floating-point layout, reduced here to each entry's `isIntersecting` bit.
- `console.warn` and `preventDefault`: side effects with no state consequence.
- Event dispatch: the order, timing and bubbling of events are not modelled. Each listener call and each batch is an input. Where a document click's target lies is given as two booleans.
- Section ids and link markup are taken as fixed for the page's lifetime. Entries report only on the page's sections.
- `Map` insertion order: not modelled, since the script only uses `get` and `has`.
- Shared class name: the trigger's class is modelled as separate from the tracked links' flags, although it is the same class name. This is accurate when the trigger is not one of the tracked nav links, e.g. when it is the dropped last one.
- `vite.config.ts`: development server configuration, no logic.
- Text encoding: JavaScript strings are sequences of UTF-16 code units, while a Dafny `string` is a sequence of Unicode scalar values. An `id` or `href` holding a lone surrogate cannot be represented. For well-formed text, keys, `trim` and `slice(1)` behave the same.
