# Scroll, menu, accordion and reveal state of two marketing sites

This project models the client-side interaction scripts of two sites: creer-ton-site.fr
(`creer-ton-site/main.js`) and the HK Barber demo (`demo/HK-barber/main.js`). Under their DOM
calls sit small state-update rules. The model states them over explicit state and proves them:

- Header and scroll-to-top flags, recomputed from the scroll offset on each scroll event. There
  is no hysteresis. The HK page also runs its handler once at load; creer-ton-site does not.
- The mobile menu, a two-state machine with four observables: the menu's `hidden` flag, the
  burger's `open` class, its `aria-expanded` attribute and the body's `overflow` style.
- The FAQ accordion: close every question, then reopen the clicked one if it was closed.
- Active-link tracking for the header navigation and the tab bar. Every link is cleared, then
  the link whose href is `#` + the section id is marked. This happens for each intersecting
  entry of a batch, so the last one wins. The tab click uses the same clear-then-set rule.
- One-shot reveal: an element is shown and unobserved on its first intersecting entry.
- Anchor clicks: the early exits, and the scroll target arithmetic.

DOM nodes are class fields. Per-element flags and attributes are arrays indexed by element.
The observer's targets are a `set<nat>`. An IntersectionObserver batch is a sequence of
`Entry(target, isIntersecting)` values. Event listeners are methods.

Modules:
- `Dom` (dom.dfy) holds what both scripts share. It has the entry, lookup and click-outcome
  types. It has the specification functions `LastIntersecting`, `Revealing`, `ObservedOnly`,
  `Highlight`, `ProcessBatch`, `Count` and `FindById`, and the lemmas about them.
- `CreerTonSite` (creer_ton_site.dfy) models `creer-ton-site/main.js`.
- `HkBarber` (hk_barber.dfy) models `demo/HK-barber/main.js`.

Inputs the scripts get from the browser are parameters:
- the scroll offset (`window.scrollY` / `pageYOffset`, a `real`);
- the result of `document.querySelector(href)` together with the target's
  `getBoundingClientRect().top` (`Dom.Query`);
- the header's `offsetHeight` (a `nat`);
- the pressed key, and the intersection entries.

Behaviour of the code that the model makes explicit:
- creer-ton-site registers `onScroll` and `toggleScrollBtn` only for `scroll`
  (`creer-ton-site/main.js:9-10`, `154-155`). Both of its flags stay unset before the first
  scroll event at any offset (`ScrollFlagsOverTime`). HK Barber calls `handleScroll()` at load
  (`demo/HK-barber/main.js:22`), so its flag agrees with the offset from the start
  (`HeaderOverTime`).
- The highlight marks every link whose href matches, and several links may share an href. One
  active link therefore holds only for distinct hrefs (`Dom.HighlightCount`).
- The reveal callback has no guard of its own. Two intersecting entries for the same element in
  one batch write the same style twice. The write is idempotent, so the element is revealed once.
  Later batches never name it, because it was unobserved.
- creer-ton-site passes every `a[href^="#"]` href straight to `querySelector`. For the bare `#`
  (an invalid selector) that call throws before `preventDefault`, so the outcome is `Threw`
  and the browser's default jump still happens. HK Barber returns early on `#`.

Assumptions about markup that is not part of this model:
- The creer-ton-site header starts without `scrolled`.
- The menu, tab, accordion and panel states start as the markup leaves them. The constructors
  take these as parameters.

## Model

| member | source | states |
|---|---|---|
| `CreerTonSite.ScrollTracker.constructor` | creer-ton-site/main.js:146-155 | at load, before any scroll event, neither the header's `scrolled` nor the button's `visible` is set, whatever the offset |
| `CreerTonSite.ScrollTracker.OnScroll` | creer-ton-site/main.js:9 | the header flag equals `scrollY > 30` whatever it was before |
| `CreerTonSite.ScrollTracker.ToggleScrollBtn` | creer-ton-site/main.js:154 | the scroll-top flag equals `scrollY > 400` whatever it was before |
| `CreerTonSite.ScrollTracker.Scroll` | creer-ton-site/main.js:9-10 | a scroll event to `y` leaves header flag `y > 30` and button flag `y > 400`, each from the offset alone |
| `CreerTonSite.ScrollFlagsOverTime` | creer-ton-site/main.js:9-10 | both flags are unset before the first event at any offset; one event sets them from the offset; a repeat at the same offset changes nothing |
| `CreerTonSite.MobileMenu.constructor` | creer-ton-site/main.js:13-14 | the menu's four observables start as the markup gives them |
| `CreerTonSite.MobileMenu.OpenMenu` | creer-ton-site/main.js:16-21 | afterwards: not hidden, `open` class, `aria-expanded="true"`, overflow `hidden` |
| `CreerTonSite.MobileMenu.CloseMenu` | creer-ton-site/main.js:22-27 | afterwards: hidden, no `open` class, `aria-expanded="false"`, overflow `''` |
| `CreerTonSite.MobileMenu.OnBurgerClick` | creer-ton-site/main.js:28-30 | `aria-expanded` "true" leads to the closed state; any other value leads to the open state |
| `CreerTonSite.MobileMenu.OnLinkClick` | creer-ton-site/main.js:33 | a click on a menu link leaves the closed state |
| `CreerTonSite.MobileMenu.OnKeyDown` | creer-ton-site/main.js:36 | Escape leaves the closed state; any other key changes nothing |
| `CreerTonSite.MenuOpenClose` | creer-ton-site/main.js:16-27 | open then close restores hidden, no `open`, `aria-expanded="false"`, overflow `''` from any markup; a second close changes nothing |
| `CreerTonSite.BurgerTwice` | creer-ton-site/main.js:28-30 | two burger clicks open then close a non-expanded menu, and close then reopen an expanded one |
| `CreerTonSite.AnchorClick` | creer-ton-site/main.js:41-46 | invalid selector: throws; no target: default action, no scroll; a target: requests the scroll top `rectTop + scrollY - 72`, at which the target would sit 72px below the viewport top |
| `CreerTonSite.OnAnchorClick` | creer-ton-site/main.js:39-49 | the outcome of `AnchorClick`; the menu is closed exactly when a scroll was requested and untouched otherwise |
| `CreerTonSite.RevealObserver.constructor` | creer-ton-site/main.js:52-54 | the reveal elements keep their styles and nothing is observed yet |
| `CreerTonSite.RevealObserver.Setup` | creer-ton-site/main.js:65-70 | every element gets opacity `0`, `translateY(24px)` and the transition, and every element is observed |
| `CreerTonSite.RevealObserver.OnEntries` | creer-ton-site/main.js:55-64 | elements named by an intersecting entry get opacity `1` and `translateY(0)` and leave the observed set; all other elements and memberships are unchanged; a shown element stays exactly as it is |
| `CreerTonSite.RevealObserver.Deliver` | creer-ton-site/main.js:56-62 | when only observed elements' entries reach the callback, the observed set loses exactly the intersecting elements; an observed element named by an intersecting entry is shown, every other element keeps its style and membership, and an unobserved element is never touched |
| `CreerTonSite.RevealOnce` | creer-ton-site/main.js:55-70 | an element is concealed before it is observed; once revealed it keeps the revealed style and stays unobserved through any later batch |
| `CreerTonSite.OpenCountAfterClick` | creer-ton-site/main.js:104-115 | after a click exactly one question is open if the clicked one was closed, and none if it was open |
| `CreerTonSite.ClickTwice` | creer-ton-site/main.js:98-117 | two clicks on one question: an open one ends alone open again, a closed one ends with all closed |
| `CreerTonSite.FaqAccordion.constructor` | creer-ton-site/main.js:98-102 | questions, their `aria-controls`, and the document's elements and `hidden` flags as the markup gives them |
| `CreerTonSite.FaqAccordion.OnQuestionClick` | creer-ton-site/main.js:98-117 | every question is "false" except the clicked one, which is "true" iff it was closed; every existing named panel is hidden except the clicked one's when it opens; missing panels are skipped; other elements keep `hidden`; with distinct panels, each panel is hidden iff its question is not expanded |
| `CreerTonSite.NavHighlight.constructor` | creer-ton-site/main.js:164-165 | the links' hrefs and `active` classes and the sections' ids as the markup gives them |
| `CreerTonSite.NavHighlight.OnEntries` | creer-ton-site/main.js:167-182 | after a batch a link is active iff its href is `#` + the id of the last intersecting entry's section; a batch with no intersecting entry changes nothing |
| `Dom.LastIntersecting` | creer-ton-site/main.js:169-177 | None iff no entry intersects; otherwise the target of an intersecting entry that no later entry follows intersecting |
| `Dom.Revealing` | creer-ton-site/main.js:56-61 | an element is in the result iff some entry of the batch is an intersecting entry for it |
| `Dom.ObservedOnly` | creer-ton-site/main.js:60 | the delivered entries are exactly the batch's entries whose target is still observed |
| `Dom.ProcessBatchLastWins` | creer-ton-site/main.js:168-178 | walking a batch entry by entry equals the highlight of the last intersecting entry's section, or the old flags when none intersects |
| `Dom.HighlightCount` | creer-ton-site/main.js:171-176 | no link is active when no href matches; exactly one is active when hrefs are distinct and one matches |
| `Dom.FindById` | creer-ton-site/main.js:101-102 | the first element carrying the id, or None iff the id is empty or no element carries it |
| `HkBarber.Header.constructor` | demo/HK-barber/main.js:10-22 | because `handleScroll` runs at init, the flag equals `scrollY > 10` before any scroll event, whatever the markup said |
| `HkBarber.Header.HandleScroll` | demo/HK-barber/main.js:12-19 | the flag equals `scrollY > 10` |
| `HkBarber.Header.Scroll` | demo/HK-barber/main.js:21 | after a scroll event to `y` the flag equals `y > 10` |
| `HkBarber.HeaderOverTime` | demo/HK-barber/main.js:12-22 | the flag is right at load and after each scroll event |
| `HkBarber.TabBar.constructor` | demo/HK-barber/main.js:25 | the tabs' hrefs and `active` classes and the sections' ids as the markup gives them |
| `HkBarber.TabBar.OnTabClick` | demo/HK-barber/main.js:27-33 | exactly the clicked tab is active afterwards |
| `HkBarber.TabBar.OnEntries` | demo/HK-barber/main.js:50-65 | after a batch a tab is active iff its href is `#` + the id of the last intersecting entry's section; no intersecting entry: unchanged |
| `HkBarber.AnchorClick` | demo/HK-barber/main.js:68-89 | bare `#`: nothing; invalid selector: throws; no target: nothing; a target: requests the scroll top at which it would sit `headerHeight + 16` below the viewport top |
| `HkBarber.RevealObserver.constructor` | demo/HK-barber/main.js:111-115 | every `.reveal` element is observed |
| `HkBarber.RevealObserver.OnEntries` | demo/HK-barber/main.js:94-104 | intersecting entries add `active` and unobserve; elements not named by one stay observed and unchanged |
| `HkBarber.RevealObserver.Deliver` | demo/HK-barber/main.js:94-104 | the observed set loses exactly the intersecting elements; an observed element named by an intersecting entry becomes active, every other element keeps its class and stays observed if it was; an unobserved element is never touched |
| `HkBarber.RevealTwice` | demo/HK-barber/main.js:94-115 | an element revealed by one batch stays active and unobserved through any later batch |

## Left out

- The counter animation (`creer-ton-site/main.js:73-95`). It uses floating-point `Math.pow` and
  `Math.round`, `requestAnimationFrame` timing and `parseInt`. Its progress is clamped to 1
  (line 76), and frames stop once progress reaches 1 (line 79).
- The contact form (`creer-ton-site/main.js:120-143`). It relies on the browser's constraint
  validation and on a timed fake network delay.
- How the browser decides intersection (thresholds and root margins). Entries are inputs.
- The actual smooth scrolling, and the measuring of rects and heights. These are inputs; only
  the target offset is computed.
- The scroll-to-top button's click (`creer-ton-site/main.js:156`). It only asks the window to
  scroll to 0.
- Building the button's SVG, injecting the `active` style, the hero `animationend` opacity, the
  haptic `vibrate` call, and the DOMContentLoaded wiring itself.
- The frame deferral of the reveal class in HK Barber (`demo/HK-barber/main.js:98-100`). The
  class add is modelled as happening at once.
- `CreerTonSite.RevealObserver.Deliver`, `HkBarber.RevealObserver.Deliver`: the browser's rule that
  only still-observed elements' entries are delivered is modelled as a filter applied when a batch
  starts. This is browser behaviour, not the scripts' code.
- Double-precision rounding of offsets. `rect.top + scrollY - 72` and
  `elementPosition + pageYOffset - headerHeight - 16` are computed exactly over `real`. The
  browser's clamping of `scrollTo` to the scrollable range is not modelled either.
- An absent `aria-controls` attribute. `getAttribute` then gives null, and `getElementById(null)`
  looks up the id `"null"`. The model takes every question's `aria-controls` as a string.
- `Dom.HighlightCount`: "exactly one active link" is proved only for distinct hrefs. The code gives
  no such guarantee otherwise.
