/** The interaction script of creer-ton-site.fr: header and scroll-to-top
    flags driven by the scroll offset, the mobile menu, smooth scrolling to
    in-page anchors, one-shot reveal of content blocks, the FAQ accordion and
    the active navigation link. Every DOM node the script touches is a field
    here; every listener is a method. */
module CreerTonSite {
  import opened Dom

  /** The header takes `scrolled` past this offset. */
  const HeaderThreshold: real := 30.0
  /** The scroll-to-top button takes `visible` past this offset. */
  const ScrollTopThreshold: real := 400.0
  /** Height of the fixed header that an anchor target must clear. */
  const HeaderOffset: real := 72.0

  // ── Header and scroll-to-top button ──

  /** The window's scroll offset and the two classes that follow it. Both
      listeners are only registered for `scroll`: neither runs at load. */
  class ScrollTracker {
    var scrollY: real
    /** `scrolled` class of #header */
    var headerScrolled: bool
    /** `visible` class of the scroll-to-top button */
    var scrollTopVisible: bool

    /** Page load: the header markup carries no `scrolled` class and the
        button is created with class `scroll-top` only, whatever the offset. */
    constructor (y: real)
      ensures scrollY == y && !headerScrolled && !scrollTopVisible
    {
      scrollY := y;
      headerScrolled := false;
      scrollTopVisible := false;
    }

    /** `onScroll`: the header flag follows the offset, whatever it was. */
    method OnScroll()
      modifies this`headerScrolled
      ensures headerScrolled == (scrollY > HeaderThreshold)
    {
      headerScrolled := scrollY > HeaderThreshold;
    }

    /** `toggleScrollBtn`: the button flag follows the offset, whatever it was. */
    method ToggleScrollBtn()
      modifies this`scrollTopVisible
      ensures scrollTopVisible == (scrollY > ScrollTopThreshold)
    {
      scrollTopVisible := scrollY > ScrollTopThreshold;
    }

    /** A scroll event: the window is now at `y`, and the two listeners run
        in the order they were registered. */
    method Scroll(y: real)
      modifies this
      ensures scrollY == y
      ensures headerScrolled == (y > HeaderThreshold)
      ensures scrollTopVisible == (y > ScrollTopThreshold)
    {
      scrollY := y;
      OnScroll();
      ToggleScrollBtn();
    }
  }

  /** Before any scroll event both flags are unset at any offset; one scroll
      event sets each from the offset alone, and a second event at the same
      offset changes nothing. */
  method ScrollFlagsOverTime(loadY: real, y: real) returns (atLoad: (bool, bool), first: (bool, bool), second: (bool, bool))
    ensures atLoad == (false, false)
    ensures first == (y > HeaderThreshold, y > ScrollTopThreshold)
    ensures second == first
  {
    var w := new ScrollTracker(loadY);
    atLoad := (w.headerScrolled, w.scrollTopVisible);
    w.Scroll(y);
    first := (w.headerScrolled, w.scrollTopVisible);
    w.Scroll(y);
    second := (w.headerScrolled, w.scrollTopVisible);
  }

  // ── Mobile menu ──

  /** The four observables of the mobile menu: `hidden` of #mobileMenu, the
      `open` class and `aria-expanded` of #burgerBtn, and the body's
      `overflow` style. */
  datatype MenuState = MenuState(hidden: bool, burgerOpen: bool, ariaExpanded: string, overflow: string)

  const Closed := MenuState(true, false, "false", "")
  const Opened := MenuState(false, true, "true", "hidden")

  class MobileMenu {
    var hidden: bool
    var burgerOpen: bool
    var ariaExpanded: string
    var overflow: string

    function State(): MenuState
      reads this
    {
      MenuState(hidden, burgerOpen, ariaExpanded, overflow)
    }

    /** The menu as the markup leaves it. */
    constructor (markup: MenuState)
      ensures State() == markup
    {
      hidden, burgerOpen, ariaExpanded, overflow := markup.hidden, markup.burgerOpen, markup.ariaExpanded, markup.overflow;
    }

    /** `openMenu`: show the menu and lock page scrolling. */
    method OpenMenu()
      modifies this
      ensures State() == Opened
    {
      hidden := false;
      burgerOpen := true;
      ariaExpanded := "true";
      overflow := "hidden";
    }

    /** `closeMenu`: hide the menu and release page scrolling. */
    method CloseMenu()
      modifies this
      ensures State() == Closed
    {
      hidden := true;
      burgerOpen := false;
      ariaExpanded := "false";
      overflow := "";
    }

    /** The burger button: an expanded menu closes, any other state opens. */
    method OnBurgerClick()
      modifies this
      ensures State() == if old(ariaExpanded) == "true" then Closed else Opened
    {
      if ariaExpanded == "true" {
        CloseMenu();
      } else {
        OpenMenu();
      }
    }

    /** A click on any link inside the mobile menu. */
    method OnLinkClick()
      modifies this
      ensures State() == Closed
    {
      CloseMenu();
    }

    /** A keydown anywhere in the document: only Escape closes. */
    method OnKeyDown(key: string)
      modifies this
      ensures key == "Escape" ==> State() == Closed
      ensures key != "Escape" ==> unchanged(this)
    {
      if key == "Escape" {
        CloseMenu();
      }
    }
  }

  /** Opening then closing restores every observable to its closed value,
      whatever the markup started with; closing again changes nothing. */
  method MenuOpenClose(markup: MenuState) returns (afterOpen: MenuState, afterClose: MenuState, secondClose: MenuState)
    ensures afterOpen == Opened
    ensures afterClose == Closed
    ensures secondClose == afterClose
  {
    var m := new MobileMenu(markup);
    m.OpenMenu();
    afterOpen := m.State();
    m.CloseMenu();
    afterClose := m.State();
    m.CloseMenu();
    secondClose := m.State();
  }

  /** Two burger clicks from a closed menu open it and close it again; from
      an `aria-expanded` that is neither "true" nor "false" the first click
      opens. */
  method BurgerTwice(markup: MenuState) returns (first: MenuState, second: MenuState)
    ensures markup.ariaExpanded == "true" ==> first == Closed && second == Opened
    ensures markup.ariaExpanded != "true" ==> first == Opened && second == Closed
  {
    var m := new MobileMenu(markup);
    m.OnBurgerClick();
    first := m.State();
    m.OnBurgerClick();
    second := m.State();
  }

  // ── Smooth scroll for anchor links ──

  /** What a click on an `a[href^="#"]` asks for, given its target lookup and
      the current offset. An invalid selector (the bare `#` among them) makes
      `querySelector` throw before `preventDefault`; a missing target returns
      before it; otherwise it requests the scroll top at which the
      target's top would sit `HeaderOffset` below the top of the viewport. */
  function AnchorClick(query: Query, scrollY: real): (r: ClickOutcome)
    ensures r.Threw? <==> query.InvalidSelector?
    ensures r.Default? <==> query.NoMatch?
    ensures r.SmoothScroll? <==> query.Match?
    ensures r.SmoothScroll? ==> query.rectTop - (r.top - scrollY) == HeaderOffset
  {
    match query
    case InvalidSelector => Threw
    case NoMatch => Default
    case Match(rectTop) => SmoothScroll(rectTop + scrollY - HeaderOffset)
  }

  /** The anchor listener: the scroll request of `AnchorClick`, and the menu
      closed only when the handler reached the scroll. */
  method OnAnchorClick(query: Query, window: ScrollTracker, menu: MobileMenu) returns (outcome: ClickOutcome)
    modifies menu
    ensures outcome == AnchorClick(query, window.scrollY)
    ensures outcome.SmoothScroll? ==> menu.State() == Closed
    ensures !outcome.SmoothScroll? ==> unchanged(menu)
  {
    match query {
      case InvalidSelector =>
        outcome := Threw;
      case NoMatch =>
        outcome := Default;
      case Match(rectTop) =>
        var top := rectTop + window.scrollY - HeaderOffset;
        outcome := SmoothScroll(top);
        menu.CloseMenu();
    }
  }

  // ── One-shot reveal ──

  /** The inline style properties the reveal animation writes. */
  datatype InlineStyle = InlineStyle(opacity: string, transform: string, transition: string)

  /** The style every reveal element gets before it is observed. */
  const Concealed := InlineStyle("0", "translateY(24px)", "opacity 0.5s ease, transform 0.5s ease")

  /** The style after the reveal: only opacity and transform are written. */
  function Shown(s: InlineStyle): InlineStyle
  {
    s.(opacity := "1", transform := "translateY(0)")
  }

  /** The reveal elements (service, testimonial, pricing, FAQ, feature,
      stat and process blocks) and the reveal observer's targets. */
  class RevealObserver {
    const styles: array<InlineStyle>
    var observed: set<nat>

    constructor (initial: seq<InlineStyle>)
      ensures fresh(styles) && styles[..] == initial && observed == {}
    {
      styles := new InlineStyle[|initial|](k requires 0 <= k < |initial| => initial[k]);
      observed := {};
    }

    /** The setup loop: conceal every element, then observe it. */
    method Setup()
      modifies this, styles
      ensures forall k :: 0 <= k < styles.Length ==> styles[k] == Concealed
      ensures observed == old(observed) + Upto(styles.Length)
    {
      var k := 0;
      while k < styles.Length
        invariant 0 <= k <= styles.Length
        invariant forall j :: 0 <= j < k ==> styles[j] == Concealed
        invariant observed == old(observed) + Upto(k)
      {
        styles[k] := styles[k].(opacity := "0");
        styles[k] := styles[k].(transform := "translateY(24px)");
        styles[k] := styles[k].(transition := "opacity 0.5s ease, transform 0.5s ease");
        observed := observed + {k};
        k := k + 1;
      }
    }

    /** The observer callback: each intersecting entry shows its element and
        unobserves it; other entries do nothing. Showing is idempotent, so a
        shown element stays exactly as it is whatever entries follow. */
    method OnEntries(entries: seq<Entry>)
      requires TargetsIn(entries, styles.Length)
      modifies this, styles
      ensures forall k :: 0 <= k < styles.Length ==>
        styles[k] == if k in Revealing(entries) then Shown(old(styles[k])) else old(styles[k])
      ensures observed == old(observed) - Revealing(entries)
      ensures forall k :: 0 <= k < styles.Length && old(styles[k]) == Shown(old(styles[k])) ==> styles[k] == old(styles[k])
    {
      var i := 0;
      while i < |entries|
        invariant 0 <= i <= |entries|
        invariant forall k :: 0 <= k < styles.Length ==>
          styles[k] == if k in Revealing(entries[..i]) then Shown(old(styles[k])) else old(styles[k])
        invariant observed == old(observed) - Revealing(entries[..i])
      {
        assert entries[..i + 1][..i] == entries[..i];
        var entry := entries[i];
        if entry.isIntersecting {
          styles[entry.target] := styles[entry.target].(opacity := "1");
          styles[entry.target] := styles[entry.target].(transform := "translateY(0)");
          observed := observed - {entry.target};
        }
        i := i + 1;
      }
      assert entries[..i] == entries;
    }

    /** A batch as the browser delivers it: only entries for elements still
        observed reach the callback. An observed element named by an
        intersecting entry is shown and unobserved; every other element keeps
        its style and its membership, so an element revealed in an earlier
        batch is never touched again and never observed again. */
    method Deliver(entries: seq<Entry>)
      requires TargetsIn(entries, styles.Length)
      modifies this, styles
      ensures observed == old(observed) - Revealing(entries)
      ensures forall k :: 0 <= k < styles.Length ==>
        styles[k] == if k in old(observed) && k in Revealing(entries) then Shown(old(styles[k])) else old(styles[k])
      ensures forall k :: 0 <= k < styles.Length && k !in old(observed) ==> styles[k] == old(styles[k])
    {
      var batch := ObservedOnly(entries, observed);
      OnEntries(batch);
      forall k
        ensures k in Revealing(batch) <==> k in old(observed) && k in Revealing(entries)
      {
        if k in Revealing(batch) {
          var i :| 0 <= i < |batch| && batch[i] == Entry(k, true);
          assert batch[i] in entries;
        }
        if k in old(observed) && k in Revealing(entries) {
          var i :| 0 <= i < |entries| && entries[i] == Entry(k, true);
          assert entries[i] in batch;
        }
      }
    }
  }

  /** Set-up then two batches: an element revealed by the first batch was
      concealed and observed before it, and keeps its revealed style and stays
      unobserved through the second batch, whatever that batch reports. */
  method RevealOnce(initial: seq<InlineStyle>, first: seq<Entry>, second: seq<Entry>, k: nat) returns (before: InlineStyle, after: InlineStyle, stillObserved: bool)
    requires TargetsIn(first, |initial|) && TargetsIn(second, |initial|)
    requires k in Revealing(first)
    ensures before == Concealed
    ensures after == InlineStyle("1", "translateY(0)", Concealed.transition)
    ensures !stillObserved
  {
    var r := new RevealObserver(initial);
    r.Setup();
    before := r.styles[k];
    r.Deliver(first);
    r.Deliver(second);
    after := r.styles[k];
    stillObserved := k in r.observed;
  }

  // ── FAQ accordion ──

  /** `aria-expanded` of every question after a click on question `i`: all
      "false", except the clicked one when it was not open before. */
  function AfterQuestionClick(expanded: seq<string>, i: nat): seq<string>
    requires i < |expanded|
  {
    seq(|expanded|, b requires 0 <= b < |expanded| => if b == i && expanded[i] != "true" then "true" else "false")
  }

  /** Which questions read as open. */
  function OpenFlags(expanded: seq<string>): seq<bool>
  {
    seq(|expanded|, b requires 0 <= b < |expanded| => expanded[b] == "true")
  }

  /** After a click at most one question is open: the clicked one if it was
      closed, none if it was open. */
  lemma OpenCountAfterClick(expanded: seq<string>, i: nat)
    requires i < |expanded|
    ensures Count(OpenFlags(AfterQuestionClick(expanded, i))) == if expanded[i] == "true" then 0 else 1
  {
    var flags := OpenFlags(AfterQuestionClick(expanded, i));
    if expanded[i] == "true" {
      CountZero(flags);
    } else {
      CountOne(flags, i);
    }
  }

  /** Clicking the same question twice: an open one is closed and then
      reopened alone, a closed one is opened alone and then everything is
      closed. */
  lemma ClickTwice(expanded: seq<string>, i: nat)
    requires i < |expanded|
    ensures AfterQuestionClick(AfterQuestionClick(expanded, i), i) ==
      if expanded[i] == "true" then AfterQuestionClick(seq(|expanded|, b => "false"), i)
      else seq(|expanded|, b => "false")
  {
  }

  /** The `.faq-question` buttons with their `aria-expanded` and
      `aria-controls` attributes, and the document's elements that a button
      may name, with their ids and `hidden` flags. */
  class FaqAccordion {
    const controls: seq<string>
    const expanded: array<string>
    const ids: seq<string>
    const hidden: array<bool>

    predicate Valid()
    {
      expanded.Length == |controls| && hidden.Length == |ids|
    }

    /** The element some question names and the document holds. */
    ghost predicate Controlled(p: nat)
    {
      exists b :: 0 <= b < |controls| && FindById(ids, controls[b]) == Some(p)
    }

    ghost predicate ControlledBefore(p: nat, n: nat)
    {
      exists b :: 0 <= b < n && b < |controls| && FindById(ids, controls[b]) == Some(p)
    }

    /** No two questions name the same existing panel. */
    ghost predicate DistinctPanels()
    {
      forall b, c :: 0 <= b < c < |controls| && FindById(ids, controls[b]).Some? ==>
        FindById(ids, controls[b]) != FindById(ids, controls[c])
    }

    constructor (controls: seq<string>, expanded: seq<string>, ids: seq<string>, hidden: seq<bool>)
      requires |expanded| == |controls| && |hidden| == |ids|
      ensures Valid() && fresh(this.expanded) && fresh(this.hidden)
      ensures this.controls == controls && this.ids == ids
      ensures this.expanded[..] == expanded && this.hidden[..] == hidden
    {
      this.controls := controls;
      this.ids := ids;
      this.expanded := new string[|expanded|](k requires 0 <= k < |expanded| => expanded[k]);
      this.hidden := new bool[|hidden|](k requires 0 <= k < |hidden| => hidden[k]);
    }

    /** A click on question `i`: close every question and hide every panel
        that exists, then reopen question `i` and show its panel if it was
        closed. Missing panels are skipped; elements no question names keep
        their `hidden` flag. With distinct panels, every existing panel is
        hidden exactly when its question is not expanded. */
    method OnQuestionClick(i: nat)
      requires Valid() && i < |controls|
      modifies expanded, hidden
      ensures expanded[..] == AfterQuestionClick(old(expanded[..]), i)
      ensures forall p :: 0 <= p < hidden.Length ==>
        hidden[p] == if Controlled(p) then !(old(expanded[i]) != "true" && FindById(ids, controls[i]) == Some(p)) else old(hidden[p])
      ensures DistinctPanels() ==>
        forall b :: 0 <= b < |controls| && FindById(ids, controls[b]).Some? ==>
          hidden[FindById(ids, controls[b]).value] == (expanded[b] != "true")
    {
      var isOpen := expanded[i] == "true";
      var panel := FindById(ids, controls[i]);
      var b := 0;
      while b < expanded.Length
        invariant 0 <= b <= expanded.Length
        invariant forall c :: 0 <= c < b ==> expanded[c] == "false"
        invariant forall c :: b <= c < expanded.Length ==> expanded[c] == old(expanded[c])
        invariant forall p :: 0 <= p < hidden.Length ==>
          hidden[p] == if ControlledBefore(p, b) then true else old(hidden[p])
      {
        expanded[b] := "false";
        var p := FindById(ids, controls[b]);
        if p.Some? {
          hidden[p.value] := true;
        }
        b := b + 1;
      }
      if !isOpen {
        expanded[i] := "true";
        if panel.Some? {
          hidden[panel.value] := false;
        }
      }
      assert forall p :: ControlledBefore(p, |controls|) == Controlled(p);
      assert expanded[..] == AfterQuestionClick(old(expanded[..]), i);
    }
  }

  // ── Active navigation link ──

  /** The header's navigation links with their hrefs and `active` classes,
      and the ids of the observed `section[id]` elements. */
  class NavHighlight {
    const hrefs: seq<string>
    const active: array<bool>
    const sectionIds: seq<string>

    constructor (hrefs: seq<string>, active: seq<bool>, sectionIds: seq<string>)
      requires |active| == |hrefs|
      ensures fresh(this.active) && this.active[..] == active
      ensures this.hrefs == hrefs && this.sectionIds == sectionIds
    {
      this.hrefs := hrefs;
      this.sectionIds := sectionIds;
      this.active := new bool[|active|](k requires 0 <= k < |active| => active[k]);
    }

    /** The navObserver callback: for each intersecting entry, clear every
        link and mark the ones whose href is `#` + the section's id. After
        the batch a link is active exactly when its href names the section of
        the last intersecting entry; a batch with no intersecting entry
        changes nothing. */
    method OnEntries(entries: seq<Entry>)
      requires active.Length == |hrefs| && TargetsIn(entries, |sectionIds|)
      modifies active
      ensures active[..] == ProcessBatch(old(active[..]), hrefs, sectionIds, entries)
      ensures LastIntersecting(entries).None? ==> active[..] == old(active[..])
      ensures LastIntersecting(entries).Some? ==>
        var t := LastIntersecting(entries).value;
        t < |sectionIds| &&
        forall k :: 0 <= k < active.Length ==> (active[k] <==> hrefs[k] == Fragment(sectionIds[t]))
    {
      var i := 0;
      while i < |entries|
        invariant 0 <= i <= |entries|
        invariant TargetsIn(entries[..i], |sectionIds|)
        invariant active[..] == ProcessBatch(old(active[..]), hrefs, sectionIds, entries[..i])
      {
        ProcessBatchStep(old(active[..]), hrefs, sectionIds, entries, i);
        var entry := entries[i];
        if entry.isIntersecting {
          var id := sectionIds[entry.target];
          var k := 0;
          while k < active.Length
            invariant 0 <= k <= active.Length
            invariant forall j :: 0 <= j < k ==> (active[j] <==> hrefs[j] == Fragment(id))
          {
            active[k] := false;
            if hrefs[k] == Fragment(id) {
              active[k] := true;
            }
            k := k + 1;
          }
          assert active[..] == Highlight(hrefs, id);
        }
        i := i + 1;
      }
      assert entries[..i] == entries;
      ProcessBatchLastWins(old(active[..]), hrefs, sectionIds, entries);
    }
  }
}
