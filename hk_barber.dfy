/** The interaction script of the HK Barber demo page: header blur driven by
    the scroll offset (also applied once at load), the mobile tab bar with
    section highlighting, smooth scrolling to in-page anchors and one-shot
    reveal of `.reveal` blocks. Everything is wired on DOMContentLoaded; the
    constructors below stand for that wiring. */
module HkBarber {
  import opened Dom

  /** The header takes `scrolled` past this offset. */
  const HeaderThreshold: real := 10.0
  /** Extra room an anchor target keeps below the header. */
  const SafetyMargin: real := 16.0

  // ── Header blur ──

  /** The window's scroll offset and the header's `scrolled` class. */
  class Header {
    var scrollY: real
    var scrolled: bool

    /** The flag agrees with the offset. */
    predicate Valid()
      reads this
    {
      scrolled == (scrollY > HeaderThreshold)
    }

    /** DOMContentLoaded: whatever class the markup gave the header,
        `handleScroll` runs once, so the flag already agrees with the offset
        before any scroll event. */
    constructor (y: real, markupScrolled: bool)
      ensures scrollY == y && Valid()
    {
      scrollY := y;
      scrolled := markupScrolled;
      new;
      HandleScroll();
    }

    /** `handleScroll`: add `scrolled` past the threshold, remove it otherwise. */
    method HandleScroll()
      modifies this`scrolled
      ensures Valid()
    {
      if scrollY > HeaderThreshold {
        scrolled := true;
      } else {
        scrolled := false;
      }
    }

    /** A scroll event: the window is now at `y`, then `handleScroll` runs. */
    method Scroll(y: real)
      modifies this
      ensures scrollY == y && Valid()
    {
      scrollY := y;
      HandleScroll();
    }
  }

  /** Unlike the other site, the flag is right at load, before any scroll
      event, and stays right after each event. */
  method HeaderOverTime(loadY: real, markupScrolled: bool, y: real) returns (atLoad: bool, afterScroll: bool)
    ensures atLoad == (loadY > HeaderThreshold)
    ensures afterScroll == (y > HeaderThreshold)
  {
    var h := new Header(loadY, markupScrolled);
    atLoad := h.scrolled;
    h.Scroll(y);
    afterScroll := h.scrolled;
  }

  // ── Tab bar and section highlight ──

  /** The `.tab-item` links with their hrefs and `active` classes, and the ids
      of the observed `section[id]` elements. */
  class TabBar {
    const hrefs: seq<string>
    const active: array<bool>
    const sectionIds: seq<string>

    constructor (hrefs: seq<string>, active: seq<bool>, sectionIds: seq<string>)
      requires |active| == |hrefs|
      ensures fresh(this.active) && this.active[..] == active
      ensures this.hrefs == hrefs && this.sectionIds == sectionIds
    {
      this.hrefs := hrefs;
      this.sectionIds := sectionIds;
      this.active := new bool[|active|](k requires 0 <= k < |active| => active[k]);
    }

    /** A click on tab `i`: remove `active` from every tab, then add it to
        the clicked one; exactly one tab is active afterwards. */
    method OnTabClick(i: nat)
      requires i < active.Length
      modifies active
      ensures forall k :: 0 <= k < active.Length ==> (active[k] <==> k == i)
      ensures Count(active[..]) == 1
    {
      var k := 0;
      while k < active.Length
        invariant 0 <= k <= active.Length
        invariant forall j :: 0 <= j < k ==> !active[j]
      {
        active[k] := false;
        k := k + 1;
      }
      active[i] := true;
      CountOne(active[..], i);
    }

    /** The scrollObserver callback: for each intersecting entry, clear every
        tab and mark the ones whose href is `#` + the section's id. After the
        batch a tab is active exactly when its href names the section of the
        last intersecting entry; a batch with no intersecting entry changes
        nothing. */
    method OnEntries(entries: seq<Entry>)
      requires active.Length == |hrefs| && TargetsIn(entries, |sectionIds|)
      modifies active
      ensures active[..] == ProcessBatch(old(active[..]), hrefs, sectionIds, entries)
      ensures LastIntersecting(entries).None? ==> active[..] == old(active[..])
      ensures LastIntersecting(entries).Some? ==>
        var t := LastIntersecting(entries).value;
        t < |sectionIds| &&
        forall k :: 0 <= k < active.Length ==> (active[k] <==> hrefs[k] == Fragment(sectionIds[t]))
    {
      var i := 0;
      while i < |entries|
        invariant 0 <= i <= |entries|
        invariant TargetsIn(entries[..i], |sectionIds|)
        invariant active[..] == ProcessBatch(old(active[..]), hrefs, sectionIds, entries[..i])
      {
        ProcessBatchStep(old(active[..]), hrefs, sectionIds, entries, i);
        var entry := entries[i];
        if entry.isIntersecting {
          var id := sectionIds[entry.target];
          var k := 0;
          while k < active.Length
            invariant 0 <= k <= active.Length
            invariant forall j :: 0 <= j < k ==> (active[j] <==> hrefs[j] == Fragment(id))
          {
            active[k] := false;
            if hrefs[k] == Fragment(id) {
              active[k] := true;
            }
            k := k + 1;
          }
          assert active[..] == Highlight(hrefs, id);
        }
        i := i + 1;
      }
      assert entries[..i] == entries;
      ProcessBatchLastWins(old(active[..]), hrefs, sectionIds, entries);
    }
  }

  // ── Smooth scroll for anchor links ──

  /** What a click on an `a[href^="#"]` asks for. A bare `#` returns before
      any lookup; an invalid selector makes `querySelector` throw; a missing
      target does nothing; otherwise it requests the scroll top at which the
      target's top would sit the header's height plus the safety margin below
      the top of the viewport. */
  function AnchorClick(href: string, query: Query, pageYOffset: real, headerHeight: nat): (r: ClickOutcome)
    ensures href == "#" ==> r.Default?
    ensures r.Threw? <==> href != "#" && query.InvalidSelector?
    ensures r.SmoothScroll? <==> href != "#" && query.Match?
    ensures r.SmoothScroll? ==> query.rectTop - (r.top - pageYOffset) == headerHeight as real + SafetyMargin
  {
    if href == "#" then Default
    else
      match query
      case InvalidSelector => Threw
      case NoMatch => Default
      case Match(elementPosition) => SmoothScroll(elementPosition + pageYOffset - headerHeight as real - SafetyMargin)
  }

  // ── One-shot reveal ──

  /** The `.reveal` elements with their `active` classes, and the reveal
      observer's targets. */
  class RevealObserver {
    const active: array<bool>
    var observed: set<nat>

    /** DOMContentLoaded: every `.reveal` element is observed. */
    constructor (initial: seq<bool>)
      ensures fresh(active) && active[..] == initial
      ensures observed == Upto(|initial|)
    {
      active := new bool[|initial|](k requires 0 <= k < |initial| => initial[k]);
      observed := Upto(|initial|);
    }

    /** `revealCallback`: each intersecting entry adds `active` to its element
        and unobserves it; other entries leave it observed and unchanged. */
    method OnEntries(entries: seq<Entry>)
      requires TargetsIn(entries, active.Length)
      modifies this, active
      ensures forall k :: 0 <= k < active.Length ==> active[k] == (old(active[k]) || k in Revealing(entries))
      ensures observed == old(observed) - Revealing(entries)
    {
      var i := 0;
      while i < |entries|
        invariant 0 <= i <= |entries|
        invariant forall k :: 0 <= k < active.Length ==> active[k] == (old(active[k]) || k in Revealing(entries[..i]))
        invariant observed == old(observed) - Revealing(entries[..i])
      {
        assert entries[..i + 1][..i] == entries[..i];
        var entry := entries[i];
        if entry.isIntersecting {
          active[entry.target] := true;
          observed := observed - {entry.target};
        }
        i := i + 1;
      }
      assert entries[..i] == entries;
    }

    /** A batch as the browser delivers it: only entries for elements still
        observed reach the callback. An observed element named by an
        intersecting entry becomes active and unobserved; every other element
        keeps its class and its membership, so an element revealed in an
        earlier batch is never touched again and never observed again. */
    method Deliver(entries: seq<Entry>)
      requires TargetsIn(entries, active.Length)
      modifies this, active
      ensures observed == old(observed) - Revealing(entries)
      ensures forall k :: 0 <= k < active.Length ==>
        active[k] == (old(active[k]) || (k in old(observed) && k in Revealing(entries)))
      ensures forall k :: 0 <= k < active.Length && k !in old(observed) ==> active[k] == old(active[k])
    {
      var batch := ObservedOnly(entries, observed);
      OnEntries(batch);
      forall k
        ensures k in Revealing(batch) <==> k in old(observed) && k in Revealing(entries)
      {
        if k in Revealing(batch) {
          var i :| 0 <= i < |batch| && batch[i] == Entry(k, true);
          assert batch[i] in entries;
        }
        if k in old(observed) && k in Revealing(entries) {
          var i :| 0 <= i < |entries| && entries[i] == Entry(k, true);
          assert entries[i] in batch;
        }
      }
    }
  }

  /** Two batches in a row: an element revealed by the first stays revealed
      and unobserved through the second, whatever the second reports. */
  method RevealTwice(initial: seq<bool>, first: seq<Entry>, second: seq<Entry>, k: nat) returns (revealed: bool, stillObserved: bool)
    requires TargetsIn(first, |initial|) && TargetsIn(second, |initial|)
    requires k in Revealing(first)
    ensures revealed && !stillObserved
  {
    var r := new RevealObserver(initial);
    r.Deliver(first);
    r.Deliver(second);
    revealed := r.active[k];
    stillObserved := k in r.observed;
  }
}
