/** Values and specification functions shared by both sites' scripts: the
    entries an IntersectionObserver hands to its callback, the result of
    looking up an in-page link's target, and the "clear every link, then mark
    the one whose href is `#` + id" rule that both sites use to highlight the
    current section. */
module Dom {

  datatype Option<T> = None | Some(value: T)

  /** One IntersectionObserver entry: the index of the observed element it is
      about, and whether that element now intersects the root. */
  datatype Entry = Entry(target: nat, isIntersecting: bool)

  /** What `document.querySelector(href)` gives a click handler: the selector
      is not valid CSS (the call throws), nothing matches, or an element
      matches whose `getBoundingClientRect().top` is `rectTop`. */
  datatype Query = InvalidSelector | NoMatch | Match(rectTop: real)

  /** What an anchor click handler leaves behind: it returned without calling
      `preventDefault` (the browser's own jump happens), it threw, or it called
      `preventDefault` and asked for a smooth scroll to `top`. */
  datatype ClickOutcome = Default | Threw | SmoothScroll(top: real)

  /** Every entry refers to one of `n` observed elements. */
  predicate TargetsIn(entries: seq<Entry>, n: nat)
  {
    forall i :: 0 <= i < |entries| ==> entries[i].target < n
  }

  /** The indices of `n` elements. */
  function Upto(n: nat): (r: set<nat>)
    ensures forall k: nat :: k in r <==> k < n
  {
    if n == 0 then {} else Upto(n - 1) + {n - 1}
  }

  /** The target of the last intersecting entry of a batch, if any. */
  function LastIntersecting(entries: seq<Entry>): (r: Option<nat>)
    ensures r.None? <==> forall i :: 0 <= i < |entries| ==> !entries[i].isIntersecting
    ensures r.Some? ==>
      exists i :: 0 <= i < |entries| && entries[i] == Entry(r.value, true) &&
        forall j :: i < j < |entries| ==> !entries[j].isIntersecting
    decreases |entries|
  {
    if entries == [] then None
    else if entries[|entries| - 1].isIntersecting then Some(entries[|entries| - 1].target)
    else LastIntersecting(entries[..|entries| - 1])
  }

  /** The elements that some intersecting entry of the batch is about. */
  function Revealing(entries: seq<Entry>): (r: set<nat>)
    ensures forall t :: t in r <==> exists i :: 0 <= i < |entries| && entries[i] == Entry(t, true)
    decreases |entries|
  {
    if entries == [] then {}
    else
      var last := entries[|entries| - 1];
      var prefix := entries[..|entries| - 1];
      assert forall i :: 0 <= i < |prefix| ==> prefix[i] == entries[i];
      Revealing(prefix) + if last.isIntersecting then {last.target} else {}
  }

  /** The entries a host hands to the callback: those whose target is still
      observed when the batch is delivered. */
  function ObservedOnly(entries: seq<Entry>, observed: set<nat>): (r: seq<Entry>)
    ensures forall e :: e in r <==> e in entries && e.target in observed
    decreases |entries|
  {
    if entries == [] then []
    else
      var rest := ObservedOnly(entries[1..], observed);
      if entries[0].target in observed then [entries[0]] + rest else rest
  }

  /** The href a link must carry to point at the element with id `id`. */
  function Fragment(id: string): string
  {
    "#" + id
  }

  /** The `active` flags after one clear-all-then-set-matching pass over the
      links for the section `id`. */
  function Highlight(hrefs: seq<string>, id: string): seq<bool>
  {
    seq(|hrefs|, k requires 0 <= k < |hrefs| => hrefs[k] == Fragment(id))
  }

  /** The links' `active` flags after the callback has walked a batch entry by
      entry: an intersecting entry redoes the pass for its section's id, any
      other entry changes nothing. */
  function ProcessBatch(current: seq<bool>, hrefs: seq<string>, ids: seq<string>, entries: seq<Entry>): seq<bool>
    requires TargetsIn(entries, |ids|)
    decreases |entries|
  {
    if entries == [] then current
    else
      var e := entries[|entries| - 1];
      if e.isIntersecting then Highlight(hrefs, ids[e.target])
      else ProcessBatch(current, hrefs, ids, entries[..|entries| - 1])
  }

  /** Last writer wins: walking a batch entry by entry leaves exactly the
      highlight of the last intersecting entry's section, and leaves the links
      alone when no entry intersects. */
  lemma {:induction false} ProcessBatchLastWins(current: seq<bool>, hrefs: seq<string>, ids: seq<string>, entries: seq<Entry>)
    requires TargetsIn(entries, |ids|)
    ensures LastIntersecting(entries).Some? ==> LastIntersecting(entries).value < |ids|
    ensures ProcessBatch(current, hrefs, ids, entries) ==
      match LastIntersecting(entries)
      case None => current
      case Some(t) => Highlight(hrefs, ids[t])
    decreases |entries|
  {
    if entries != [] && !entries[|entries| - 1].isIntersecting {
      var prefix := entries[..|entries| - 1];
      assert TargetsIn(prefix, |ids|);
      ProcessBatchLastWins(current, hrefs, ids, prefix);
    }
  }

  /** One more entry extends the walk of a batch by one step. */
  lemma ProcessBatchStep(current: seq<bool>, hrefs: seq<string>, ids: seq<string>, entries: seq<Entry>, i: nat)
    requires TargetsIn(entries, |ids|) && i < |entries|
    ensures TargetsIn(entries[..i], |ids|) && TargetsIn(entries[..i + 1], |ids|)
    ensures ProcessBatch(current, hrefs, ids, entries[..i + 1]) ==
      if entries[i].isIntersecting then Highlight(hrefs, ids[entries[i].target])
      else ProcessBatch(current, hrefs, ids, entries[..i])
  {
    assert entries[..i + 1][..i] == entries[..i];
  }

  /** The number of set flags. */
  function Count(flags: seq<bool>): nat
  {
    if flags == [] then 0 else (if flags[0] then 1 else 0) + Count(flags[1..])
  }

  /** No flag is set exactly when the count is zero. */
  lemma {:induction false} CountZero(flags: seq<bool>)
    ensures Count(flags) == 0 <==> forall k :: 0 <= k < |flags| ==> !flags[k]
  {
    if flags != [] {
      CountZero(flags[1..]);
      assert forall k :: 1 <= k < |flags| ==> flags[k] == flags[1..][k - 1];
    }
  }

  /** A sequence whose only set flag is at `i` counts one. */
  lemma {:induction false} CountOne(flags: seq<bool>, i: nat)
    requires i < |flags|
    requires forall k :: 0 <= k < |flags| ==> (flags[k] <==> k == i)
    ensures Count(flags) == 1
  {
    if i == 0 {
      CountZero(flags[1..]);
    } else {
      CountOne(flags[1..], i - 1);
    }
  }

  predicate Distinct(s: seq<string>)
  {
    forall i, j :: 0 <= i < j < |s| ==> s[i] != s[j]
  }

  /** A section highlight marks no link when no href points at the section,
      and exactly one when the hrefs are distinct and one of them does. */
  lemma HighlightCount(hrefs: seq<string>, id: string)
    ensures Fragment(id) !in hrefs ==> Count(Highlight(hrefs, id)) == 0
    ensures Distinct(hrefs) && Fragment(id) in hrefs ==> Count(Highlight(hrefs, id)) == 1
  {
    var flags := Highlight(hrefs, id);
    if Fragment(id) !in hrefs {
      CountZero(flags);
    } else if Distinct(hrefs) {
      var j :| 0 <= j < |hrefs| && hrefs[j] == Fragment(id);
      CountOne(flags, j);
    }
  }

  /** What `document.getElementById(id)` returns: the first element whose id
      is `id`, or None when no element carries it. No element has the empty
      id, so the empty string finds nothing. */
  function FindById(ids: seq<string>, id: string): (r: Option<nat>)
    ensures r.None? <==> id == "" || id !in ids
    ensures r.Some? ==> r.value < |ids| && ids[r.value] == id
    ensures r.Some? ==> forall k :: 0 <= k < r.value ==> ids[k] != id
  {
    if id == "" || ids == [] then None
    else if ids[0] == id then Some(0)
    else match FindById(ids[1..], id)
      case None => None
      case Some(k) => Some(k + 1)
  }
}
