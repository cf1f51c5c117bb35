/**
 * The two navigation handlers that carry logic: the click handler's check of
 * the target id, and the section observer that moves the `active` class.
 */
module Navigation {
  import opened Wrappers
  import opened JsText
  import opened Validators

  // ----------------------------------------------------- click handling

  /** The character class `[a-zA-Z0-9-_]`: the `-` after the range `0-9` is literal. */
  predicate IsIdChar(c: char) {
    IsAsciiLetter(c) || ('0' <= c <= '9') || c == '-' || c == '_'
  }

  function AllIdChars(s: string): (ok: bool)
    ensures ok <==> forall i | 0 <= i < |s| :: IsIdChar(s[i])
  {
    if s == [] then true
    else
      assert forall i | 1 <= i < |s| :: s[i] == s[1..][i - 1];
      IsIdChar(s[0]) && AllIdChars(s[1..])
  }

  /** `/^[a-zA-Z][a-zA-Z0-9-_]*$/.test(id)`. */
  function ValidTargetId(id: string): (ok: bool)
    ensures ok <==> |id| >= 1 && IsAsciiLetter(id[0]) && forall i | 1 <= i < |id| :: IsIdChar(id[i])
  {
    |id| >= 1 && IsAsciiLetter(id[0]) && AllIdChars(id[1..])
  }

  /**
   * `s.substring(1)` for an `s` whose first character lies in the Basic
   * Multilingual Plane (one UTF-16 code unit): everything after it, or `""`
   * for the empty string.
   */
  function DropFirst(s: string): string {
    if s == [] then [] else s[1..]
  }

  /**
   * The section a nav click scrolls to: the link's `href` without its first
   * code unit, provided that id passes the check; otherwise the click does
   * nothing. When the first character lies outside the Basic Multilingual
   * Plane, `substring(1)` keeps the low half of its surrogate pair, which is
   * not an ASCII letter, so the check fails.
   */
  function ClickTarget(href: string): (t: Option<string>)
    ensures t.Some? ==> |href| >= 2 && href == [href[0]] + t.value && ValidTargetId(t.value)
    ensures t.Some? ==> !IsAstral(href[0])
    ensures t.None? <==> (href != [] && IsAstral(href[0])) || !ValidTargetId(DropFirst(href))
  {
    if href != [] && IsAstral(href[0]) then None
    else
      var id := DropFirst(href);
      if ValidTargetId(id) then Some(id) else None
  }

  /** A first character outside the Basic Multilingual Plane leaves a lone surrogate: no target. */
  lemma AstralFirstHasNoTarget(c: char, rest: string)
    requires IsAstral(c)
    ensures ClickTarget([c] + rest).None?
  {
  }

  /** A link `#id` leads to `id` exactly when `id` passes the check. */
  lemma ClickTargetOfFragment(id: string)
    ensures ClickTarget("#" + id) == (if ValidTargetId(id) then Some(id) else None)
  {
    assert DropFirst("#" + id) == id;
  }

  /**
   * An id that passes the check carries no whitespace, quote, backslash or
   * `#`, so it can be pasted into `#${id}` and into an attribute selector as is.
   */
  lemma ValidTargetIdIsInert(id: string)
    requires ValidTargetId(id)
    ensures forall i | 0 <= i < |id| :: !IsWhitespace(id[i]) && id[i] !in {'"', '\'', '\\', '#'}
  {
    forall i | 0 <= i < |id| ensures !IsWhitespace(id[i]) && id[i] !in {'"', '\'', '\\', '#'} {
      assert IsIdChar(id[i]);
    }
  }

  // ------------------------------------------------ section highlighting

  /** An element carrying an `href`, in document order; `isNavItem` marks the `.nav-item` links. */
  datatype Link = Link(href: string, isNavItem: bool)

  /** `document.querySelector('[href="#id"]')`: index of the first link whose href is `target`, or `|links|`. */
  function FirstWithHref(links: seq<Link>, target: string): (k: nat)
    ensures k <= |links|
    ensures forall i | 0 <= i < k :: links[i].href != target
    ensures k < |links| ==> links[k].href == target
  {
    if links == [] || links[0].href == target then 0
    else
      var k := 1 + FirstWithHref(links[1..], target);
      assert forall i | 1 <= i < k :: links[i] == links[1..][i - 1];
      k
  }

  /**
   * The `active` flags after section `id` becomes visible: every nav item is
   * cleared, then the first link whose href is `#id` is marked, nav item or not;
   * other links keep their flag.
   */
  function Highlighted(links: seq<Link>, before: seq<bool>, id: string): (after: seq<bool>)
    requires |before| == |links|
    ensures |after| == |links|
    ensures forall i, j | 0 <= i < j < |links| && links[i].isNavItem && links[j].isNavItem :: !(after[i] && after[j])
    ensures forall i | 0 <= i < |links| && !links[i].isNavItem :: before[i] ==> after[i]
  {
    var k := FirstWithHref(links, "#" + id);
    seq(|links|, i requires 0 <= i < |links| =>
      if i == k then true else if links[i].isNavItem then false else before[i])
  }

  /**
   * The flags after a highlight, link by link: a nav item is active iff it is
   * the first link to `#id`; any other element is active iff it was already,
   * or it is that first link.
   */
  lemma HighlightedExactFlags(links: seq<Link>, before: seq<bool>, id: string)
    requires |before| == |links|
    ensures var after := Highlighted(links, before, id);
      forall i | 0 <= i < |links| ::
        var first := links[i].href == "#" + id && forall j | 0 <= j < i :: links[j].href != "#" + id;
        && (links[i].isNavItem ==> (after[i] <==> first))
        && (!links[i].isNavItem ==> (after[i] <==> before[i] || first))
  {
    var k := FirstWithHref(links, "#" + id);
    var after := Highlighted(links, before, id);
    forall i | 0 <= i < |links|
      ensures i == k <==> links[i].href == "#" + id && forall j | 0 <= j < i :: links[j].href != "#" + id
    {
      if i < k {
        assert links[i].href != "#" + id;
      } else if k < i {
        assert links[k].href == "#" + id;
      }
    }
  }

  /**
   * The highlight step of the section observer, in place: the `forEach`
   * that clears every nav item, then the lookup and the mark.
   */
  method Highlight(links: seq<Link>, active: array<bool>, id: string)
    requires active.Length == |links|
    modifies active
    ensures active[..] == Highlighted(links, old(active[..]), id)
  {
    var i := 0;
    while i < active.Length
      invariant 0 <= i <= active.Length
      invariant forall j | 0 <= j < i :: active[j] == (if links[j].isNavItem then false else old(active[j]))
      invariant forall j | i <= j < active.Length :: active[j] == old(active[j])
    {
      if links[i].isNavItem {
        active[i] := false;
      }
      i := i + 1;
    }
    var target := "#" + id;
    var k := 0;
    while k < |links| && links[k].href != target
      invariant 0 <= k <= |links|
      invariant forall j | 0 <= j < k :: links[j].href != target
    {
      k := k + 1;
    }
    if k < |links| {
      active[k] := true;
    }
    assert k == FirstWithHref(links, target);
  }

  /** An `IntersectionObserver` entry: the observed section's id and whether it is intersecting. */
  datatype Entry = Entry(sectionId: string, isIntersecting: bool)

  /** Index of the last intersecting entry in a batch, or -1 when none intersects. */
  function LastIntersectingIndex(entries: seq<Entry>): (k: int)
    ensures -1 <= k < |entries|
    ensures 0 <= k ==> entries[k].isIntersecting
    ensures forall j | k < j < |entries| :: !entries[j].isIntersecting
  {
    if entries == [] then -1
    else
      var n := |entries| - 1;
      if entries[n].isIntersecting then n
      else
        var k := LastIntersectingIndex(entries[..n]);
        assert forall j | k < j < n :: entries[j] == entries[..n][j];
        k
  }

  /** The id of the last intersecting entry in a batch, if any. */
  function LastIntersecting(entries: seq<Entry>): Option<string> {
    var k := LastIntersectingIndex(entries);
    if k < 0 then None else Some(entries[k].sectionId)
  }

  /**
   * The flags after the observer callback has handled a batch, entry by
   * entry. Elements outside the nav never lose the class.
   */
  function AfterEntries(links: seq<Link>, before: seq<bool>, entries: seq<Entry>): (after: seq<bool>)
    requires |before| == |links|
    ensures |after| == |links|
    ensures forall i | 0 <= i < |links| && !links[i].isNavItem :: before[i] ==> after[i]
    decreases |entries|
  {
    if entries == [] then before
    else
      var n := |entries| - 1;
      var prev := AfterEntries(links, before, entries[..n]);
      if entries[n].isIntersecting then Highlighted(links, prev, entries[n].sectionId) else prev
  }

  /**
   * The nav items end up as the last intersecting entry alone decides: only
   * the first link to its section is active among them. A batch with no
   * intersecting entry changes nothing.
   */
  lemma {:induction false} LastEntryDecides(links: seq<Link>, before: seq<bool>, entries: seq<Entry>)
    requires |before| == |links|
    ensures LastIntersecting(entries).None? ==> AfterEntries(links, before, entries) == before
    ensures LastIntersecting(entries).Some? ==>
      var id := LastIntersecting(entries).value;
      var after := AfterEntries(links, before, entries);
      forall i | 0 <= i < |links| && links[i].isNavItem ::
        after[i] <==> i == FirstWithHref(links, "#" + id)
    decreases |entries|
  {
    if entries != [] {
      var n := |entries| - 1;
      assert entries[..n] + [entries[n]] == entries;
      LastEntryDecides(links, before, entries[..n]);
    }
  }

  /**
   * Over a batch, an element outside the nav is active afterwards iff it was
   * before, or it is the first link to the section of some intersecting entry.
   */
  lemma {:induction false} AfterEntriesOutsideNav(links: seq<Link>, before: seq<bool>, entries: seq<Entry>)
    requires |before| == |links|
    ensures var after := AfterEntries(links, before, entries);
      forall i | 0 <= i < |links| && !links[i].isNavItem ::
        after[i] <==> before[i] || exists n | 0 <= n < |entries| && entries[n].isIntersecting ::
          i == FirstWithHref(links, "#" + entries[n].sectionId)
    decreases |entries|
  {
    if entries != [] {
      var m := |entries| - 1;
      var init := entries[..m];
      assert init + [entries[m]] == entries;
      AfterEntriesOutsideNav(links, before, init);
      var prev := AfterEntries(links, before, init);
      var after := AfterEntries(links, before, entries);
      assert forall n | 0 <= n < m :: init[n] == entries[n];
      forall i | 0 <= i < |links| && !links[i].isNavItem
        ensures after[i] <==> before[i] || exists n | 0 <= n < |entries| && entries[n].isIntersecting ::
          i == FirstWithHref(links, "#" + entries[n].sectionId)
      {
        if (exists n | 0 <= n < |entries| && entries[n].isIntersecting ::
              i == FirstWithHref(links, "#" + entries[n].sectionId)) {
          var n :| 0 <= n < |entries| && entries[n].isIntersecting && i == FirstWithHref(links, "#" + entries[n].sectionId);
          if n < m {
            assert init[n] == entries[n];
          }
        }
      }
    }
  }

  /** The section observer's callback: `entries.forEach(...)` over one batch. */
  method OnSectionEntries(links: seq<Link>, active: array<bool>, entries: seq<Entry>)
    requires active.Length == |links|
    modifies active
    ensures active[..] == AfterEntries(links, old(active[..]), entries)
  {
    var n := 0;
    while n < |entries|
      invariant 0 <= n <= |entries|
      invariant active[..] == AfterEntries(links, old(active[..]), entries[..n])
    {
      assert entries[..n + 1][..n] == entries[..n];
      if entries[n].isIntersecting {
        Highlight(links, active, entries[n].sectionId);
      }
      n := n + 1;
    }
    assert entries[..n] == entries;
  }
}
