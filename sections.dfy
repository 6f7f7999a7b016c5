/** The page's sections, the layout the browser reports for them, and the
    scroll-spy rule that decides which section is the active one.

    Everything here is pure: the navigator in navigator.dfy runs the
    scroll-spy as a loop over mutable state and is proved equal to `Spy`. */
module Sections {

  /** The four sections of the page, in the order they are declared. */
  datatype SectionId = Home | Sobre | Servicos | Contato

  /** The ids the scroll handler walks, as strings, in its fixed order; they
      are also the DOM ids the sections are rendered under. */
  const SectionNames: seq<string> := ["home", "sobre", "servicos", "contato"]

  /** The same walk order over the model's section ids. */
  const Order: seq<SectionId> := [Home, Sobre, Servicos, Contato]

  /** The buttons of the desktop menu, in display order; each one navigates
      to its own id and is highlighted when that id is active. (The mobile
      menu lists the same ids but never highlights a button.) */
  const NavItems: seq<SectionId> := [Home, Sobre, Servicos, Contato]

  /** Pixels added to the scroll offset before the range test, so that a
      section counts as active a little before it reaches the top edge. */
  const Lookahead: int := 100

  /** The on-screen region of a rendered section element. */
  datatype Region = Region(top: int, height: int)

  /** What the layout host reports: a section with no key has no element. */
  type Layout = map<SectionId, Region>

  predicate Distinct(items: seq<SectionId>) {
    forall i, j :: 0 <= i < j < |items| ==> items[i] != items[j]
  }

  /** The position of a section in the walk order. */
  function Position(s: SectionId): (k: nat)
    ensures k < |Order| && Order[k] == s
  {
    match s
    case Home => 0
    case Sobre => 1
    case Servicos => 2
    case Contato => 3
  }

  /** The DOM id of a section: its entry in the walk list. */
  function Name(s: SectionId): string {
    SectionNames[Position(s)]
  }

  /** The model's ids stand for exactly the strings of the source, one to one
      and in the same order, so every section id is one of the four names. */
  lemma NamesMatchSource(s: SectionId, t: SectionId)
    ensures |Order| == |SectionNames| && Distinct(Order)
    ensures Name(s) in SectionNames
    ensures Name(s) == SectionNames[Position(s)]
    ensures Name(s) == Name(t) ==> s == t
  {
  }

  /** The range test of the scroll handler: `s` has an element and the
      reference point lies in its half-open range [top, top + height). */
  predicate Hit(layout: Layout, s: SectionId, ref: int) {
    s in layout && layout[s].top <= ref < layout[s].top + layout[s].height
  }

  /** The active section after one pass of the scroll handler over `order`,
      starting from `cur`: every hit overwrites the value, in order, so the
      result is the last hit, or `cur` when nothing is hit. */
  function Spy(order: seq<SectionId>, layout: Layout, ref: int, cur: SectionId): (r: SectionId)
    ensures r == cur || (r in order && Hit(layout, r, ref))
    decreases |order|
  {
    if order == [] then cur
    else
      var last := order[|order| - 1];
      var before := Spy(order[..|order| - 1], layout, ref, cur);
      assert before in order[..|order| - 1] ==> before in order;
      if Hit(layout, last, ref) then last else before
  }

  /** Last match wins: if `order[k]` is hit and no later section is, the
      pass ends on `order[k]`, whatever the earlier sections and `cur` are. */
  lemma {:induction false} SpyLastMatch(order: seq<SectionId>, layout: Layout, ref: int, cur: SectionId, k: nat)
    requires k < |order| && Hit(layout, order[k], ref)
    requires forall j :: k < j < |order| ==> !Hit(layout, order[j], ref)
    ensures Spy(order, layout, ref, cur) == order[k]
    decreases |order|
  {
    var n := |order| - 1;
    if k < n {
      assert !Hit(layout, order[n], ref);
      SpyLastMatch(order[..n], layout, ref, cur, k);
    }
  }

  /** When no section is hit, the pass leaves the active section unchanged
      (it follows from the contract of `Spy`: a changed value must be a hit). */
  lemma SpyNoMatch(order: seq<SectionId>, layout: Layout, ref: int, cur: SectionId)
    requires forall i :: 0 <= i < |order| ==> !Hit(layout, order[i], ref)
    ensures Spy(order, layout, ref, cur) == cur
  {
  }

  /** With no section elements at all, or with the reference point beyond
      every section, the pass leaves the active section unchanged. */
  lemma NothingRenderedKeepsActive(layout: Layout, ref: int, cur: SectionId)
    requires layout == map[] || forall s :: s in layout ==> layout[s].top + layout[s].height <= ref
    ensures Spy(Order, layout, ref, cur) == cur
  {
    SpyNoMatch(Order, layout, ref, cur);
  }

  /** The range is upper-exclusive: a reference point exactly at the end of a
      section is outside it, so it never makes that section active (unless it
      already was). */
  lemma EndOfRangeNotSelected(order: seq<SectionId>, layout: Layout, ref: int, cur: SectionId, s: SectionId)
    requires s in layout && ref == layout[s].top + layout[s].height
    ensures !Hit(layout, s, ref)
    ensures s != cur ==> Spy(order, layout, ref, cur) != s
  {
  }

  /** The range is lower-inclusive: a reference point exactly at the start of
      a non-empty section selects it when no later section is hit. */
  lemma StartOfRangeSelected(layout: Layout, ref: int, cur: SectionId, s: SectionId)
    requires s in layout && ref == layout[s].top && layout[s].height > 0
    requires forall j :: Position(s) < j < |Order| ==> !Hit(layout, Order[j], ref)
    ensures Spy(Order, layout, ref, cur) == s
  {
    SpyLastMatch(Order, layout, ref, cur, Position(s));
  }

  /** Once some section is hit, the starting value no longer matters. */
  lemma {:induction false} SpyIgnoresStart(order: seq<SectionId>, layout: Layout, ref: int, c1: SectionId, c2: SectionId, k: nat)
    requires k < |order| && Hit(layout, order[k], ref)
    ensures Spy(order, layout, ref, c1) == Spy(order, layout, ref, c2)
    decreases |order|
  {
    var n := |order| - 1;
    if k < n && !Hit(layout, order[n], ref) {
      SpyIgnoresStart(order[..n], layout, ref, c1, c2, k);
    }
  }

  /** Handling the same scroll position twice is the same as handling it once. */
  lemma {:induction false} SpyIdempotent(order: seq<SectionId>, layout: Layout, ref: int, cur: SectionId)
    ensures Spy(order, layout, ref, Spy(order, layout, ref, cur)) == Spy(order, layout, ref, cur)
    decreases |order|
  {
    if order != [] {
      var n := |order| - 1;
      if !Hit(layout, order[n], ref) {
        SpyIdempotent(order[..n], layout, ref, cur);
      }
    }
  }

  function Dist(a: int, b: int): nat {
    if a <= b then b - a else a - b
  }

  /** Where `scrollIntoView` leaves the page: the section's top at the top of
      the viewport, as far as the page can scroll, that is within
      [0, maxScroll] with maxScroll the page height minus the viewport height. */
  function Landing(top: int, maxScroll: nat): (y: int)
    ensures 0 <= y <= maxScroll
    ensures 0 <= top <= maxScroll ==> y == top
    ensures top > maxScroll ==> y == maxScroll
    ensures top < 0 ==> y == 0
    ensures forall z :: 0 <= z <= maxScroll ==> Dist(y, top) <= Dist(z, top)
  {
    if top > maxScroll then maxScroll else if top < 0 then 0 else top
  }

  /** Two regions overlap when both are non-empty and share a point. */
  predicate Overlap(a: Region, b: Region) {
    a.height > 0 && b.height > 0 && a.top < b.top + b.height && b.top < a.top + a.height
  }

  /** A well-formed page: no two section regions overlap. */
  predicate Disjoint(layout: Layout) {
    forall s, t :: s in layout && t in layout && s != t ==> !Overlap(layout[s], layout[t])
  }

  /** On a page whose sections do not overlap, the walk order is irrelevant:
      any walk that visits `s` ends on `s` when `s` contains the reference
      point. */
  lemma {:induction false} SpyFindsContainingSection(order: seq<SectionId>, layout: Layout, ref: int, cur: SectionId, s: SectionId)
    requires Disjoint(layout) && Hit(layout, s, ref) && s in order
    ensures Spy(order, layout, ref, cur) == s
    decreases |order|
  {
    var n := |order| - 1;
    var last := order[n];
    if last != s {
      if Hit(layout, last, ref) {
        assert Overlap(layout[s], layout[last]);
      }
      assert s in order[..n] by {
        var i :| 0 <= i < |order| && order[i] == s;
        assert i < n && order[..n][i] == s;
      }
      SpyFindsContainingSection(order[..n], layout, ref, cur, s);
    }
  }

  /** A sample layout of the clinic page: home [0, 800), sobre [800, 1400),
      servicos [1400, 2300), contato [2300, 3000). */
  const ClinicLayout: Layout :=
    map[Home := Region(0, 800), Sobre := Region(800, 600),
        Servicos := Region(1400, 900), Contato := Region(2300, 700)]

  /** Worked scroll positions on that page. */
  lemma ClinicScenario(cur: SectionId)
    ensures Spy(Order, ClinicLayout, 750 + Lookahead, cur) == Sobre
    ensures Spy(Order, ClinicLayout, 0 + Lookahead, cur) == Home
    ensures Spy(Order, ClinicLayout, 700 + Lookahead, cur) == Sobre
    ensures Spy(Order, ClinicLayout, 4900 + Lookahead, cur) == cur
  {
    assert Disjoint(ClinicLayout);
    SpyFindsContainingSection(Order, ClinicLayout, 750 + Lookahead, cur, Sobre);
    SpyFindsContainingSection(Order, ClinicLayout, 0 + Lookahead, cur, Home);
    SpyFindsContainingSection(Order, ClinicLayout, 700 + Lookahead, cur, Sobre);
    NothingRenderedKeepsActive(ClinicLayout, 4900 + Lookahead, cur);
  }

  /** The number of buttons in `items` that are highlighted, that is whose
      id equals the active section. */
  function Highlighted(items: seq<SectionId>, active: SectionId): (n: nat)
    ensures n <= |items|
  {
    if items == [] then 0
    else (if items[0] == active then 1 else 0) + Highlighted(items[1..], active)
  }

  lemma {:induction false} HighlightedAbsent(items: seq<SectionId>, active: SectionId)
    requires active !in items
    ensures Highlighted(items, active) == 0
  {
    if items != [] {
      HighlightedAbsent(items[1..], active);
    }
  }

  /** In a menu listing distinct ids, exactly one button is highlighted when
      the active section is listed. */
  lemma {:induction false} HighlightedOnce(items: seq<SectionId>, active: SectionId)
    requires Distinct(items) && active in items
    ensures Highlighted(items, active) == 1
  {
    if items[0] == active {
      assert forall j :: 0 <= j < |items[1..]| ==> items[1..][j] == items[j + 1];
      HighlightedAbsent(items[1..], active);
    } else {
      HighlightedOnce(items[1..], active);
    }
  }

  /** Whatever the active section, the desktop menu highlights exactly one button. */
  lemma MenuHighlightsOne(active: SectionId)
    ensures Highlighted(NavItems, active) == 1
  {
    assert NavItems[Position(active)] == active;
    HighlightedOnce(NavItems, active);
  }
}
