/** The navigation state of the page and the three event handlers that change it. */
module Navigation {
  import opened Sections

  class Navigator {
    /** Whether the collapsed mobile menu is shown. */
    var menuOpen: bool
    /** The section whose menu button is highlighted. */
    var active: SectionId

    /** The page loads with the menu closed and the first section active. */
    constructor ()
      ensures !menuOpen && active == Home
    {
      menuOpen := false;
      active := Home;
    }

    /** Jump to section `id`. When its element is rendered the page starts a
        smooth scroll and `id` becomes active at once; when it is not, the
        active section stays. The menu is closed in both cases. */
    method ScrollTo(id: SectionId, layout: Layout)
      modifies this
      ensures !menuOpen
      ensures id in layout ==> active == id
      ensures id !in layout ==> active == old(active)
    {
      if id in layout {
        active := id;
      }
      menuOpen := false;
    }

    /** The scroll handler: walk the sections in order and let every section
        whose range holds `scrollY + Lookahead` overwrite the active one. */
    method OnScroll(scrollY: int, layout: Layout)
      modifies this
      ensures active == Spy(Order, layout, scrollY + Lookahead, old(active))
      ensures menuOpen == old(menuOpen)
    {
      var ref := scrollY + Lookahead;
      var i := 0;
      while i < |Order|
        invariant 0 <= i <= |Order|
        invariant active == Spy(Order[..i], layout, ref, old(active))
        invariant menuOpen == old(menuOpen)
      {
        var s := Order[i];
        if s in layout {
          var r := layout[s];
          if ref >= r.top && ref < r.top + r.height {
            active := s;
          }
        }
        assert Order[..i + 1][..i] == Order[..i];
        i := i + 1;
      }
      assert Order[..i] == Order;
    }

    /** The mobile menu button: open a closed menu, close an open one. */
    method ToggleMenu()
      modifies this
      ensures menuOpen == !old(menuOpen)
      ensures active == old(active)
    {
      menuOpen := !menuOpen;
    }
  }

  /** Pressing the menu button twice restores the navigation state. */
  method ToggleTwiceRestores(nav: Navigator)
    modifies nav
    ensures nav.menuOpen == old(nav.menuOpen) && nav.active == old(nav.active)
  {
    nav.ToggleMenu();
    nav.ToggleMenu();
  }

  /** On a page whose sections do not overlap, scrolling so that the reference
      point lies in section `s` makes `s` active and leaves the menu alone. */
  method ScrollIntoSection(nav: Navigator, scrollY: int, layout: Layout, s: SectionId)
    requires Disjoint(layout) && Hit(layout, s, scrollY + Lookahead)
    modifies nav
    ensures nav.active == s && nav.menuOpen == old(nav.menuOpen)
  {
    nav.OnScroll(scrollY, layout);
    SpyFindsContainingSection(Order, layout, scrollY + Lookahead, old(nav.active), s);
  }

  /** A jump to `id` from scroll offset `startY`. When `id` has an element,
      the page scrolls to `Landing(top, maxScroll)`; if that differs from
      `startY` a scroll event fires there and the scroll handler runs,
      starting from the optimistic `id`, while a page already at the landing
      offset does not move, fires no scroll event and keeps `id`. When the
      page can bring the section's top to the top of the viewport and the
      layout is well formed, `id` stays active. The menu is closed either way. */
  method NavigateAndLand(nav: Navigator, id: SectionId, layout: Layout, startY: int, maxScroll: nat)
    modifies nav
    ensures !nav.menuOpen
    ensures id !in layout ==> nav.active == old(nav.active)
    ensures id in layout && startY == Landing(layout[id].top, maxScroll) ==> nav.active == id
    ensures id in layout && startY != Landing(layout[id].top, maxScroll) ==>
      nav.active == Spy(Order, layout, Landing(layout[id].top, maxScroll) + Lookahead, id)
    ensures (Disjoint(layout) && id in layout && layout[id].height > Lookahead &&
             0 <= layout[id].top <= maxScroll) ==> nav.active == id
  {
    nav.ScrollTo(id, layout);
    if id in layout {
      var y := Landing(layout[id].top, maxScroll);
      if y != startY {
        nav.OnScroll(y, layout);
        if Disjoint(layout) && layout[id].height > Lookahead && 0 <= layout[id].top <= maxScroll {
          SpyFindsContainingSection(Order, layout, y + Lookahead, id, id);
        }
      }
    }
  }

  /** The last section cannot always reach the top of the viewport: on the
      sample clinic layout with a 3000-pixel page and a 1000-pixel viewport,
      the page stops at 2000, the reference point 2100 lies in `servicos`,
      and a jump to `contato` from elsewhere on the page ends with `servicos`
      highlighted. */
  method ContactLandsOnServices(nav: Navigator, startY: int)
    requires startY != 2000
    modifies nav
    ensures nav.active == Servicos && !nav.menuOpen
  {
    NavigateAndLand(nav, Contato, ClinicLayout, startY, 2000);
    assert Hit(ClinicLayout, Servicos, 2000 + Lookahead);
    assert Disjoint(ClinicLayout);
    SpyFindsContainingSection(Order, ClinicLayout, 2000 + Lookahead, Contato, Servicos);
  }

  /** On the same page already scrolled to the bottom, a second jump to
      `contato` does not move the page, so `contato` stays highlighted. */
  method ContactAgainAtBottom(nav: Navigator)
    modifies nav
    ensures nav.active == Contato && !nav.menuOpen
  {
    NavigateAndLand(nav, Contato, ClinicLayout, 2000, 2000);
  }
}
