# Cão Maravilha section navigator

The clinic's single-page site has a sticky header whose buttons jump to the
page's four sections (`home`, `sobre`, `servicos`, `contato`) and highlight the
section currently in view. This model covers the state behind that header and
the three handlers that change it:

- `scrollToSection(id)`: if the section's element exists, request a smooth
  scroll and make `id` active at once; always close the mobile menu.
- the scroll handler (a scroll-spy): take `scrollY + 100`, walk the sections
  in their fixed order, skip the ones with no element, and let every section
  whose half-open range `[offsetTop, offsetTop + offsetHeight)` holds that point
  overwrite the active section. The last match wins; no match keeps the value.
- the mobile menu button, which flips `isMenuOpen`.

`sections.dfy` (module `Sections`) holds the section ids, the layout the
browser reports and the pure rule `Spy`, a fold over the walk order, with the
lemmas that characterise it. `navigator.dfy` (module `Navigation`) holds the
class `Navigator`, whose two fields are the component's two state variables
and whose methods are the handlers; the scroll handler is a loop proved equal
to `Spy`.

Inputs that come from the browser are parameters: the scroll offset is an
`int`, and the layout is a map from section id to `Region(top, height)`, where
a missing key stands for `document.getElementById` returning nothing.

## Model

| member | source | states |
|---|---|---|
| `Navigation.Navigator.constructor` | src/App.jsx:35-36 | the menu starts closed and `home` starts active |
| `Navigation.Navigator.ScrollTo` | src/App.jsx:39-46 | afterwards the menu is closed whatever it was; the target becomes active exactly when its element exists, otherwise the active section is unchanged |
| `Navigation.Navigator.OnScroll` | src/App.jsx:50-63 | the loop leaves the active section equal to `Spy` over the walk order at `scrollY + 100`, starting from the old value, and never touches the menu state |
| `Navigation.Navigator.ToggleMenu` | src/App.jsx:132 | the menu state is negated and the active section is unchanged |
| `Navigation.ToggleTwiceRestores` | src/App.jsx:132 | two presses of the menu button restore both state fields |
| `Navigation.NavigateAndLand` | src/App.jsx:39-63 | a jump to a section from a given scroll offset: the menu is closed; a missing element changes nothing else; a page already at the landing offset (section top clamped to the page's scroll range) does not move, fires no scroll event and keeps the target; otherwise the scroll event at the landing offset makes the active section the scroll-spy's result there, starting from the target, and it is the target itself when the page can bring the target's top to the viewport top, sections do not overlap and the target is taller than the 100-pixel lookahead |
| `Navigation.ContactLandsOnServices` | src/App.jsx:39-63 | on the sample layout with a page that can scroll only to 2000, a jump to `contato` from any other offset ends with `servicos` active: the last scroll event overwrites the optimistic update |
| `Navigation.ContactAgainAtBottom` | src/App.jsx:39-46 | on the same page already at 2000, a jump to `contato` fires no scroll event and leaves `contato` active |
| `Sections.Landing` | src/App.jsx:42 | the landing offset lies within the page's scroll range, equals the section top when that is reachable, and is the nearest end of the range otherwise; in every case it is the point of the range nearest the section top |
| `Navigation.ScrollIntoSection` | src/App.jsx:50-63 | on a page with non-overlapping sections, a scroll whose reference point lies in a section makes that section active and keeps the menu state |
| `Sections.Spy` | src/App.jsx:54-62 | the pass yields either the starting value or a section of the walk that has an element and whose range holds the reference point |
| `Sections.SpyLastMatch` | src/App.jsx:54-62 | if section k is hit and no later one is, the pass ends on section k whatever came before (last match wins) |
| `Sections.SpyNoMatch` | src/App.jsx:54-62 | if no section is hit, the active section is unchanged |
| `Sections.NothingRenderedKeepsActive` | src/App.jsx:54-62 | with no section elements, or with the reference point past the end of every section, the active section is unchanged |
| `Sections.EndOfRangeNotSelected` | src/App.jsx:58 | a reference point exactly at `offsetTop + offsetHeight` is outside that section (upper bound excluded), so the pass never selects it unless it was already active |
| `Sections.StartOfRangeSelected` | src/App.jsx:58 | a reference point exactly at `offsetTop` of a non-empty section selects it when no later section is hit (lower bound included) |
| `Sections.SpyIgnoresStart` | src/App.jsx:54-62 | once any section is hit, the previous active section has no influence on the result |
| `Sections.SpyIdempotent` | src/App.jsx:50-63 | handling the same scroll position twice gives the same active section as handling it once |
| `Sections.SpyFindsContainingSection` | src/App.jsx:51-61 | when no two section regions overlap, any walk that visits the section containing the reference point ends on that section, so the result does not depend on the walk order |
| `Sections.ClinicScenario` | src/App.jsx:52-58 | on a sample layout of the clinic page (home 0-800, sobre 800-1400, servicos 1400-2300, contato 2300-3000) offsets 750 and 700 select `sobre`, offset 0 selects `home`, offset 4900 keeps the old value |
| `Sections.Position` | src/App.jsx:51 | every section id has a position in the walk order that holds that id |
| `Sections.NamesMatchSource` | src/App.jsx:51 | the model's ids correspond one to one, in order, to the four DOM id strings the handler walks, so the active section is always one of them |
| `Sections.Highlighted` | src/App.jsx:119-123 | counts the buttons whose id equals the active section (the test on line 120); never more than there are buttons |
| `Sections.HighlightedOnce` | src/App.jsx:119-123 | in a menu of distinct ids that lists the active section, exactly one button is highlighted |
| `Sections.MenuHighlightsOne` | src/App.jsx:110-123 | whatever the active section, the desktop menu highlights exactly one of its four buttons (the mobile menu, lines 148-161, highlights none) |

The ids every button passes to `scrollToSection` (src/App.jsx:111-118,
149-156, 217) and the ids the scroll handler assigns (src/App.jsx:51) are all
members of `SectionId`, so "the active section is one of the four ids" holds
by typing in this model; `NamesMatchSource` ties those ids to the strings of
the source.

## Left out

- The smooth scroll itself (`scrollIntoView`): `ScrollTo` models only the state changes it makes at once. When the page moves, the scroll fires scroll events, each handled by `OnScroll`, so the optimistic `active := id` is overwritten by the sections the scroll passes (a jump from `home` to `contato` highlights `sobre` and `servicos` on the way). The intermediate scroll positions are not modelled; only the final scroll event is, in `NavigateAndLand`, which also covers a jump that does not move the page and so fires no event.
- Navigation.NavigateAndLand: takes the landing offset to be the section's top clamped to [0, page height − viewport height], the default alignment of `scrollIntoView`; CSS scroll margins or padding, an interrupted scroll, and a layout that changes during the scroll are not modelled.
- Reading `window.scrollY`, `offsetTop` and `offsetHeight` from the DOM: they are parameters. `scrollY` can be fractional in browsers; the model takes it as an integer.
- `ScrollTo` takes a `SectionId`, not an arbitrary string: every call site in the component passes one of the four ids, so ids outside that set are not modelled.
- Subscribing and unsubscribing the scroll handler with `useEffect` (src/App.jsx:49, 65-67): host plumbing with no effect on the state rules.
- React's batching of state updates: the model takes the last assignment in a handler as the new value, which is what the component observes after re-rendering.
- The phone-call buttons (`window.open('tel:…')`), all rendering, CSS classes, images, copy text and framer-motion animation settings: presentation and foreign I/O with no navigation state. The button highlight is modelled only as the count `Highlighted`.
