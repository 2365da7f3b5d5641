# Portfolio navigation and hero rotation, in Dafny

A model of the two pieces of state logic in a single-page React portfolio
site:

- **The navigation bar** (`src/components/Navbar.tsx`). Its state is the
  active section, whether the bar is visible, the last scroll offset, and
  whether the mobile menu is open. Each scroll event does three things.
  On viewports narrower than 768 px it hides the bar while the page moves
  down past offset 100, and otherwise shows it. It records the offset. It
  hit-tests the five sections (`home`, `about`, `skills`, `projects`,
  `contact`) in that order against the viewport's vertical midpoint, and
  each hit overwrites the active section, so the last hit wins. When
  nothing is hit, the active section stays as it was. Clicking an entry
  scrolls to its section and closes the mobile menu. The menu button
  toggles the menu, and a click on the overlay closes it.
- **The hero headline** (`src/components/Hero.tsx`). A role index starts at
  0 and advances by `(prev + 1) % 3` on every interval tick. Two buttons
  scroll to the projects and contact sections, and a scroll indicator to
  the about section, each only when its section exists.

Files:

- `dom.dfy` (module `Dom`): the result of an element lookup
  (`Option<Element>`), a section's geometry (`offsetTop`, `offsetHeight`)
  and the document's elements by id (`Document`).
- `navbar.dfy` (module `Navigation`): the entries, the constants 768 and
  100, the specification functions `NextVisible` and `ScanSections`, the
  lemmas that characterise the hit test, and the class `Navbar`.
  `Navbar.HandleScroll` runs the same loop as the component's `forEach`,
  and it is proved against `ScanSections`. The method `MobileSession` is a
  client that walks through a short session on a phone.
- `hero.dfy` (module `HeroSection`): the roles, the tick `NextRole`, the
  iterated tick `Ticks` with its lemmas, and the class `Hero`. The method
  `RoleRotation` is a client that goes once round the cycle.

The midpoint `scrollY + innerHeight / 2` can be a half pixel. The model
keeps it in integers by doubling both sides, so a section
`[top, top + height)` is hit when
`2*top <= 2*scrollY + innerHeight < 2*(top + height)`.

Browser lookups and geometry are inputs. `HandleScroll` takes the scroll
offset, the viewport width and height, and an array holding one lookup
result per entry. A `None` entry stands for the `null` that
`document.getElementById` returns. The scroll helpers take the document's
elements by id (`Dom.Document`) and return whether they asked the browser
to scroll (`scrollRequested`).

## Model

| member | source | states |
|---|---|---|
| `Navigation.NextVisible` | src/components/Navbar.tsx:24-33 | desktop viewports (width ≥ 768) always show the bar; scrolling up or staying put always shows it; offsets ≤ 100 always show it; on mobile, moving down past 100 hides it |
| `Navigation.ScanSections` | src/components/Navbar.tsx:37-50 | the active section after the hit test is either the previous one or one of the navigation ids |
| `Navigation.ScanPicksLastHit` | src/components/Navbar.tsx:41-50 | when section k is hit and no later section is, the active section becomes the id of entry k, whatever earlier sections and the previous value were |
| `Navigation.ScanKeepsActiveWithoutHit` | src/components/Navbar.tsx:41-50 | when no present section contains the midpoint, the active section is unchanged; absent sections are skipped |
| `Navigation.ScanResultCases` | src/components/Navbar.tsx:38-50 | the only outcomes are: nothing was hit and the previous value is kept, or the result is the id of the last hit |
| `Navigation.AbsentNeverBecomesActive` | src/components/Navbar.tsx:41-50 | a section whose lookup returned null never becomes active unless it already was: the `if (section)` guard skips it |
| `Navigation.DocumentedScrollScenario` | src/components/Navbar.tsx:38-50 | with sections [0,800) and [800,1400) and a 400 px viewport, offset 500 makes `home` active and offset 900 makes `about` active |
| `Navigation.Navbar.constructor` | src/components/Navbar.tsx:15-18 | the initial state is `home` active, visible, last offset 0, menu closed; the active section is a navigation id |
| `Navigation.Navbar.HandleScroll` | src/components/Navbar.tsx:21-51 | visibility becomes `NextVisible` of the width, the previously recorded offset and the new offset; the recorded offset becomes the event's offset whatever the width; the active section becomes `ScanSections` of the lookups; the menu is untouched; the active section stays a navigation id |
| `Navigation.Navbar.ScrollToSection` | src/components/Navbar.tsx:57-63 | a scroll is requested exactly when the document has an element with the clicked id; the menu is closed either way; nothing else changes |
| `Navigation.Navbar.ToggleMobileMenu` | src/components/Navbar.tsx:124 | the menu flag flips; nothing else changes |
| `Navigation.Navbar.CloseMobileMenu` | src/components/Navbar.tsx:158 | the menu is closed; nothing else changes |
| `HeroSection.NextRole` | src/components/Hero.tsx:17 | a tick yields an index below the number of roles; it moves to the next role and wraps from the last role (index 2) to 0 |
| `HeroSection.Ticks` | src/components/Hero.tsx:15-18 | any number of ticks from a valid index stays a valid index |
| `HeroSection.TicksAdvanceBy` | src/components/Hero.tsx:16-18 | n ticks move the index n places forward modulo the number of roles |
| `HeroSection.FullCyclesReturn` | src/components/Hero.tsx:6-17 | after any whole number of rounds of three ticks, the index is back where it started |
| `HeroSection.Hero.constructor` | src/components/Hero.tsx:13 | the role index starts at 0 |
| `HeroSection.Hero.Tick` | src/components/Hero.tsx:16-18 | the index becomes `NextRole` of the old index and stays in range |
| `HeroSection.Hero.ShownRole` | src/components/Hero.tsx:103 | the headline always shows one of the three roles |
| `HeroSection.Hero.ScrollToProjects` | src/components/Hero.tsx:23-25 | a scroll is requested exactly when the document has an element with id `projects`; the role index is not changed |
| `HeroSection.Hero.ScrollToContact` | src/components/Hero.tsx:27-29 | a scroll is requested exactly when the document has an element with id `contact`; the role index is not changed |
| `HeroSection.Hero.ScrollToAbout` | src/components/Hero.tsx:155-160 | a scroll is requested exactly when the document has an element with id `about`; the role index is not changed |

## Left out

- Rendering and animation: all JSX, styling and motion props. This includes the static sections (About, Skills, EducationSection, Projects, Footer).
- `src/components/LoadingScreen.tsx` and `src/pages/Index.tsx`: a conditional render on a boolean prop, which one 2500 ms timer clears (Index.tsx:16-23).
- `src/components/Contact.tsx` (a network form submission), `src/components/CustomCursor.tsx` (pointer tracking with floating-point spring motion) and `src/data/projects.ts` (static content).
- Subscribing and unsubscribing the scroll listener and the 3000 ms interval. Each scroll event and each tick is a method call.
- Navigation.Navbar.HandleScroll: assumes each event compares against the offset recorded by the previous event. In the component the effect re-subscribes the listener only after a commit in which `lastScrollY` changed (its dependency list is `[lastScrollY]`), so two events that arrive before that commit can both compare against an older offset. That ordering is not modelled.
- Navigation.Navbar.HandleScroll: offsets, heights and widths are integers. `window.scrollY` can be fractional on some displays, and floating-point rounding is not modelled.
- The smooth-scroll behaviour of `scrollIntoView`. The scroll helpers only report whether they requested a scroll.
