# OneConnectX landing page: loading overlay and navigation bar

This project models the two pieces of behaviour in the OneConnectX marketing
site that are more than markup and animation settings:

- **The loading overlay** (`LoadingScreen` module, `loading_screen.dfy`). An
  interval fires every 400 ms. Each firing draws an increment
  `3 + floor(random * 5)` and reads the time since mount. It then computes the
  next percentage in one of three ways:
  - *completion*: the capped sum reaches 100 and at least 8000 ms have passed.
    The result is 100, the interval is cleared and the overlay is hidden
    3000 ms later.
  - *slow-down*: the capped sum reaches 95 before 8000 ms. The result is the
    previous value plus 1.
  - *normal*: the sum, capped at 100.

  The render derives a label offset and one of four status lines from the
  percentage. `Math.random` and `Date.now` are parameters of the model: a draw
  in [0, 1) and the elapsed time. The pure tick is `Step`. The whole component
  state is the `Timer` value, and `Advance` and `Hide` change it. `RunTicks`
  plays a sequence of interval firings and stops once the interval is cleared.
  The class `Overlay` is the component as the browser drives it, and its
  methods are specified by `Advance` and `Hide`.
- **The navigation bar** (`Navbar` module, `navbar.dfy`). It keeps two flags,
  `isOpen` for the mobile menu and `scrolled` for the bar style. Three
  handlers change them: the scroll listener, the menu button, and
  `scrollToSection`. The document lookup `getElementById` is modelled as
  membership in the set of element ids present. The ids that the page declares
  are `Page.SectionIds` (`page.dfy`).

The slow-down branch is not capped: from 100 before 8000 ms it would give 101
(`SlowDownUnclamped`). So "the percentage never exceeds 100" holds only
because of how the interval is timed. The model assumes that the k-th firing
runs at least `400 * k` ms after mount and that the clock never goes back
(`OnTime`, `WellTimed`). Under that assumption at most 19 firings happen
before 8000 ms. Those firings keep the percentage at or below `EarlyBound(k)`,
which is at most 99 (`AdvanceKeepsInv`, `RunKeepsInv`). As a result, 100 is
shown exactly when the interval has been cleared by completion (for a
component that stays mounted).

The model follows the code, which differs from what one might expect of it
in two places:
- The settings comment at `LoadingScreen.js:13` gives increments of 3-8 %.
  `Math.floor(Math.random() * 5)` is at most 4, so the increment is 3 to 7
  and 8 is never drawn (`Increment`, `IncrementRange`).
- The bar need not read 100 % at the firing at 8000 ms. Twenty on-time
  firings that all draw 0.0 leave it at 60 % with the interval still running
  (`SlowDrawsAtMinimum`). It completes on a later firing
  (`CompletesAfterMinimum`).

## Model

| member | source | states |
|---|---|---|
| `LoadingScreen.Increment` | src/components/animations/LoadingScreen.js:24-25 | For a draw in [0, 1), the increment lies in 3..7, and it is 7 exactly for draws of at least 0.8 |
| `LoadingScreen.IncrementRange` | src/components/animations/LoadingScreen.js:24-25 | Each increment 3..7 is produced by some draw (with `Increment`'s bound, the increments are exactly 3..7, although the comment at line 13 says "3-8%") |
| `LoadingScreen.Step` | src/components/animations/LoadingScreen.js:26-44 | A tick completes exactly when prev+inc >= 100 and elapsed >= 8000, and then it returns 100. Before 8000 ms a sum of at least 95 advances by exactly 1. For prev <= 100 the result is never below prev. From 8000 ms on the result is at most 100, and it is 100 only on completion |
| `LoadingScreen.SlowDownUnclamped` | src/components/animations/LoadingScreen.js:36-42 | The slow-down branch has no cap: at 100 before 8000 ms a tick yields 101 |
| `LoadingScreen.InitialInv` | src/components/animations/LoadingScreen.js:6-7 | The state at mount (0 %, loading, interval running) satisfies the run invariant |
| `LoadingScreen.AdvanceKeepsInv` | src/components/animations/LoadingScreen.js:21-46 | A firing delivered on time keeps the invariant. The percentage stays in 0..100 and is 100 exactly when the interval is cleared. Before 8000 ms it stays within the early bound. The hide is never scheduled before 11000 ms |
| `LoadingScreen.RunKeepsInv` | src/components/animations/LoadingScreen.js:18-49 | Every sequence of on-time firings keeps the invariant (by induction on the firings) |
| `LoadingScreen.RunMonotone` | src/components/animations/LoadingScreen.js:22-45 | Over any on-time run from an invariant state the percentage never decreases, and the tick count never decreases. Ticks do not hide the overlay |
| `LoadingScreen.RunFromMount` | src/components/animations/LoadingScreen.js:18-49 | From mount, whatever the draws, the percentage stays in 0..100 and is 100 exactly when the interval has stopped. A stopped interval has scheduled the hide no earlier than 11000 ms, and the overlay is still shown |
| `LoadingScreen.SlowDrawsAtMinimum` | src/components/animations/LoadingScreen.js:21-46 | Twenty on-time firings that all draw 0.0, the last at 8000 ms, form a valid run that leaves the bar at 60 % with the interval running: 100 % at 8000 ms is not guaranteed |
| `LoadingScreen.CompletesAfterMinimum` | src/components/animations/LoadingScreen.js:26-35 | Once 8000 ms have passed, ceil((100 - progress) / 3) further firings always clear the interval |
| `LoadingScreen.LabelOffset` | src/components/animations/LoadingScreen.js:132 | The label offset is always within 0..95. For a percentage in 5..100 it is the percentage minus 5, and below 5 it is 0 |
| `LoadingScreen.StatusFor` | src/components/animations/LoadingScreen.js:149-152 | Of the four guarded status texts, exactly one shows for any percentage, and it is this status's message (thresholds 30, 60 and 90) |
| `LoadingScreen.StatusMonotone` | src/components/animations/LoadingScreen.js:149-152 | As the percentage grows, the status line only moves forward |
| `LoadingScreen.Overlay.constructor` | src/components/animations/LoadingScreen.js:6-7 | Mount: 0 %, loading, interval running, and the invariant holds |
| `LoadingScreen.Overlay.Tick` | src/components/animations/LoadingScreen.js:21-46 | One interval firing updates the state as `Advance` with the drawn increment does. It keeps the invariant, the percentage does not decrease and stays at most 100, and a cleared interval means 100 % with the hide scheduled no earlier than 11000 ms |
| `LoadingScreen.Overlay.Timeout` | src/components/animations/LoadingScreen.js:34 | The completion timeout hides the overlay. It can fire only at 11000 ms after mount or later |
| `Navbar.NavTargetsExist` | src/components/ui/Navbar.js:27-32 | The navItems ids are distinct. They and the "Get Started" target are all among the section ids declared in src/app/page.js (hero, services, technology, contact) |
| `Navbar.Bar.constructor` | src/components/ui/Navbar.js:7-8 | Initially the menu is closed and the bar is not scrolled |
| `Navbar.Bar.HandleScroll` | src/components/ui/Navbar.js:11-13 | After a scroll event, scrolled holds exactly when scrollY > 50, and isOpen is unchanged |
| `Navbar.Bar.ToggleMenu` | src/components/ui/Navbar.js:85 | The menu button flips isOpen and leaves scrolled unchanged |
| `Navbar.Bar.ScrollToSection` | src/components/ui/Navbar.js:19-25 | With an existing id it scrolls and closes the menu. With a missing id nothing changes. scrolled is never touched |
| `Navbar.PressMenuTwice` | src/components/ui/Navbar.js:85 | Pressing the menu button twice restores the original state |
| `Navbar.ClickNavItem` | src/components/ui/Navbar.js:57-60 | On any document that holds the page's section ids (possibly among others), every navigation entry's button finds its section and closes the menu |
| `Navbar.ClickGetStarted` | src/components/ui/Navbar.js:72-73 | On any document that holds the page's section ids (possibly among others), "Get Started" finds the contact section and closes the menu |

## Left out

- Mouse-parallax hooks (`useParallax.js`, the pointer handlers in `page.js`, `InteractiveElements.js`, `ParallaxBackground.js`) are left out. They are floating-point formulas over window size and pointer position, with no state machine.
- Scroll-to-transform mappings (`useScroll`/`useTransform`, `SectionParallax.js`) are left out. They delegate to framer-motion's interpolation, which is not part of this model.
- Springs, easing curves and repeating keyframe animations are left out. They are visual tuning with no behaviour to state.
- `layout.js` (static metadata and structured data) and the static page content are left out. They are declarative markup.
- Class-name and icon selection from `scrolled` and `isOpen` (Navbar.js lines 36-38, 47-49, 61-65, 86, 89, 97-99) is left out. It is styling only.
- `fadeOutDuration` is left out. It is declared and never read.
- Browser plumbing is left out. `setInterval`, `clearInterval` on completion, `setTimeout`, event-listener registration and `scrollIntoView` are represented only by their effect on the state: the `ticking` flag, the `hideAt` time, the `found` result.
- Unmounting is left out: the effect cleanups (`clearInterval` at LoadingScreen.js line 48, listener removal at Navbar.js line 16) are not modelled. The invariant and `RunFromMount` ("100 exactly when the interval is cleared") hold for a component that stays mounted; an unmount clears the interval at any percentage. The source also never cancels a pending hide timeout on unmount, which the model does not capture.
- `Math.random` and `Date.now` are parameters. Time is whole milliseconds. `scrollY` is modelled as an integer.
- `LoadingScreen.Overlay.Timeout` assumes the timeout fires at or after its scheduled time. It does not model the delay exactly.
- React's batching of state updates and re-rendering are left out. Each handler applies its update at once.
