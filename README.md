# Portfolio site: carousel, cursor trail and landing-page state

This project models the three pieces of a single-page portfolio site that hold
behaviour rather than markup, and proves properties of them in Dafny.

- **Certificate carousel** (`carousel.dfy`, module `Carousel`). The carousel keeps
  a current index over a fixed list of certificates and an auto-advance flag.
  The prev, next and dot buttons move the index with JavaScript's truncating `%`,
  which is modelled as `JsRem`. An interval tick advances the index only while
  the flag is set. Hovering clears the flag and leaving sets it. The interval
  exists only for two or more items. The pure functions `NextIndex`,
  `PrevIndex`, `GoIndex` and `Step` specify the component. The class `Rotator`
  holds `index`, `running` and `timerArmed`, and each of its methods is proved
  against `Step`. `Render` gives what is drawn: nothing for an empty list,
  otherwise the shifted track, plus the controls and one dot per item when there
  are two or more.
- **Cursor trail** (`trail.dfy`, module `Trail`). The trail is a newest-first
  buffer of pointer positions. Each move puts the point in front and then pops
  the tail once if the buffer is longer than `trailLength`. The class
  `TrailBuffer` holds the buffer as a `seq` that `OnMove` reassigns. `AfterMove`
  and `Feed` specify one move and a series of moves. `Draw` is the frame loop:
  it runs over the buffer from its last index down to 0, which is oldest to
  newest, and then places the head dot on the newest point.
- **Landing page** (`landing.dfy`, module `Landing`). The class `LandingState`
  holds the `dark` flag and the `tab` index. `RenderedPanels` gives the panels
  that the four `tab === k` guards select. `Initials` models
  `name.split(" ").map(n => n[0]).slice(0, 2).join("")`, with JavaScript's
  `split` as `SplitOn`. `AvatarFor` decides between the picture and the initials.

`wrappers.dfy` holds the shared `Option` type.

The `go(i)` handler is `i % items.length` with JavaScript's `%`, so it would
give a non-positive index for a negative `i`; it is not a wrap-around
`((i % L) + L) % L`. The model follows the code. `GoIndex` is the truncating
remainder, `GoNegativeStaysNegative` shows the difference, and `Rotator.Go`
only accepts `0 <= i < |items|`, which is all the dot buttons ever pass.

## Model

| member | source | states |
|---|---|---|
| `Carousel.JsRem` | src/components/CertificateCarousel.tsx:33-35 | JavaScript `%`: for a non-negative dividend it equals the Euclidean remainder in `[0, n)`; for a negative one it lies in `(-n, 0]`; in both cases it is congruent to the dividend modulo `n` |
| `Carousel.NextIndex` | src/components/CertificateCarousel.tsx:34 | from a valid index, `next` stays in `[0, L)` and is `i + 1`, or wraps from `L - 1` to `0` |
| `Carousel.PrevIndex` | src/components/CertificateCarousel.tsx:33 | from a valid index, `prev` stays in `[0, L)` and is `i - 1`, or wraps from `0` to `L - 1` |
| `Carousel.GoIndex` | src/components/CertificateCarousel.tsx:35 | `go(i)` for `0 <= i < L` lands exactly on `i`; for every `i` the result lies strictly between `-L` and `L` |
| `Carousel.PrevNextInverse` | src/components/CertificateCarousel.tsx:33-34 | `prev(next(i)) == i` and `next(prev(i)) == i` for every valid index |
| `Carousel.GoNegativeStaysNegative` | src/components/CertificateCarousel.tsx:35 | a negative target that is not a multiple of `L` gives a negative index, different from the wrap-around value `i % L` |
| `Carousel.NextIterIsShift` | src/components/CertificateCarousel.tsx:34 | `k` presses of `next` from a valid index `i` give `(i + k) % L` |
| `Carousel.NextFullCycle` | src/components/CertificateCarousel.tsx:34 | pressing `next` `L` times returns to the starting index |
| `Carousel.Initial` | src/components/CertificateCarousel.tsx:29-30 | a mounted carousel starts at index 0 with auto-advance on |
| `Carousel.Step` | src/components/CertificateCarousel.tsx:33-46 | a tick advances by `next` when running and changes nothing when paused; hover-enter and hover-leave set the flag to false and true and keep the index; prev, next and go set the index to `PrevIndex`, `NextIndex` and `GoIndex` of it and keep the flag |
| `Carousel.RunKeepsIndexInRange` | src/components/CertificateCarousel.tsx:33-46 | any sequence of ticks, hovers, prev, next and in-range dot clicks keeps the index in `[0, L)` |
| `Carousel.PausedTicksAreIgnored` | src/components/CertificateCarousel.tsx:42-46 | while paused, any number of ticks leaves the state unchanged |
| `Carousel.RunningTicksAdvance` | src/components/CertificateCarousel.tsx:42-46 | while running, `k` ticks act as `k` presses of `next` |
| `Carousel.RunningTicksCycle` | src/components/CertificateCarousel.tsx:42-46 | while running, `L` ticks bring the carousel back to the item it started on |
| `Carousel.ThreeItemsAfterTwelveSeconds` | src/components/CertificateCarousel.tsx:42-46 | two ticks from `Initial()` on three items reach index 2 (the two firings of the 5000 ms interval in 12000 ms) |
| `Carousel.HoverEnterThenTick` | src/components/CertificateCarousel.tsx:113 | a hover-enter followed by a tick does not move the index and leaves auto-advance off |
| `Carousel.HoverLeaveThenTick` | src/components/CertificateCarousel.tsx:114 | a hover-leave followed by a tick advances the index exactly once and leaves auto-advance on |
| `Carousel.Rotator.constructor` | src/components/CertificateCarousel.tsx:29-51 | mounting sets index 0 and auto-advance on, and arms the interval exactly when there are at least two items |
| `Carousel.Rotator.Tick` | src/components/CertificateCarousel.tsx:42-46 | a tick of the armed interval moves the index by `next` if running and keeps it otherwise; the index stays valid |
| `Carousel.Rotator.HoverEnter` | src/components/CertificateCarousel.tsx:113 | mouse-enter clears `running` and keeps the index |
| `Carousel.Rotator.HoverLeave` | src/components/CertificateCarousel.tsx:114 | mouse-leave sets `running` and keeps the index |
| `Carousel.Rotator.Prev` | src/components/CertificateCarousel.tsx:33 | the previous button moves the index by `prev` and keeps it valid and the flag unchanged |
| `Carousel.Rotator.Next` | src/components/CertificateCarousel.tsx:34 | the next button moves the index by `next` and keeps it valid and the flag unchanged |
| `Carousel.Rotator.Go` | src/components/CertificateCarousel.tsx:332-336 | the dot button of item `i` sets the index to exactly `i` |
| `Carousel.Render` | src/components/CertificateCarousel.tsx:53-346 | nothing is rendered if and only if the list is empty (:53-55); otherwise the track is shifted by `index * 100` percent (:134), the controls appear if and only if there are two or more items (:266), and then there is one dot per item, active exactly at `index` (:332-346) |
| `Carousel.RenderOneActiveDot` | src/components/CertificateCarousel.tsx:338-346 | with two or more items and a valid index, exactly one dot is active, and it is the one at `index` |
| `Trail.AfterMove` | src/components/CursorTrail.tsx:38-41 | after a move the buffer grows by one while it is below capacity and otherwise keeps its length; its first element is the new point and the rest is the old buffer shifted by one place |
| `Trail.AfterMoveCases` | src/components/CursorTrail.tsx:39-40 | with capacity at least 1 the new point is in front; below capacity the result is `[p] + old`; at or over capacity it is `[p] + old[..L-1]`; a buffer within capacity stays within it |
| `Trail.FeedStaysBounded` | src/components/CursorTrail.tsx:39-40 | a buffer within capacity stays within capacity after any series of moves |
| `Trail.FeedFromEmptyAt` | src/components/CursorTrail.tsx:19 | from the empty buffer, the length is the number of moves capped at `trailLength`, and position `k` holds the `k`-th most recent move |
| `Trail.FeedFromEmpty` | src/components/CursorTrail.tsx:19 | from the empty buffer, the buffer is exactly the last `trailLength` moves, newest first |
| `Trail.TwelveOfTwenty` | src/components/CursorTrail.tsx:15 | with the default length 12, twenty moves leave the twelve most recent points, newest first |
| `Trail.Countdown` | src/components/CursorTrail.tsx:47 | the trail loop's visiting order `L-1, L-2, ..., 0`, element by element |
| `Trail.CountdownVisitsEachOnce` | src/components/CursorTrail.tsx:47 | the trail loop visits every index of the buffer exactly once and no other index |
| `Trail.TrailBuffer.Capacity` | src/components/CursorTrail.tsx:40 | the bound the buffer keeps: `trailLength`, or 0 when `trailLength` is negative |
| `Trail.TrailBuffer.constructor` | src/components/CursorTrail.tsx:19 | the buffer starts empty |
| `Trail.TrailBuffer.OnMove` | src/components/CursorTrail.tsx:38-41 | the buffer becomes `AfterMove` of the old buffer and stays within capacity; the newest point is at the front whenever `trailLength >= 1` |
| `Trail.TrailBuffer.Draw` | src/components/CursorTrail.tsx:43-64 | the loop visits the indices in the order `L-1` down to `0` and draws the buffer reversed, oldest to newest; the head dot is drawn if and only if the buffer is non-empty, and at `points[0]` |
| `Landing.PaletteMode` | src/components/LandingPage.tsx:63 | the palette mode is `"dark"` if and only if `dark` is set, and `"light"` otherwise |
| `Landing.TooltipOffersOtherMode` | src/components/LandingPage.tsx:345 | the theme tooltip names the mode opposite to the current one |
| `Landing.ToggleTooltip` | src/components/LandingPage.tsx:345 | the tooltip reads "Toggle ", then the palette mode of the opposite theme, then " mode" |
| `Landing.TabValues` | src/components/LandingPage.tsx:306-311 | the tab strip offers the values `0..3`, one per label |
| `Landing.RenderedPanels` | src/components/LandingPage.tsx:368-418 | at most one panel is rendered; exactly one if and only if `tab` is in `0..3`: Resume, Projects, Contact, About for 0, 1, 2, 3 |
| `Landing.OfferedTabsShowDistinctPanels` | src/components/LandingPage.tsx:306-418 | every offered tab value shows exactly one panel, and different tabs show different panels |
| `Landing.LandingState.constructor` | src/components/LandingPage.tsx:56-57 | the page starts in dark mode on tab 0 |
| `Landing.LandingState.ToggleTheme` | src/components/LandingPage.tsx:347 | the theme button negates `dark` |
| `Landing.LandingState.HandleChange` | src/components/LandingPage.tsx:110 | a tab change sets `tab` to the value passed |
| `Landing.ToggleTwice` | src/components/LandingPage.tsx:347 | pressing the theme button twice restores the theme and leaves the tab alone |
| `Landing.SplitOn` | src/components/LandingPage.tsx:156 | `split` gives at least one piece; no piece contains the separator; every character of a piece comes from the string |
| `Landing.JoinWith` | src/components/LandingPage.tsx:159 | `join` of no pieces is the empty string; otherwise the result starts with the first piece |
| `Landing.JoinEndsWithLast` | src/components/LandingPage.tsx:159 | a non-empty join ends with its last piece, with the separator right before it when there are two or more pieces |
| `Landing.JoinSplit` | src/components/LandingPage.tsx:156 | joining the pieces of a split with the separator gives back the original string |
| `Landing.SplitJoin` | src/components/LandingPage.tsx:156 | splitting a join of separator-free pieces gives back the pieces |
| `Landing.FirstChar` | src/components/LandingPage.tsx:157 | `n[0]`, as joined: one character, the first, for a non-empty piece, and nothing for an empty one |
| `Landing.Initials` | src/components/LandingPage.tsx:155-159 | the initials are the first characters of the first two space-separated pieces, with an empty piece giving nothing; they are at most two characters long, contain no space, use only characters of the name, and start with the name's first character when that is not a space |
| `Landing.InitialsOfOwner` | src/components/LandingPage.tsx:40 | the name "Nikhil Teja" gives the initials "NT" |
| `Landing.AvatarFor` | src/components/LandingPage.tsx:144-159 | the avatar shows the picture exactly when the URL is non-empty and the initials exactly when it is empty, never both |

## Left out

- JSX markup, MUI theming, `sx` styles, colours and responsive layout are presentation. The `Resume`, `Projects`, `AboutMe` and `Timeline` components are static content and are not part of this model.
- Static content arrays such as the profile record, project and timeline lists are literal data. The model takes the certificates, the name and the avatar URL as parameters.
- `setInterval`/`clearInterval`, `requestAnimationFrame`/`cancelAnimationFrame` and effect cleanup are host scheduling. A tick is an abstract event (`Rotator.Tick`, `Event.Tick`), and one frame is one call of `TrailBuffer.Draw`. How many ticks fall into a time span is not modelled.
- The trail's weight `t`, its radius and opacity, and the canvas resize with `devicePixelRatio` and `Math.round` are floating-point calculations and are left out. The same goes for the pointer percentages of the interactive colour field.
- Canvas and DOM side effects are foreign browser APIs: `getContext`, `arc`/`fill`, listener registration, the cursor override and its restore, and hiding an image on `onError`. `Draw` returns the sequence of visited indices and drawn points in place of the drawing.
- Re-running effects when props change, such as `items.length` changing after mount, is React lifecycle and is not modelled. `items` is fixed when a `Rotator` is constructed, and so is `trailLength` for a `TrailBuffer`.
- Carousel.Rotator.Go: requires `0 <= i < |items|`, because the only callers are the dot buttons, which pass `0..L-1`. `GoIndex` still models the operator for every `i`.
- Carousel.Rotator.Tick, Prev, Next, HoverEnter and HoverLeave require a non-empty list. An empty list renders nothing, so none of these handlers exist then.
- Trail.TrailBuffer.OnMove: `trailLength` is an `int`. A non-integer `trailLength`, which JavaScript would compare as a number, is not modelled.
- Landing.Initials: strings are sequences of Dafny characters. JavaScript's UTF-16 indexing `n[0]`, which can return half of a surrogate pair, is not modelled.
- The theme button's sun/moon icon choice is presentation and is left out.
