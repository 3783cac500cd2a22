# Portfolio carousels, awards gallery and theme hook in Dafny

A Dafny model of the stateful logic of a personal portfolio single-page
application. The model covers four parts.

- **The skills carousel.** The skills list is grouped into slides of 12
  on a desktop screen or 9 on a narrow one, and a short tail is merged
  into the last full slide. Next, previous, swipe, indicator clicks and
  auto-advance move between slides.
- **The projects carousel.** Projects sit four to a slide. Slides wrap
  around, and the arrows are disabled at the ends. Long descriptions are
  collapsed to 120 characters plus "...". Cards carry per-card flags for
  expanded descriptions and failed images, and all cards get the height
  of the tallest one.
- **The awards and certificates gallery.** It filters by type, then sorts
  by title or newest date on a copy. A "load more" window shows a prefix
  of the result and resets when the filter or sort order changes. A
  selected item's details can be opened and closed.
- **The dark/light theme hook.** The flag starts dark. It is resolved once
  from the saved theme, then persisted to local storage and mirrored as
  the `dark-mode` body class. The toggle flips it.

Modules:
- `Optional`: the `Option` type.
- `Carousel`: `Next`/`Prev`, the index steps that both carousels share.
- `Skills`, `Projects`, `Awards` and `Theme`: one module per component.

The skills grouping loop is a method. It is proved equal to
`OptimalSlides`, a short recursive definition of the intended grouping.
A slide takes `n` skills unless at most 1.5·`n` remain, and then they all
go on one final slide. `OptimalSlides` has no 1.5·`n` cap check, so the
method's proof shows that the cap check in the loop can never fail.

Card-height equalisation is a method on an array of natural heights. Its
first pass is a read-only method proved to compute the maximum. The
gallery's state is a class whose fields the handlers update. The theme
hook is a class with the flag, local storage as a map, and the body's
class list as a set.

The theme flag starts dark, and the system colour-scheme preference can
only set it dark again. So the resolved theme is dark exactly when the
saved theme is not "light", whatever the system preference
(`Theme.InitialResolution`).

## Model

| member | source | states |
|---|---|---|
| `Carousel.Next` | src/components/Skills/Skills.js:144-147 | "next" (the same expression in src/components/Projects/Projects.js:51-53) stays below the slide count, moves one slide on, and wraps from the last slide to the first |
| `Carousel.Prev` | src/components/Skills/Skills.js:149-152 | "previous" (also src/components/Projects/Projects.js:55-57) stays below the slide count, moves one back, and wraps from the first slide to the last |
| `Carousel.NextPrevInverse` | src/components/Skills/Skills.js:144-152 | next and previous undo each other on every in-range slide |
| `Carousel.StepMoves` | src/components/Projects/Projects.js:51-57 | with more than one slide, each step moves to a different slide |
| `Skills.GetOptimalSlides` | src/components/Skills/Skills.js:53-83 | the grouping loop (cut, push, merge a short tail into the last slide, 1.5× cap) always yields `OptimalSlides`; the loop terminates and its cap check never fails |
| `Skills.SlidesCover` | src/components/Skills/Skills.js:60-80 | the slides laid end to end are the skills list, unchanged and in order |
| `Skills.SlidesNonEmpty` | src/components/Skills/Skills.js:60-80 | no slide is empty; there are no slides exactly when there are no skills |
| `Skills.SlideSizes` | src/components/Skills/Skills.js:64-79 | every slide but the last holds exactly `perSlide` skills; the last holds between 1 and 1.5×`perSlide` |
| `Skills.SlideContents` | src/components/Skills/Skills.js:77-79 | slide `p` holds the skills from `p*perSlide` to the next slide's start (the last slide: to the end) |
| `Skills.MergeExactly` | src/components/Skills/Skills.js:64-73 | with `k` full slides and `r` left over, the last slide is over-full exactly when `k >= 1`, `0 < r` and `2r <= perSlide`; it then holds `perSlide + r` and there are `k` slides, otherwise `k` or `k+1` |
| `Skills.SiteSkillGrouping` | src/data/skillsData.js:1-131 | the site's 26 skills give slides of sizes [12, 14] on a desktop screen and [9, 9, 8] on a narrow one |
| `Skills.CurrentSkills` | src/components/Skills/Skills.js:87 | the shown skills are the current slide's, or none when the index is past the last slide |
| `Skills.WideningShowsEmptySlide` | src/components/Skills/Skills.js:15-26 | widening the screen at the third of three narrow slides keeps index 2, which the two desktop slides lack: no skills are shown until the next auto-advance tick, which goes to slide 1 |
| `Skills.Wrap` | src/components/Skills/Skills.js:124-129 | the swipe's explicit wrap-around stays in range, keeps an in-range target, and sends −1 to the last slide and `total` to the first, as `Prev` and `Next` do |
| `Skills.OnSwipeEnd` | src/components/Skills/Skills.js:103-130 | with one slide or no swipe nothing moves; a right swipe acts as "previous" with direction −1, a left swipe as "next" with direction +1, and the explicit wrap-around equals the modular step |
| `Skills.OnIndicatorClick` | src/components/Skills/Skills.js:374-378 | clicking indicator `i` shows slide `i` and animates forward exactly when `i` is after the current slide |
| `Skills.AutoAdvance` | src/components/Skills/Skills.js:90-99 | a tick moves on only with auto-play on, the section in view and more than one slide, and then always to a different slide below the slide count, also from an index past the end |
| `Projects.TotalSlides` | src/components/Projects/Projects.js:14-16 | the slide count is the ceiling of the project count over 4, zero exactly when there are no projects |
| `Projects.SlideProjects` | src/components/Projects/Projects.js:183-187 | a slide holds at most 4 cards, each the project at its global index, and is non-empty when its first index is in the list |
| `Projects.CardIsProjectAtGlobalIndex` | src/components/Projects/Projects.js:183-189 | card `i` of slide `s` is the project at `GlobalIndex(s, i) = s*4 + i`, with `i < 4` and `s` below the slide count |
| `Projects.SlideOccupancy` | src/components/Projects/Projects.js:177-187 | a slide has cards exactly when it is below the slide count; all slides but the last are full |
| `Projects.ProjectOnExactlyOneSlide` | src/components/Projects/Projects.js:183-189 | project `k` appears on slide `k/4` at card `k%4`, and at no other slide and position |
| `Projects.SiteProjectSlides` | src/data/projectsData.js:7-87 | the site's 10 projects give 3 slides of 4, 4 and 2 cards |
| `Projects.ArrowsDisabledExactlyAtWrap` | src/components/Projects/Projects.js:144-159 | the previous arrow is disabled (`PrevArrowDisabled`) exactly at slide 0 and the next arrow (`NextArrowDisabled`) exactly at the last slide, which are exactly where their step would wrap |
| `Projects.OnKeyDown` | src/components/Projects/Projects.js:115-124 | the arrow keys act only with the section in view and more than one slide; left is "previous", right is "next", other keys do nothing |
| `Projects.OnAutoAdvance` | src/components/Projects/Projects.js:104-112 | a tick moves on only with the section in view and more than one slide, then to a different slide |
| `Projects.StepsKeepSlideInRange` | src/components/Projects/Projects.js:51-61 | from an in-range slide, next, previous, an arrow key, an auto-advance tick and an indicator click (`GoToSlide`) all leave the slide below the slide count |
| `Projects.DisplayDescription` | src/components/Projects/Projects.js:192-195 | an expanded description, or one of at most 120 characters (no `NeedsSeeMore`), is shown whole; otherwise its first 120 characters plus "..." are shown; collapsed text is at most 123 characters |
| `Projects.ToggleDescription` | src/components/Projects/Projects.js:19-25 | the card's flag is negated (missing reads as false) and every other entry is kept |
| `Projects.DistinctCardsToggleIndependently` | src/components/Projects/Projects.js:189-191 | cards at different positions that do not share an id get different keys (`KeyOf`: the id, else the global index), so toggling one leaves the other's flag |
| `Projects.ToggleTwiceRestores` | src/components/Projects/Projects.js:19-25 | toggling a card twice gives back every flag's value |
| `Projects.RecordFlag` | src/components/Projects/Projects.js:27-33 | recording an image error (or load) sets that card's flag and keeps every other entry |
| `Projects.ImageSource` | src/components/Projects/Projects.js:35-40 | a card shows the placeholder once its image has failed, and the project's image before |
| `Projects.ImageErrorFallsBack` | src/components/Projects/Projects.js:31-40 | after an error for a card, it shows the placeholder and other cards are unaffected; recording the error again changes nothing |
| `Projects.MaxHeight` | src/components/Projects/Projects.js:76-83 | the result bounds every natural height and is one of them (0 with no cards) |
| `Projects.MaxCardHeight` | src/components/Projects/Projects.js:77-83 | the first pass over the cards computes the maximum height |
| `Projects.EqualiseHeights` | src/components/Projects/Projects.js:64-89 | afterwards every card's height is the maximum of the natural heights; with no cards nothing changes |
| `Awards.OfKind` | src/components/AwardsCertificates/AwardsCertificates.js:33-35 | every kept item has the filter's type, and no more items are kept than there are |
| `Awards.OfKindCounts` | src/components/AwardsCertificates/AwardsCertificates.js:33-35 | each item of the filter's type is kept as often as it occurs, and every other item is dropped |
| `Awards.OfKindConcat` | src/components/AwardsCertificates/AwardsCertificates.js:33-35 | filtering keeps source order: it distributes over concatenation |
| `Awards.FilterByType` | src/components/AwardsCertificates/AwardsCertificates.js:31-35 | "all" leaves the list unchanged; any other filter keeps exactly the items of that type |
| `Awards.TitleLeTotal` | src/components/AwardsCertificates/AwardsCertificates.js:38 | the title order standing in for `localeCompare` relates every two titles |
| `Awards.TitleLeTransitive` | src/components/AwardsCertificates/AwardsCertificates.js:38 | the title order is transitive |
| `Awards.PrecedesTotal` | src/components/AwardsCertificates/AwardsCertificates.js:37-41 | both sort orders (title ascending, date descending) are total |
| `Awards.PrecedesTransitive` | src/components/AwardsCertificates/AwardsCertificates.js:37-41 | both sort orders are transitive |
| `Awards.Insert` | src/components/AwardsCertificates/AwardsCertificates.js:37-41 | inserting adds exactly the one item |
| `Awards.Sort` | src/components/AwardsCertificates/AwardsCertificates.js:37-41 | sorting a copy yields a permutation of the filtered list |
| `Awards.InsertKeepsSorted` | src/components/AwardsCertificates/AwardsCertificates.js:37-41 | inserting into a sorted list keeps it sorted |
| `Awards.SortIsSorted` | src/components/AwardsCertificates/AwardsCertificates.js:37-41 | the sorted copy is ordered by title ascending ("alphabetical") or by date newest first ("date") |
| `Awards.FilteredAndSorted` | src/components/AwardsCertificates/AwardsCertificates.js:30-44 | the pipeline's result (`AwardsSection.Items`) is a permutation of the filtered items, sorted for the two known orders, and the filtered order for any other sort value |
| `Awards.EmptyExactlyWhenNothingMatches` | src/components/AwardsCertificates/AwardsCertificates.js:138-142 | the empty state shows exactly when no catalog item passes the filter |
| `Awards.Window` | src/components/AwardsCertificates/AwardsCertificates.js:46-48 | the displayed items are the first `min(visibleItems, length)` items |
| `Awards.NextVisible` | src/components/AwardsCertificates/AwardsCertificates.js:131 | load more never passes the list length and, while items are hidden, grows the window by 1 to 12 |
| `Awards.LoadMoreExtendsWindow` | src/components/AwardsCertificates/AwardsCertificates.js:127-133 | loading more keeps the shown items as a proper prefix of the new window |
| `Awards.AwardsSection.constructor` | src/components/AwardsCertificates/AwardsCertificates.js:8-12 | initial state: filter "all", sort "date", window 12, nothing selected |
| `Awards.AwardsSection.Displayed` | src/components/AwardsCertificates/AwardsCertificates.js:46-48 | the shown items are a prefix of the filtered and sorted list |
| `Awards.AwardsSection.ShowsLoadMore` | src/components/AwardsCertificates/AwardsCertificates.js:127 | the load-more button shows exactly when fewer items are displayed than the list holds |
| `Awards.AwardsSection.ShowsEmptyState` | src/components/AwardsCertificates/AwardsCertificates.js:138 | the empty state shows exactly when no catalog item passes the filter |
| `Awards.AwardsSection.RemainingCount` | src/components/AwardsCertificates/AwardsCertificates.js:133 | the count on the button is positive and is the number of hidden items |
| `Awards.AwardsSection.LoadMore` | src/components/AwardsCertificates/AwardsCertificates.js:127-133 | the window becomes `min(visible + 12, length)`, strictly larger and at most the length, extending what was shown |
| `Awards.AwardsSection.SetFilter` | src/components/AwardsCertificates/AwardsCertificates.js:79-81 | choosing a filter sets it and resets the window to 12 when it changed; choosing the same filter changes nothing |
| `Awards.AwardsSection.SetSortBy` | src/components/AwardsCertificates/AwardsCertificates.js:100-108 | choosing a sort order sets it and resets the window to 12 when it changed |
| `Awards.AwardsSection.SelectItem` | src/components/AwardsCertificates/AwardsCertificates.js:113-124 | clicking a card selects it |
| `Awards.AwardsSection.HandleKeyDown` | src/components/AwardsCertificates/AwardsCertificates.js:62-67 | Enter or Space selects the item; other keys leave the selection |
| `Awards.AwardsSection.CloseModal` | src/components/AwardsCertificates/AwardsCertificates.js:54-56 | closing clears the selection |
| `Awards.AwardsSection.HandleBackdropClick` | src/components/AwardsCertificates/AwardsCertificates.js:58-60 | a click clears the selection only when its target is the backdrop itself |
| `Theme.Resolve` | src/hooks/useDarkMode.js:6-15 | a saved "light" gives light, a saved "dark" gives dark, and otherwise the system preference can only turn dark on |
| `Theme.InitialResolution` | src/hooks/useDarkMode.js:4-14 | from the initial dark flag, the theme is dark exactly when the saved theme is not "light", whatever the system preference |
| `Theme.ResolveRoundTrip` | src/hooks/useDarkMode.js:7-25 | resolving from the value the persistence effect stored gives back the stored flag |
| `Theme.ThemeController.constructor` | src/hooks/useDarkMode.js:4 | the flag starts dark |
| `Theme.ThemeController.SavedTheme` | src/hooks/useDarkMode.js:7 | the saved theme is present exactly when storage has the "theme" key, and then is its value |
| `Theme.ThemeController.ApplyTheme` | src/hooks/useDarkMode.js:17-25 | storage holds "dark" or "light" per the flag, and the body has `dark-mode` exactly in dark mode; other entries and classes are kept |
| `Theme.ThemeController.Mount` | src/hooks/useDarkMode.js:4-25 | after mounting, the flag is dark exactly when the previously saved theme was not "light", and storage and body agree with it |
| `Theme.ThemeController.ToggleDarkMode` | src/hooks/useDarkMode.js:27-29 | the flag is negated and the new value is persisted |
| `Theme.ToggleTwice` | src/hooks/useDarkMode.js:27-29 | toggling twice from a persisted state restores the flag, the storage and the body classes |
| `Theme.Reload` | src/hooks/useDarkMode.js:7-25 | a fresh hook mounted over the storage a persisted hook left comes up with the same theme |

## Left out

- Rendering is not modelled: JSX, CSS class strings, SVG markup and framer-motion variants.
- The donut and glow maths (`calculateDonutValues`, `getGlowColor`) use floating point and only style the page.
- Timers are not modelled: the 5-second intervals and the 3-second auto-play re-enable. Each auto-advance is modelled as one tick (`Skills.AutoAdvance`, `Projects.OnAutoAdvance`).
- The skills carousel's `autoPlay` flag is an input. Hover and drag change it; that is not modelled.
- The intersection observers and the resize listener are browser APIs. "In view" and "narrow screen" are inputs.
- The gesture library (`useDrag`) is foreign code. Only the horizontal swipe value it reports is modelled.
- Haptic feedback (`navigator.vibrate`), link opening (`window.open`, `openProjectLink`, `handleViewPDF`, `handleVerify`) and the gallery's image-loaded map are DOM I/O. The image-loaded map would be the same update as `Projects.RecordFlag`.
- The animation `direction` is modelled for swipes and indicator clicks only. The next and previous buttons (+1 and −1, Skills.js:145, 150) and the auto-advance tick (+1, Skills.js:94) also set it; that is animation only and is not modelled.
- The contact form, hero, navbar, modal, work-experience, theme-toggle button, app shell and scroll hook are presentation or external I/O and are not part of this model.
- Awards.Precedes: `localeCompare` is replaced by a code-point lexicographic order on titles. It is total and transitive, but it is not a locale collation.
- Awards.Item: `new Date(text)` is replaced by an integer timestamp carried by each item. A date the browser cannot parse (NaN) is not modelled.
- Awards.Sort: the model's insertion sort is stable, like the browser's sort, but no lemma states stability. Only permutation and order are proved.
- Awards.AwardsSection.LoadMore: it requires the button to be visible (`visibleItems < length`), because the button is rendered only then.
- Projects.DisplayDescription: lengths are counted in characters. The browser counts UTF-16 code units, which differ for characters outside the Basic Multilingual Plane.
- Projects.CardKey: a card key is a project id or a global index. The browser turns object keys into strings, so an id of "3" and index 3 would share an entry there. The model keeps them apart.
- Carousel.Next: it requires at least one slide. With zero slides the browser computes NaN, but no button, key or timer can step then.
- Carousel.Prev: it requires at least one slide, for the same reason.
