/** The projects carousel: four project cards per slide in a two-by-two
    grid, collapsible descriptions, image fallbacks and equal card heights. */
module Projects {
  import opened Carousel

  const ProjectsPerSlide: nat := 4
  /** Longest description shown in full while collapsed. */
  const DescriptionLimit: nat := 120
  const Ellipsis: string := "..."
  const PlaceholderImage: string := "/images/project-placeholder.png"

  /** A project entry; an empty `id` stands for an entry without one. */
  datatype Project = Project(id: string, title: string, description: string, image: string)

  // ---------------------------------------------------------------------
  // Paging

  /** `Math.ceil(count / 4)`: the fewest slides of four that hold every
      project. */
  function TotalSlides(count: nat): (r: nat)
    ensures count <= r * ProjectsPerSlide
    ensures r > 0 ==> (r - 1) * ProjectsPerSlide < count
    ensures r == 0 <==> count == 0
  {
    (count + ProjectsPerSlide - 1) / ProjectsPerSlide
  }

  /** JavaScript's `slice` bound: an index past the end means the end. */
  function Clamp(i: nat, len: nat): nat
  {
    if i <= len then i else len
  }

  /** The projects on slide `slide`:
      `projects.slice(slide * 4, slide * 4 + 4)`. */
  function SlideProjects(projects: seq<Project>, slide: nat): (r: seq<Project>)
    ensures |r| <= ProjectsPerSlide
    ensures forall i :: 0 <= i < |r| ==> GlobalIndex(slide, i) < |projects| && r[i] == projects[GlobalIndex(slide, i)]
    ensures slide * ProjectsPerSlide < |projects| ==> 0 < |r|
  {
    projects[Clamp(slide * ProjectsPerSlide, |projects|)..Clamp(slide * ProjectsPerSlide + ProjectsPerSlide, |projects|)]
  }

  /** Position in the whole list of the `i`-th card of slide `slide`. */
  function GlobalIndex(slide: nat, i: nat): nat
  {
    slide * ProjectsPerSlide + i
  }

  /** Every card on a slide is the project at its global index, and only
      the slides below `TotalSlides` have cards. */
  lemma CardIsProjectAtGlobalIndex(projects: seq<Project>, slide: nat, i: nat)
    requires i < |SlideProjects(projects, slide)|
    ensures slide < TotalSlides(|projects|)
    ensures i < ProjectsPerSlide
    ensures GlobalIndex(slide, i) < |projects|
    ensures SlideProjects(projects, slide)[i] == projects[GlobalIndex(slide, i)]
  {
  }

  /** A slide has cards exactly when it is below `TotalSlides`; every slide
      but the last is full. */
  lemma SlideOccupancy(projects: seq<Project>, slide: nat)
    ensures 0 < |SlideProjects(projects, slide)| <==> slide < TotalSlides(|projects|)
    ensures slide + 1 < TotalSlides(|projects|) ==> |SlideProjects(projects, slide)| == ProjectsPerSlide
  {
  }

  /** Each project appears on exactly one slide, at one position:
      slide `k / 4`, card `k % 4`. */
  lemma ProjectOnExactlyOneSlide(projects: seq<Project>, k: nat)
    requires k < |projects|
    ensures k / ProjectsPerSlide < TotalSlides(|projects|)
    ensures k % ProjectsPerSlide < |SlideProjects(projects, k / ProjectsPerSlide)|
    ensures SlideProjects(projects, k / ProjectsPerSlide)[k % ProjectsPerSlide] == projects[k]
    ensures forall slide: nat, i: nat :: i < |SlideProjects(projects, slide)| && GlobalIndex(slide, i) == k ==>
      slide == k / ProjectsPerSlide && i == k % ProjectsPerSlide
  {
    forall slide: nat, i: nat | i < |SlideProjects(projects, slide)| && GlobalIndex(slide, i) == k
      ensures slide == k / ProjectsPerSlide && i == k % ProjectsPerSlide
    {
      CardIsProjectAtGlobalIndex(projects, slide, i);
    }
  }

  /** The site lists 10 projects: three slides of 4, 4 and 2 cards. */
  lemma SiteProjectSlides(projects: seq<Project>)
    requires |projects| == 10
    ensures TotalSlides(|projects|) == 3
    ensures |SlideProjects(projects, 0)| == 4
    ensures |SlideProjects(projects, 1)| == 4
    ensures |SlideProjects(projects, 2)| == 2
  {
  }

  // ---------------------------------------------------------------------
  // Navigation

  /** The "previous" arrow is disabled on the first slide. */
  predicate PrevArrowDisabled(current: nat)
  {
    current == 0
  }

  /** The "next" arrow is disabled on the last slide. */
  predicate NextArrowDisabled(current: nat, total: nat)
  {
    current == total - 1
  }

  /** The arrows are disabled exactly where their step would wrap around,
      so clicking an arrow never wraps (auto-advance and keys still do). */
  lemma ArrowsDisabledExactlyAtWrap(current: nat, total: nat)
    requires current < total
    ensures PrevArrowDisabled(current) <==> Prev(current, total) == total - 1
    ensures NextArrowDisabled(current, total) <==> Next(current, total) == 0
    ensures !PrevArrowDisabled(current) ==> Prev(current, total) == current - 1
    ensures !NextArrowDisabled(current, total) ==> Next(current, total) == current + 1
  {
  }

  /** A key press: while the section is in view and there is more than one
      slide, the left arrow key goes back and the right arrow key goes
      forward, wrapping around; anything else leaves the slide alone. */
  function OnKeyDown(current: nat, key: string, inView: bool, total: nat): (r: nat)
    requires current < total || current == 0
    ensures !inView || total <= 1 ==> r == current
    ensures inView && 1 < total && key == "ArrowLeft" ==> r == Prev(current, total) && r != current
    ensures inView && 1 < total && key == "ArrowRight" ==> r == Next(current, total) && r != current
    ensures key != "ArrowLeft" && key != "ArrowRight" ==> r == current
  {
    if !inView || total <= 1 then current
    else if key == "ArrowLeft" then Prev(current, total)
    else if key == "ArrowRight" then Next(current, total)
    else current
  }

  /** One auto-advance tick: it moves on only while the section is in view
      and there is more than one slide. */
  function OnAutoAdvance(current: nat, total: nat, inView: bool): (r: nat)
    requires current < total || current == 0
    ensures !inView || total <= 1 ==> r == current
    ensures inView && 1 < total ==> r == Next(current, total) && r != current
  {
    if !inView || total <= 1 then current else Next(current, total)
  }

  /** Clicking slide indicator `index` (one per slide) shows that slide. */
  function GoToSlide(index: nat, total: nat): (r: nat)
    requires index < total
    ensures r < total && r == index
  {
    index
  }

  /** Every way of changing slides keeps the current slide below the slide
      count, which the arrows' disabled tests and the active indicator rely
      on. */
  lemma StepsKeepSlideInRange(count: nat, current: nat, index: nat, key: string, inView: bool)
    requires current < TotalSlides(count)
    ensures Next(current, TotalSlides(count)) < TotalSlides(count)
    ensures Prev(current, TotalSlides(count)) < TotalSlides(count)
    ensures OnKeyDown(current, key, inView, TotalSlides(count)) < TotalSlides(count)
    ensures OnAutoAdvance(current, TotalSlides(count), inView) < TotalSlides(count)
    ensures index < TotalSlides(count) ==> GoToSlide(index, TotalSlides(count)) < TotalSlides(count)
  {
  }

  // ---------------------------------------------------------------------
  // Descriptions

  /** A "see more" button appears under descriptions longer than the limit. */
  predicate NeedsSeeMore(description: string)
  {
    |description| > DescriptionLimit
  }

  /** The description text on a card. Expanded, or short enough, it is the
      whole description; otherwise its first 120 characters and an
      ellipsis, so a collapsed card never shows more than 123 characters. */
  function DisplayDescription(description: string, expanded: bool): (r: string)
    ensures expanded || !NeedsSeeMore(description) ==> r == description
    ensures !expanded ==> |r| <= DescriptionLimit + |Ellipsis|
    ensures !expanded && NeedsSeeMore(description) ==>
      |r| == DescriptionLimit + |Ellipsis| && r[..DescriptionLimit] == description[..DescriptionLimit]
      && r[DescriptionLimit..] == Ellipsis
  {
    if expanded then description
    else if NeedsSeeMore(description) then description[..DescriptionLimit] + Ellipsis
    else description
  }

  // ---------------------------------------------------------------------
  // Per-card flags

  /** Cards are keyed by their project id, or by their global index when
      they have none. */
  datatype CardKey = ById(id: string) | ByIndex(index: nat)

  function KeyOf(project: Project, globalIndex: nat): CardKey
  {
    if project.id != "" then ById(project.id) else ByIndex(globalIndex)
  }

  /** Two different cards (different positions, and not sharing an id) get
      different keys, so toggling one card's description leaves the
      other's as it was. */
  lemma DistinctCardsToggleIndependently(expanded: map<CardKey, bool>, p: Project, i: nat, q: Project, j: nat)
    requires i != j && (p.id == q.id ==> p.id == "")
    ensures KeyOf(p, i) != KeyOf(q, j)
    ensures Flag(ToggleDescription(expanded, KeyOf(p, i)), KeyOf(q, j)) == Flag(expanded, KeyOf(q, j))
  {
  }

  /** A flag that was never set reads as false. */
  predicate Flag<K>(flags: map<K, bool>, key: K)
  {
    key in flags && flags[key]
  }

  /** Expanding or collapsing one card's description flips that card's flag
      and keeps every other entry. */
  function ToggleDescription<K>(expanded: map<K, bool>, key: K): (r: map<K, bool>)
    ensures Flag(r, key) == !Flag(expanded, key)
    ensures r.Keys == expanded.Keys + {key}
    ensures forall k :: k in expanded && k != key ==> r[k] == expanded[k]
  {
    expanded[key := !Flag(expanded, key)]
  }

  /** Toggling twice gives back every flag's value. */
  lemma ToggleTwiceRestores<K>(expanded: map<K, bool>, key: K, other: K)
    ensures Flag(ToggleDescription(ToggleDescription(expanded, key), key), other) == Flag(expanded, other)
  {
  }

  /** Recording that a card's image failed (or finished loading) sets that
      card's flag and keeps every other entry. */
  function RecordFlag<K>(flags: map<K, bool>, key: K): (r: map<K, bool>)
    ensures Flag(r, key)
    ensures r.Keys == flags.Keys + {key}
    ensures forall k :: k in flags && k != key ==> r[k] == flags[k]
  {
    flags[key := true]
  }

  /** The image a card shows: the placeholder once its image has failed,
      the project's own image before. */
  function ImageSource(project: Project, index: nat, imageErrors: map<nat, bool>): (r: string)
    ensures Flag(imageErrors, index) ==> r == PlaceholderImage
    ensures !Flag(imageErrors, index) ==> r == project.image
  {
    if Flag(imageErrors, index) then PlaceholderImage else project.image
  }

  /** After an image error for one card, that card shows the placeholder,
      every other card shows what it showed before, and a second error
      report changes nothing. */
  lemma ImageErrorFallsBack(project: Project, index: nat, other: nat, imageErrors: map<nat, bool>)
    ensures ImageSource(project, index, RecordFlag(imageErrors, index)) == PlaceholderImage
    ensures other != index ==>
      ImageSource(project, other, RecordFlag(imageErrors, index)) == ImageSource(project, other, imageErrors)
    ensures RecordFlag(RecordFlag(imageErrors, index), index) == RecordFlag(imageErrors, index)
  {
  }

  // ---------------------------------------------------------------------
  // Equal card heights

  function Max(a: nat, b: nat): nat
  {
    if a < b then b else a
  }

  /** The tallest natural height, 0 when there are no cards. */
  function MaxHeight(heights: seq<nat>): (r: nat)
    ensures forall i :: 0 <= i < |heights| ==> heights[i] <= r
    ensures heights == [] ==> r == 0
    ensures heights != [] ==> exists i :: 0 <= i < |heights| && heights[i] == r
  {
    if heights == [] then 0
    else
      var front := heights[..|heights| - 1];
      assert forall i :: 0 <= i < |front| ==> front[i] == heights[i];
      Max(MaxHeight(front), heights[|heights| - 1])
  }

  /** The first pass over the cards: the running maximum, starting at 0. */
  method MaxCardHeight(heights: array<nat>) returns (maxHeight: nat)
    ensures maxHeight == MaxHeight(heights[..])
  {
    maxHeight := 0;
    for i := 0 to heights.Length
      invariant maxHeight == MaxHeight(heights[..i])
    {
      assert heights[..i + 1][..i] == heights[..i];
      if heights[i] > maxHeight {
        maxHeight := heights[i];
      }
    }
    assert heights[..heights.Length] == heights[..];
  }

  /** Height equalisation: every card gets the tallest card's natural
      height; with no cards nothing happens. */
  method EqualiseHeights(heights: array<nat>)
    modifies heights
    ensures forall i :: 0 <= i < heights.Length ==> heights[i] == MaxHeight(old(heights[..]))
  {
    if heights.Length == 0 {
      return;
    }
    var maxHeight := MaxCardHeight(heights);
    for i := 0 to heights.Length
      invariant forall j :: 0 <= j < i ==> heights[j] == maxHeight
    {
      heights[i] := maxHeight;
    }
  }
}
