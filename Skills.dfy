/** The skills carousel: grouping the skills list into slides and moving
    between slides by button, swipe, indicator and auto-advance. */
module Skills {
  import opened Carousel

  /** Four columns by three rows on a desktop screen. */
  const DesktopPerSlide: nat := 12
  /** Three columns by three rows on a narrow (at most 768px) screen. */
  const MobilePerSlide: nat := 9

  function PerSlide(isMobile: bool): nat
  {
    if isMobile then MobilePerSlide else DesktopPerSlide
  }

  /** All slides laid end to end. */
  function Flatten<T>(slides: seq<seq<T>>): seq<T>
  {
    if slides == [] then [] else slides[0] + Flatten(slides[1..])
  }

  /** The slide grouping the carousel is meant to show: a slide takes the
      next `n` skills, unless at most one and a half slides' worth remain,
      in which case they all go on one final slide. */
  function OptimalSlides<T>(s: seq<T>, n: nat): seq<seq<T>>
    requires n > 0
    decreases |s|
  {
    if s == [] then []
    else if 2 * |s| <= 3 * n then [s]
    else [s[..n]] + OptimalSlides(s[n..], n)
  }

  /** The grouping loop as the component runs it: cut `perSlide` skills at a
      time; when a short tail (at most half a slide) is left and a slide
      already exists, append the tail to that slide instead, provided the
      merged slide holds at most one and a half slides' worth. It always
      produces `OptimalSlides`, so that last proviso never fails. */
  method GetOptimalSlides<T>(skills: seq<T>, isMobile: bool) returns (slides: seq<seq<T>>)
    ensures slides == OptimalSlides(skills, PerSlide(isMobile))
  {
    var perSlide := PerSlide(isMobile);
    slides := [];
    var currentIndex := 0;
    while currentIndex < |skills|
      invariant currentIndex <= |skills| ==> (slides == [] <==> currentIndex == 0)
      invariant currentIndex <= |skills| && slides != [] ==>
        && perSlide <= currentIndex
        && slides[|slides| - 1] == skills[currentIndex - perSlide..currentIndex]
        && slides[..|slides| - 1] + OptimalSlides(skills[currentIndex - perSlide..], perSlide)
           == OptimalSlides(skills, perSlide)
      invariant |skills| < currentIndex ==> slides == OptimalSlides(skills, perSlide)
      decreases |skills| - currentIndex
    {
      var remainingSkills := |skills| - currentIndex;
      if remainingSkills < perSlide && remainingSkills > 0 {
        if 2 * remainingSkills <= perSlide && |slides| > 0 {
          var lastSlide := slides[|slides| - 1];
          var remainingItems := skills[currentIndex..];
          // maxReasonableItems is perSlide * 1.5; compared in integers. The
          // last slide is full here, so this test always passes.
          assert |lastSlide| == perSlide && |remainingItems| == remainingSkills;
          assert 2 * (|lastSlide| + |remainingItems|) <= 3 * perSlide;
          if 2 * (|lastSlide| + |remainingItems|) <= 3 * perSlide {
            ghost var u := skills[currentIndex - perSlide..];
            assert lastSlide + remainingItems == u;
            assert OptimalSlides(u, perSlide) == [u];
            slides := slides[..|slides| - 1] + [lastSlide + remainingItems];
            break;
          }
        }
      }
      var tail := skills[currentIndex..];
      var slideSkills := skills[currentIndex..Min(currentIndex + perSlide, |skills|)];
      if slides != [] {
        var u := skills[currentIndex - perSlide..];
        assert u[..perSlide] == slides[|slides| - 1] && u[perSlide..] == tail;
        if remainingSkills < perSlide {
          assert slideSkills == tail;
          assert OptimalSlides(tail, perSlide) == [tail];
          assert OptimalSlides(u, perSlide) == [slides[|slides| - 1], tail];
        } else {
          assert OptimalSlides(u, perSlide) == [slides[|slides| - 1]] + OptimalSlides(tail, perSlide);
        }
      } else if remainingSkills < perSlide {
        assert skills == tail && slideSkills == tail;
      }
      ghost var before := slides;
      slides := slides + [slideSkills];
      currentIndex := currentIndex + perSlide;
      assert slides[..|slides| - 1] == before;
    }
    if currentIndex == |skills| && slides != [] {
      var u := skills[currentIndex - perSlide..];
      assert skills[currentIndex - perSlide..currentIndex] == u;
      assert OptimalSlides(u, perSlide) == [u];
      assert slides == slides[..|slides| - 1] + [u];
    }
  }

  /** Slide sizes, for stating concrete groupings. */
  function Sizes<T>(slides: seq<seq<T>>): seq<nat>
  {
    seq(|slides|, i requires 0 <= i < |slides| => |slides[i]|)
  }

  /** Coverage and order: laying the slides end to end gives back the
      skills list, nothing dropped, duplicated or reordered. */
  lemma {:induction false} SlidesCover<T>(s: seq<T>, n: nat)
    requires n > 0
    ensures Flatten(OptimalSlides(s, n)) == s
    decreases |s|
  {
    if s != [] && 2 * |s| > 3 * n {
      SlidesCover(s[n..], n);
      assert s == s[..n] + s[n..];
    }
  }

  /** No slide is empty, and there are no slides exactly when there are
      no skills. */
  lemma {:induction false} SlidesNonEmpty<T>(s: seq<T>, n: nat)
    requires n > 0
    ensures OptimalSlides(s, n) == [] <==> s == []
    ensures forall i :: 0 <= i < |OptimalSlides(s, n)| ==> |OptimalSlides(s, n)[i]| > 0
    decreases |s|
  {
    if s != [] && 2 * |s| > 3 * n {
      SlidesNonEmpty(s[n..], n);
      var rest := OptimalSlides(s[n..], n);
      assert forall i :: 1 <= i < |OptimalSlides(s, n)| ==> OptimalSlides(s, n)[i] == rest[i - 1];
    }
  }

  /** Size bounds: every slide but the last is full; the last holds at least
      one skill and at most one and a half slides' worth. */
  lemma {:induction false} SlideSizes<T>(s: seq<T>, n: nat)
    requires n > 0
    ensures forall i :: 0 <= i < |OptimalSlides(s, n)| - 1 ==> |OptimalSlides(s, n)[i]| == n
    ensures OptimalSlides(s, n) != [] ==>
      var last := OptimalSlides(s, n)[|OptimalSlides(s, n)| - 1];
      0 < |last| && 2 * |last| <= 3 * n
    decreases |s|
  {
    if s != [] && 2 * |s| > 3 * n {
      SlideSizes(s[n..], n);
      SlidesNonEmpty(s[n..], n);
      var rest := OptimalSlides(s[n..], n);
      assert forall i :: 1 <= i < |OptimalSlides(s, n)| ==> OptimalSlides(s, n)[i] == rest[i - 1];
    }
  }

  /** Slide `p` shows the skills from position `p * n` up to the next slide's
      start, or to the end of the list for the last slide. */
  lemma {:induction false} SlideContents<T>(s: seq<T>, n: nat, p: nat)
    requires n > 0 && p < |OptimalSlides(s, n)|
    ensures p < |OptimalSlides(s, n)| - 1 ==> p * n + n <= |s|
    ensures p == |OptimalSlides(s, n)| - 1 ==> p * n < |s|
    ensures p < |OptimalSlides(s, n)| - 1 ==> OptimalSlides(s, n)[p] == s[p * n..p * n + n]
    ensures p == |OptimalSlides(s, n)| - 1 ==> OptimalSlides(s, n)[p] == s[p * n..]
    decreases |s|
  {
    if p > 0 {
      var t := s[n..];
      SlideContents(t, n, p - 1);
      var a := (p - 1) * n;
      assert p * n == a + n;
      assert OptimalSlides(s, n)[p] == OptimalSlides(t, n)[p - 1];
      if p < |OptimalSlides(s, n)| - 1 {
        assert t[a..a + n] == s[a + n..a + n + n];
      } else {
        assert t[a..] == s[a + n..];
      }
    }
  }

  /** When the tail merges. Write the list length as `k` full slides plus
      `r` left over. The last slide holds more than `n` skills exactly when a
      slide already exists (`k >= 1`) and the left-over is a non-empty half
      slide at most; it then holds `n + r` skills, and there are `k` slides.
      Otherwise there are `k` slides when nothing is left over, else `k + 1`. */
  lemma {:induction false} MergeExactly<T>(s: seq<T>, n: nat, k: nat, r: nat)
    requires n > 0 && r < n && |s| == k * n + r && s != []
    ensures var slides := OptimalSlides(s, n);
      var last := slides[|slides| - 1];
      var merges := k >= 1 && 0 < r && 2 * r <= n;
      && (n < |last| <==> merges)
      && (merges ==> |last| == n + r && |slides| == k)
      && (!merges ==> |last| == (if r == 0 then n else r) && |slides| == (if r == 0 then k else k + 1))
    decreases k
  {
    if 2 * |s| > 3 * n {
      assert k >= 1;
      assert |s[n..]| == (k - 1) * n + r;
      MergeExactly(s[n..], n, k - 1, r);
    }
  }

  /** The skills list of the site has 26 entries: two slides of 12 and 14 on
      a desktop screen, three slides of 9, 9 and 8 on a narrow one. */
  lemma SiteSkillGrouping<T>(s: seq<T>)
    requires |s| == 26
    ensures Sizes(OptimalSlides(s, DesktopPerSlide)) == [12, 14]
    ensures Sizes(OptimalSlides(s, MobilePerSlide)) == [9, 9, 8]
  {
    assert OptimalSlides(s, 12) == [s[..12], s[12..]];
    assert OptimalSlides(s[9..][9..], 9) == [s[9..][9..]];
    assert OptimalSlides(s, 9) == [s[..9], s[9..][..9], s[9..][9..]];
  }

  /** The skills shown for the current slide; a slide index past the end
      shows nothing rather than failing. */
  function CurrentSkills<T>(slides: seq<seq<T>>, current: nat): (r: seq<T>)
    ensures current < |slides| ==> r == slides[current]
    ensures current >= |slides| ==> r == []
  {
    if current < |slides| then slides[current] else []
  }

  /** A narrow screen at its third slide that is widened to a desktop screen
      keeps the slide index, which the two-slide desktop grouping does not
      have: the carousel then shows no skills until the next auto-advance
      tick, which moves to slide 1. */
  lemma WideningShowsEmptySlide<T>(s: seq<T>)
    requires |s| == 26
    ensures |CurrentSkills(OptimalSlides(s, MobilePerSlide), 2)| == 8
    ensures CurrentSkills(OptimalSlides(s, DesktopPerSlide), 2) == []
    ensures AutoAdvance(2, |OptimalSlides(s, DesktopPerSlide)|, true, true) == 1
  {
    SiteSkillGrouping(s);
    assert Sizes(OptimalSlides(s, MobilePerSlide))[2] == 8;
  }

  /** A slide change and the direction the slide animation takes. */
  datatype Step = Step(slide: nat, direction: int)

  /** The wrap-around of a swipe: one before the first slide is the last,
      one past the last is the first. */
  function Wrap(next: int, total: nat): (r: nat)
    requires total > 0
    ensures r < total
    ensures 0 <= next < total ==> r == next
    ensures next == -1 ==> r == Prev(0, total)
    ensures next == total ==> r == Next(total - 1, total)
  {
    if next < 0 then total - 1 else if next >= total then 0 else next
  }

  /** The end of a drag gesture (mobile only). With at most one slide, or no
      swipe, nothing moves; a swipe to the right goes back a slide, any other
      swipe goes forward, both wrapping around: the same moves as the
      "previous" and "next" buttons. */
  function OnSwipeEnd(current: nat, direction: int, swipeX: int, total: nat): (r: Step)
    ensures total <= 1 || swipeX == 0 ==> r == Step(current, direction)
    ensures 1 < total && swipeX > 0 && current < total ==> r == Step(Prev(current, total), -1)
    ensures 1 < total && swipeX < 0 && current < total ==> r == Step(Next(current, total), 1)
  {
    if total <= 1 || swipeX == 0 then Step(current, direction)
    else
      var dir := if swipeX > 0 then -1 else 1;
      Step(Wrap(current + dir, total), dir)
  }

  /** Clicking indicator `i` shows slide `i`, animating forward exactly when
      `i` lies after the current slide. */
  function OnIndicatorClick(current: nat, i: nat): (r: Step)
    ensures r.slide == i
    ensures r.direction == 1 <==> current < i
    ensures r.direction == -1 <==> i <= current
  {
    Step(i, if i > current then 1 else -1)
  }

  /** One auto-advance tick: it runs only when auto-play is on, the section
      is in view and there is more than one slide, and then always moves to
      a different slide, back into range when the index was past the end. */
  function AutoAdvance(current: nat, total: nat, autoPlay: bool, inView: bool): (r: nat)
    ensures current < total ==> r < total
    ensures !(autoPlay && inView && 1 < total) ==> r == current
    ensures autoPlay && inView && 1 < total ==> r == Next(current, total) && r != current && r < total
  {
    if autoPlay && inView && total > 1 then Next(current, total) else current
  }

  function Min(a: int, b: int): int
  {
    if a <= b then a else b
  }
}
