/** The page strip under the search results: `getVisiblePages` and the
    buttons rendered from it in src/components/Pagination.jsx.

    Given the current page `c` and the page count `t`, the strip shows page 1,
    the pages within `Delta` of `c` (clipped to 2..t-1), page `t`, and an
    ellipsis marker wherever pages are skipped. */
module Pagination {
  import opened Optional

  /** Radius of the window around the current page (`delta`). */
  const Delta := 2

  /** One label of the strip: a page number or the `'...'` marker. */
  datatype Token = Page(n: int) | Ellipsis

  function Max(a: int, b: int): int { if a < b then b else a }
  function Min(a: int, b: int): int { if a < b then a else b }

  /** The consecutive integers lo, lo+1, ..., hi-1 (empty when hi <= lo). */
  function Interval(lo: int, hi: int): (r: seq<int>)
    ensures |r| == Max(0, hi - lo)
    ensures forall k :: 0 <= k < |r| ==> r[k] == lo + k
  {
    if hi <= lo then [] else seq(hi - lo, k => lo + k)
  }

  /** Page number tokens for the numbers of `w`, in order. */
  function Pages(w: seq<int>): (r: seq<Token>)
    ensures |r| == |w|
    ensures forall k :: 0 <= k < |r| ==> r[k] == Page(w[k])
  {
    seq(|w|, k requires 0 <= k < |w| => Page(w[k]))
  }

  // ---------------------------------------------------------------------------
  // Specification of getVisiblePages, defined for every pair of integers
  // ---------------------------------------------------------------------------

  /** First page of the middle window: Delta before c, but never below 2. */
  function WindowStart(c: int): int { Max(2, c - Delta) }

  /** Last page of the middle window: Delta after c, but never above t - 1. */
  function WindowEnd(c: int, t: int): int { Min(t - 1, c + Delta) }

  /** The middle pages (the source's `range`): at most 2 * Delta + 1 of them,
      all strictly between page 1 and page t and within Delta of c. */
  function Window(c: int, t: int): (w: seq<int>)
    ensures |w| <= 2 * Delta + 1
    ensures forall k :: 0 <= k < |w| ==> 2 <= w[k] <= t - 1 && c - Delta <= w[k] <= c + Delta
  {
    Interval(WindowStart(c), WindowEnd(c, t) + 1)
  }

  /** Tokens before the window: page 1, then a marker if pages 2..c-Delta-1 are skipped. */
  function Head(c: int): seq<Token>
  {
    if c - Delta > 2 then [Page(1), Ellipsis] else [Page(1)]
  }

  /** Tokens after the window: a marker if pages c+Delta+1..t-1 are skipped, then page t. */
  function Tail(c: int, t: int): seq<Token>
  {
    if c + Delta < t - 1 then [Ellipsis, Page(t)] else [Page(t)]
  }

  /** The value `getVisiblePages` returns: it always starts at page 1, ends at
      page t and has at most 2 * Delta + 5 tokens. */
  function VisiblePages(c: int, t: int): (r: seq<Token>)
    ensures 2 <= |r| <= 2 * Delta + 5
    ensures r[0] == Page(1) && r[|r| - 1] == Page(t)
  {
    Head(c) + Pages(Window(c, t)) + Tail(c, t)
  }

  /** The component's guard: with at most one page nothing is rendered. */
  function Paginate(c: int, t: int): (r: Option<seq<Token>>)
    ensures r.None? <==> t <= 1
    ensures r.Some? ==> |r.value| >= 2 && r.value[0] == Page(1) && r.value[|r.value| - 1] == Page(t)
  {
    if t <= 1 then None else Some(VisiblePages(c, t))
  }

  // ---------------------------------------------------------------------------
  // The loop as the source runs it
  // ---------------------------------------------------------------------------

  /** `getVisiblePages`: collect the window with a counting loop, then wrap it
      with page 1, page t and the markers. */
  method GetVisiblePages(currentPage: int, totalPages: int) returns (rangeWithDots: seq<Token>)
    ensures rangeWithDots == VisiblePages(currentPage, totalPages)
  {
    var range: seq<int> := [];
    var i := Max(2, currentPage - Delta);
    while i <= Min(totalPages - 1, currentPage + Delta)
      invariant WindowStart(currentPage) <= i <= Max(WindowStart(currentPage), WindowEnd(currentPage, totalPages) + 1)
      invariant range == Interval(WindowStart(currentPage), i)
      decreases WindowEnd(currentPage, totalPages) - i
    {
      IntervalSnoc(WindowStart(currentPage), i);
      range := range + [i];
      i := i + 1;
    }
    assert range == Window(currentPage, totalPages);

    if currentPage - Delta > 2 {
      rangeWithDots := [Page(1), Ellipsis];
    } else {
      rangeWithDots := [Page(1)];
    }

    rangeWithDots := rangeWithDots + Pages(range);

    if currentPage + Delta < totalPages - 1 {
      rangeWithDots := rangeWithDots + [Ellipsis, Page(totalPages)];
    } else {
      rangeWithDots := rangeWithDots + [Page(totalPages)];
    }
  }

  // ---------------------------------------------------------------------------
  // Properties of the strip
  // ---------------------------------------------------------------------------

  /** Page numbers appear in strictly increasing order (so none repeats). */
  ghost predicate PagesIncreasing(ts: seq<Token>)
  {
    forall i, j :: 0 <= i < j < |ts| && ts[i].Page? && ts[j].Page? ==> ts[i].n < ts[j].n
  }

  /** Every page number lies in 1..t. */
  ghost predicate PagesWithin(ts: seq<Token>, t: int)
  {
    forall i :: 0 <= i < |ts| && ts[i].Page? ==> 1 <= ts[i].n <= t
  }

  /** A marker sits between two page numbers that are at least 2 apart. */
  ghost predicate EllipsisMarksGap(ts: seq<Token>)
  {
    forall i :: 0 < i < |ts| - 1 && ts[i].Ellipsis? ==>
      ts[i - 1].Page? && ts[i + 1].Page? && ts[i + 1].n - ts[i - 1].n >= 2
  }

  /** Two neighbouring page numbers with no marker between them are consecutive. */
  ghost predicate NeighboursConsecutive(ts: seq<Token>)
  {
    forall i :: 0 <= i < |ts| - 1 && ts[i].Page? && ts[i + 1].Page? ==> ts[i + 1].n == ts[i].n + 1
  }

  /** The token at each position of the strip. */
  lemma VisiblePagesAt(c: int, t: int, i: int)
    requires 0 <= i < |VisiblePages(c, t)|
    ensures var h, m := |Head(c)|, |Window(c, t)|;
      VisiblePages(c, t)[i] ==
        if i < h then Head(c)[i]
        else if i < h + m then Page(WindowStart(c) + i - h)
        else Tail(c, t)[i - h - m]
  {
    var h, m := Head(c), Pages(Window(c, t));
    assert VisiblePages(c, t) == h + m + Tail(c, t);
    if |h| <= i < |h| + |m| {
      assert VisiblePages(c, t)[i] == m[i - |h|];
    }
  }

  lemma VisiblePagesOrdered(c: int, t: int)
    requires t >= 2
    ensures PagesIncreasing(VisiblePages(c, t))
    ensures PagesWithin(VisiblePages(c, t), t)
  {
    var ts := VisiblePages(c, t);
    forall i, j | 0 <= i < j < |ts| && ts[i].Page? && ts[j].Page?
      ensures ts[i].n < ts[j].n
    {
      VisiblePagesAt(c, t, i);
      VisiblePagesAt(c, t, j);
    }
    forall i | 0 <= i < |ts| && ts[i].Page?
      ensures 1 <= ts[i].n <= t
    {
      VisiblePagesAt(c, t, i);
    }
  }

  /** The current page is always one of the numbers shown. */
  lemma VisiblePagesShowsCurrent(c: int, t: int)
    requires 1 <= c <= t
    ensures Page(c) in VisiblePages(c, t)
  {
    var ts := VisiblePages(c, t);
    if c == 1 {
      assert ts[0] == Page(c);
    } else if c == t {
      assert ts[|ts| - 1] == Page(c);
    } else {
      var h, w := Head(c), Window(c, t);
      var k := c - WindowStart(c);
      assert 0 <= k < |w| && w[k] == c;
      assert ts[|h| + k] == Page(c);
    }
  }

  /** A leading marker appears exactly when c - Delta > 2, a trailing one
      exactly when c + Delta < t - 1, and no marker appears anywhere else. */
  lemma VisiblePagesEllipses(c: int, t: int)
    requires 1 <= c <= t && t >= 2
    ensures var ts := VisiblePages(c, t);
      && (ts[1] == Ellipsis <==> c - Delta > 2)
      && (ts[|ts| - 2] == Ellipsis <==> c + Delta < t - 1)
      && (forall i :: 0 <= i < |ts| && ts[i].Ellipsis? ==> i == 1 || i == |ts| - 2)
  {
    var h, m, tl := Head(c), Pages(Window(c, t)), Tail(c, t);
    var ts := VisiblePages(c, t);
    assert ts == h + m + tl;
    // with 1 <= c <= t the window is empty only when t == 2
    assert t >= 3 ==> |m| >= 1;
    forall i | 0 <= i < |ts| && ts[i].Ellipsis?
      ensures i == 1 || i == |ts| - 2
    {
      if i < |h| {
      } else if i >= |h| + |m| {
        assert ts[i] == tl[i - |h| - |m|];
      }
    }
  }

  /** Markers stand only for skipped pages: numbers around a marker are at
      least 2 apart, and a marker is never first, last, or next to another. */
  lemma VisiblePagesGaps(c: int, t: int)
    requires 1 <= c <= t && t >= 2
    ensures var ts := VisiblePages(c, t);
      && ts[0].Page? && ts[|ts| - 1].Page?
      && EllipsisMarksGap(ts)
  {
    var ts := VisiblePages(c, t);
    var lo, hi := WindowStart(c), WindowEnd(c, t);
    forall i | 0 < i < |ts| - 1 && ts[i].Ellipsis?
      ensures ts[i - 1].Page? && ts[i + 1].Page? && ts[i + 1].n - ts[i - 1].n >= 2
    {
      VisiblePagesEllipses(c, t);
      if i == 1 {
        assert lo == c - Delta && lo <= hi;
        VisiblePagesAt(c, t, 2);
      } else {
        assert hi == c + Delta && lo <= hi;
        VisiblePagesAt(c, t, i - 1);
      }
    }
  }

  /** Two neighbouring page numbers with no marker between them are consecutive. */
  lemma VisiblePagesRuns(c: int, t: int)
    requires 1 <= c <= t && t >= 2
    ensures NeighboursConsecutive(VisiblePages(c, t))
  {
    var ts := VisiblePages(c, t);
    var lo, hi := WindowStart(c), WindowEnd(c, t);
    forall i | 0 <= i < |ts| - 1 && ts[i].Page? && ts[i + 1].Page?
      ensures ts[i + 1].n == ts[i].n + 1
    {
      VisiblePagesAt(c, t, i);
      VisiblePagesAt(c, t, i + 1);
    }
  }

  /** Three worked strips: (1, 2), (2, 20) and (10, 20). */
  lemma VisiblePagesExamples()
    ensures VisiblePages(1, 2) == [Page(1), Page(2)]
    ensures VisiblePages(2, 20) == [Page(1), Page(2), Page(3), Page(4), Ellipsis, Page(20)]
    ensures VisiblePages(10, 20) ==
      [Page(1), Ellipsis, Page(8), Page(9), Page(10), Page(11), Page(12), Ellipsis, Page(20)]
  {
    assert Window(1, 2) == [];
    assert Window(2, 20) == [2, 3, 4];
    assert Window(10, 20) == [8, 9, 10, 11, 12];
  }

  // ---------------------------------------------------------------------------
  // An independent description of the strip
  // ---------------------------------------------------------------------------

  /** Pages worth showing: the first, the last and those within Delta of c. */
  predicate Kept(p: int, c: int, t: int)
  {
    p == 1 || p == t || (c - Delta <= p <= c + Delta)
  }

  /** The kept pages among p..t, in increasing order. */
  function ShownFrom(p: int, c: int, t: int): seq<int>
    decreases t + 1 - p
  {
    if p > t then [] else (if Kept(p, c, t) then [p] else []) + ShownFrom(p + 1, c, t)
  }

  /** Render an increasing list of pages, putting a marker wherever pages are skipped. */
  function Compress(ps: seq<int>): seq<Token>
  {
    if ps == [] then []
    else if |ps| == 1 then [Page(ps[0])]
    else [Page(ps[0])] + (if ps[1] - ps[0] > 1 then [Ellipsis] else []) + Compress(ps[1..])
  }

  lemma {:induction false} ShownSkip(p: int, q: int, c: int, t: int)
    requires p <= q <= t + 1
    requires forall x :: p <= x < q ==> !Kept(x, c, t)
    ensures ShownFrom(p, c, t) == ShownFrom(q, c, t)
    decreases q - p
  {
    if p < q {
      ShownSkip(p + 1, q, c, t);
    }
  }

  lemma {:induction false} ShownRun(p: int, q: int, c: int, t: int)
    requires p <= q <= t + 1
    requires forall x :: p <= x < q ==> Kept(x, c, t)
    ensures ShownFrom(p, c, t) == Interval(p, q) + ShownFrom(q, c, t)
    decreases q - p
  {
    if p < q {
      ShownRun(p + 1, q, c, t);
      assert [p] + Interval(p + 1, q) == Interval(p, q);
    }
  }

  /** The kept pages are page 1, the window and page t. */
  lemma ShownIsWindow(c: int, t: int)
    requires 1 <= c <= t && t >= 2
    ensures ShownFrom(1, c, t) == [1] + Window(c, t) + [t]
  {
    var lo, hi := WindowStart(c), WindowEnd(c, t);
    assert ShownFrom(1, c, t) == [1] + ShownFrom(2, c, t);
    ShownSkip(2, lo, c, t);
    ShownRun(lo, hi + 1, c, t);
    ShownSkip(hi + 1, t, c, t);
    assert ShownFrom(t, c, t) == [t];
  }

  lemma IntervalSnoc(lo: int, hi: int)
    requires lo <= hi
    ensures Interval(lo, hi) + [hi] == Interval(lo, hi + 1)
  {
  }

  lemma IntervalCons(lo: int, hi: int)
    requires lo < hi
    ensures Interval(lo, hi) == [lo] + Interval(lo + 1, hi)
  {
  }

  lemma PagesAppend(a: seq<int>, b: seq<int>)
    ensures Pages(a + b) == Pages(a) + Pages(b)
  {
  }

  /** One step of Compress, for a list with at least two pages. */
  lemma CompressCons(x: int, rest: seq<int>)
    requires rest != []
    ensures Compress([x] + rest) == [Page(x)] + (if rest[0] - x > 1 then [Ellipsis] else []) + Compress(rest)
  {
    assert ([x] + rest)[1..] == rest;
  }

  lemma ConcatAssoc<T>(a: seq<T>, b: seq<T>, c: seq<T>)
    ensures a + (b + c) == (a + b) + c
  {
  }

  /** A run of consecutive pages compresses to the pages themselves. */
  lemma {:induction false} CompressConsecutive(x: int, y: int, rest: seq<int>)
    requires x <= y
    ensures Compress(Interval(x, y) + [y] + rest) == Pages(Interval(x, y)) + Compress([y] + rest)
    decreases y - x
  {
    if x < y {
      var tail := Interval(x + 1, y) + [y] + rest;
      assert tail[0] == x + 1;
      calc {
        Compress(Interval(x, y) + [y] + rest);
        { IntervalCons(x, y); }
        Compress([x] + Interval(x + 1, y) + [y] + rest);
        { assert [x] + Interval(x + 1, y) + [y] + rest == [x] + tail; }
        Compress([x] + tail);
        { CompressCons(x, tail); }
        [Page(x)] + Compress(tail);
        { CompressConsecutive(x + 1, y, rest); }
        [Page(x)] + (Pages(Interval(x + 1, y)) + Compress([y] + rest));
        { ConcatAssoc([Page(x)], Pages(Interval(x + 1, y)), Compress([y] + rest)); }
        ([Page(x)] + Pages(Interval(x + 1, y))) + Compress([y] + rest);
        { PagesAppend([x], Interval(x + 1, y)); IntervalCons(x, y); }
        Pages(Interval(x, y)) + Compress([y] + rest);
      }
    } else {
      assert Interval(x, y) == [];
    }
  }

  /** The strip's first tokens, as a function of where the window starts. */
  function LeadFor(lo: int): seq<Token>
  {
    if lo > 2 then [Page(1), Ellipsis] else [Page(1)]
  }

  /** The strip's last tokens, as a function of where the window ends. */
  function TrailFor(hi: int, t: int): seq<Token>
  {
    if t - hi > 1 then [Ellipsis, Page(t)] else [Page(t)]
  }

  /** Compressing the last two pages of a list. */
  lemma CompressLastTwo(hi: int, t: int)
    requires hi < t
    ensures Compress([hi, t]) == [Page(hi)] + TrailFor(hi, t)
  {
    CompressCons(hi, [t]);
  }

  /** Compressing page 1, a non-empty run lo..hi and page t. */
  lemma CompressEnds(lo: int, hi: int, t: int)
    requires 2 <= lo <= hi < t
    ensures Compress([1] + Interval(lo, hi + 1) + [t]) ==
      LeadFor(lo) + Pages(Interval(lo, hi + 1)) + TrailFor(hi, t)
  {
    var run := Interval(lo, hi);
    var rest := run + [hi] + [t];
    var lead: seq<Token> := if lo > 2 then [Ellipsis] else [];
    calc {
      Compress([1] + Interval(lo, hi + 1) + [t]);
      { IntervalSnoc(lo, hi); assert [1] + Interval(lo, hi + 1) + [t] == [1] + rest; }
      Compress([1] + rest);
      { assert rest[0] == lo; CompressCons(1, rest); }
      [Page(1)] + lead + Compress(rest);
      { assert [Page(1)] + lead == LeadFor(lo); }
      LeadFor(lo) + Compress(rest);
      { CompressConsecutive(lo, hi, [t]); assert [hi] + [t] == [hi, t]; }
      LeadFor(lo) + (Pages(run) + Compress([hi, t]));
      { CompressLastTwo(hi, t); }
      LeadFor(lo) + (Pages(run) + ([Page(hi)] + TrailFor(hi, t)));
      { ConcatAssoc(Pages(run), [Page(hi)], TrailFor(hi, t)); }
      LeadFor(lo) + ((Pages(run) + [Page(hi)]) + TrailFor(hi, t));
      { PagesAppend(run, [hi]); IntervalSnoc(lo, hi); }
      LeadFor(lo) + (Pages(Interval(lo, hi + 1)) + TrailFor(hi, t));
      { ConcatAssoc(LeadFor(lo), Pages(Interval(lo, hi + 1)), TrailFor(hi, t)); }
      LeadFor(lo) + Pages(Interval(lo, hi + 1)) + TrailFor(hi, t);
    }
  }

  /** With two pages both are shown and nothing is skipped. */
  lemma CompressedShownTwoPages(c: int)
    requires 1 <= c <= 2
    ensures VisiblePages(c, 2) == Compress(ShownFrom(1, c, 2)) == [Page(1), Page(2)]
  {
    ShownIsWindow(c, 2);
    assert Window(c, 2) == [];
    assert ShownFrom(1, c, 2) == [1, 2];
    CompressCons(1, [2]);
  }

  /** getVisiblePages equals the independent description: show page 1, page t
      and every page within Delta of c, and mark each gap with one ellipsis. */
  lemma VisiblePagesIsCompressedShown(c: int, t: int)
    requires 1 <= c <= t && t >= 2
    ensures VisiblePages(c, t) == Compress(ShownFrom(1, c, t))
  {
    if t == 2 {
      CompressedShownTwoPages(c);
    } else {
      var lo, hi := WindowStart(c), WindowEnd(c, t);
      ShownIsWindow(c, t);
      CompressEnds(lo, hi, t);
      assert Head(c) == LeadFor(lo);
      assert Tail(c, t) == TrailFor(hi, t);
    }
  }

  // ---------------------------------------------------------------------------
  // The rendered controls
  // ---------------------------------------------------------------------------

  /** The "previous"/"next" buttons: whether disabled, and the page a click asks for. */
  datatype NavButton = NavButton(disabled: bool, target: int)

  /** A button of the strip: its token, whether it is highlighted as the
      current page, and whether it is disabled. */
  datatype PageButton = PageButton(token: Token, active: bool, disabled: bool)

  datatype Bar = Bar(previous: NavButton, numbers: seq<PageButton>, next: NavButton)

  /** The button drawn for one token: highlighted when it is the current
      page, disabled when it is a marker. */
  function PageButtonFor(tok: Token, c: int): PageButton
  {
    PageButton(tok, tok == Page(c), tok == Ellipsis)
  }

  /** The component: nothing when `Paginate` produces no strip, otherwise the
      two navigation buttons around one button per token of the strip. */
  function Render(c: int, t: int): (r: Option<Bar>)
    ensures r.None? <==> t <= 1
    ensures r.Some? ==> |r.value.numbers| == |VisiblePages(c, t)|
  {
    match Paginate(c, t)
    case None => None
    case Some(ts) =>
      Some(Bar(NavButton(c == 1, c - 1),
               seq(|ts|, k requires 0 <= k < |ts| => PageButtonFor(ts[k], c)),
               NavButton(c == t, c + 1)))
  }

  /** The page change a click on a navigation button requests; a disabled
      button requests none. */
  function ClickNav(b: NavButton): Option<int>
  {
    if b.disabled then None else Some(b.target)
  }

  /** The page change a click on a strip button requests: only enabled
      number buttons navigate. */
  function ClickPage(b: PageButton): Option<int>
  {
    if b.disabled then None
    else match b.token
      case Page(n) => Some(n)
      case Ellipsis => None
  }

  /** "Previous" is disabled exactly on page 1 and otherwise goes back one
      page; "next" is disabled exactly on page t and otherwise goes forward
      one page; a strip button is disabled exactly when it is a marker, and a
      number button asks for its own page. */
  lemma RenderButtonStates(c: int, t: int)
    requires t >= 2
    ensures Render(c, t).Some?
    ensures var bar := Render(c, t).value;
      && (bar.previous.disabled <==> c == 1)
      && (bar.next.disabled <==> c == t)
      && ClickNav(bar.previous) == (if c == 1 then None else Some(c - 1))
      && ClickNav(bar.next) == (if c == t then None else Some(c + 1))
      && forall k :: 0 <= k < |bar.numbers| ==>
           && bar.numbers[k].token == VisiblePages(c, t)[k]
           && (bar.numbers[k].disabled <==> bar.numbers[k].token.Ellipsis?)
           && (ClickPage(bar.numbers[k]).None? <==> bar.numbers[k].token.Ellipsis?)
           && (bar.numbers[k].token.Page? ==> ClickPage(bar.numbers[k]) == Some(bar.numbers[k].token.n))
  {
  }

  /** On a valid current page, no button of the bar can ask for a page
      outside 1..t. */
  lemma RenderNavigatesWithinRange(c: int, t: int)
    requires 1 <= c <= t && t >= 2
    ensures Render(c, t).Some?
    ensures var bar := Render(c, t).value;
      && (ClickNav(bar.previous).Some? ==> 1 <= ClickNav(bar.previous).value <= t)
      && (ClickNav(bar.next).Some? ==> 1 <= ClickNav(bar.next).value <= t)
      && forall k :: 0 <= k < |bar.numbers| && ClickPage(bar.numbers[k]).Some? ==>
           1 <= ClickPage(bar.numbers[k]).value <= t
  {
    VisiblePagesOrdered(c, t);
    var ts := VisiblePages(c, t);
    var bar := Render(c, t).value;
    forall k | 0 <= k < |bar.numbers| && ClickPage(bar.numbers[k]).Some?
      ensures 1 <= ClickPage(bar.numbers[k]).value <= t
    {
      assert bar.numbers[k] == PageButtonFor(ts[k], c);
    }
  }

  /** On a valid current page exactly one button is highlighted, and it is
      the button of the current page. */
  lemma RenderHighlightsCurrentOnce(c: int, t: int)
    requires 1 <= c <= t && t >= 2
    ensures Render(c, t).Some?
    ensures var bs := Render(c, t).value.numbers;
      exists k :: 0 <= k < |bs| && bs[k].active && bs[k].token == Page(c) &&
        forall j :: 0 <= j < |bs| && bs[j].active ==> j == k
  {
    VisiblePagesShowsCurrent(c, t);
    VisiblePagesOrdered(c, t);
    var ts := VisiblePages(c, t);
    var bs := Render(c, t).value.numbers;
    var k :| 0 <= k < |ts| && ts[k] == Page(c);
    assert bs[k].active && bs[k].token == Page(c);
    forall j | 0 <= j < |bs| && bs[j].active
      ensures j == k
    {
      assert bs[j] == PageButtonFor(ts[j], c);
      assert ts[j] == Page(c);
    }
  }
}
