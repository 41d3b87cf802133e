/** The breadcrumb trail of the current route: one crumb for each run of levels with one title. */
module Breadcrumbs {
  import opened Options
  import opened Text

  /** `title` is the route's title when that is a string. */
  datatype Route = Route(segments: seq<string>, title: Option<string>, children: seq<Route>)

  datatype Breadcrumb = Breadcrumb(labelKey: string, url: string)

  function FirstChild(route: Route): Option<Route> {
    if route.children == [] then None else Some(route.children[0])
  }

  /** The levels of the route tree that are shown: the first child of the first child and so on. */
  function Chain(route: Route): (levels: seq<Route>)
    ensures levels != []
  {
    [route] + if route.children == [] then [] else Chain(route.children[0])
  }

  function Segment(level: Route): string {
    Join(level.segments, "/")
  }

  /** A level without a segment does not lead anywhere else. */
  function Below(url: string, segment: string): (below: string)
    ensures url <= below
  {
    if segment == "" then url else url + "/" + segment
  }

  /** Where the first n levels lead. */
  function UrlOf(levels: seq<Route>, n: nat): string
    requires n <= |levels|
  {
    if n == 0 then "" else Below(UrlOf(levels, n - 1), Segment(levels[n - 1]))
  }

  // ----- runs of equal titles

  /** A run of levels with one title, beginning at a level. */
  datatype Run<T> = Run(title: T, start: nat)

  /** Level j is in the k-th run: not before its start, and before the start of the next. */
  predicate InRun<T>(runs: seq<Run<T>>, k: nat, j: nat)
    requires k < |runs|
  {
    runs[k].start <= j && (k + 1 < |runs| ==> j < runs[k + 1].start)
  }

  /** The level is in a run of the title. */
  ghost predicate Covered<T>(runs: seq<Run<T>>, title: T, j: nat) {
    exists k :: 0 <= k < |runs| && InRun(runs, k, j) && runs[k].title == title
  }

  /** A level that has a title is in a run of that title. */
  ghost predicate Told<T>(runs: seq<Run<T>>, titles: seq<Option<T>>, j: nat)
    requires j < |titles|
  {
    titles[j].Some? ==> Covered(runs, titles[j].value, j)
  }

  predicate Ordered<T>(runs: seq<Run<T>>) {
    forall k, l :: 0 <= k < l < |runs| ==> runs[k].start < runs[l].start
  }

  predicate Different<T(==)>(runs: seq<Run<T>>, k: nat)
    requires k + 1 < |runs|
  {
    runs[k].title != runs[k + 1].title
  }

  predicate Starts<T(==)>(run: Run<T>, titles: seq<Option<T>>, n: nat) {
    run.start < n <= |titles| && titles[run.start] == Some(run.title)
  }

  /**
   The runs of the first n levels: in order, each starting with its title, neighbours different,
   and every level that has a title in a run with that title.
   */
  ghost predicate AreRuns<T>(runs: seq<Run<T>>, titles: seq<Option<T>>, n: nat)
    requires n <= |titles|
  {
    && Ordered(runs)
    && (forall k :: 0 <= k < |runs| ==> Starts(runs[k], titles, n))
    && (forall k :: 0 <= k && k + 1 < |runs| ==> Different(runs, k))
    && (forall j :: 0 <= j < n ==> Told(runs, titles, j))
  }

  lemma RunsGrow<T>(runs: seq<Run<T>>, titles: seq<Option<T>>, n: nat, title: T)
    requires n < |titles| && AreRuns(runs, titles, n) && titles[n] == Some(title)
    requires runs != [] ==> runs[|runs| - 1].title != title
    ensures AreRuns(runs + [Run(title, n)], titles, n + 1)
  {
    var more := runs + [Run(title, n)];
    forall k | 0 <= k < |more|
      ensures Starts(more[k], titles, n + 1)
    {
      if k < |runs| {
        assert Starts(runs[k], titles, n);
      }
    }
    forall k | 0 <= k && k + 1 < |more|
      ensures Different(more, k)
    {
      if k + 1 < |runs| {
        assert Different(runs, k);
      }
    }
    forall j | 0 <= j <= n
      ensures Told(more, titles, j)
    {
      if j < n && titles[j].Some? {
        assert Told(runs, titles, j);
        var k :| 0 <= k < |runs| && InRun(runs, k, j) && runs[k].title == titles[j].value;
        assert InRun(more, k, j);
      } else if j == n {
        assert InRun(more, |runs|, j);
      }
    }
    forall k | 0 <= k < |runs|
      ensures more[k].start < n
    {
      assert Starts(runs[k], titles, n);
    }
  }

  lemma RunsStay<T>(runs: seq<Run<T>>, titles: seq<Option<T>>, n: nat)
    requires n < |titles| && AreRuns(runs, titles, n)
    requires titles[n].Some? ==> runs != [] && runs[|runs| - 1].title == titles[n].value
    ensures AreRuns(runs, titles, n + 1)
  {
  }

  function ButAt<T>(runs: seq<Run<T>>, start: nat): seq<Run<T>> {
    if runs != [] && runs[|runs| - 1].start == start then runs[..|runs| - 1] else runs
  }

  lemma StartsEarlier<T>(runs: seq<Run<T>>, titles: seq<Option<T>>, n: nat, k: nat)
    requires 0 < n <= |titles| && AreRuns(runs, titles, n) && k < |ButAt(runs, n - 1)|
    ensures k < |runs| && ButAt(runs, n - 1)[k] == runs[k] && Starts(runs[k], titles, n - 1)
  {
  }

  lemma CoveredEarlier<T>(runs: seq<Run<T>>, n: nat, title: T, j: nat)
    requires j < n && Covered(runs, title, j)
    ensures Covered(ButAt(runs, n), title, j)
  {
  }

  /** The runs of one level fewer. */
  lemma RunsShrink<T>(runs: seq<Run<T>>, titles: seq<Option<T>>, n: nat)
    requires 0 < n <= |titles| && AreRuns(runs, titles, n)
    ensures AreRuns(ButAt(runs, n - 1), titles, n - 1)
  {
    var fewer := ButAt(runs, n - 1);
    forall k | 0 <= k < |fewer|
      ensures Starts(fewer[k], titles, n - 1)
    {
      StartsEarlier(runs, titles, n, k);
    }
    forall k | 0 <= k && k + 1 < |fewer|
      ensures Different(fewer, k)
    {
      assert Different(runs, k);
    }
    forall j | 0 <= j < n - 1
      ensures Told(fewer, titles, j)
    {
      assert Told(runs, titles, j);
      if titles[j].Some? {
        CoveredEarlier(runs, n - 1, titles[j].value, j);
      }
    }
  }

  /** Whether the last level starts a run cannot be chosen. */
  lemma SameEnd<T>(runs: seq<Run<T>>, titles: seq<Option<T>>, n: nat)
    requires 0 < n <= |titles| && AreRuns(runs, titles, n)
    requires runs != [] && runs[|runs| - 1].start == n - 1
    ensures !AreRuns(runs[..|runs| - 1], titles, n)
  {
    var last, fewer := |runs| - 1, runs[..|runs| - 1];
    assert Starts(runs[last], titles, n);
    assert AreRuns(fewer, titles, n) ==> Told(fewer, titles, n - 1);
    if Covered(fewer, runs[last].title, n - 1) {
      var k :| 0 <= k < |fewer| && InRun(fewer, k, n - 1) && fewer[k].title == runs[last].title;
      assert k + 1 == last ==> Different(runs, k);
    }
  }

  /** The runs are determined. */
  lemma {:induction false} RunsUnique<T>(a: seq<Run<T>>, b: seq<Run<T>>, titles: seq<Option<T>>, n: nat)
    requires n <= |titles| && AreRuns(a, titles, n) && AreRuns(b, titles, n)
    ensures a == b
    decreases n
  {
    if n == 0 {
      assert a != [] ==> Starts(a[0], titles, n);
      assert b != [] ==> Starts(b[0], titles, n);
    } else {
      RunsShrink(a, titles, n);
      RunsShrink(b, titles, n);
      RunsUnique(ButAt(a, n - 1), ButAt(b, n - 1), titles, n - 1);
      if EndsAt(a, n - 1) {
        SameEnd(a, titles, n);
        LastRun(a, titles, n);
      }
      if EndsAt(b, n - 1) {
        SameEnd(b, titles, n);
        LastRun(b, titles, n);
      }
    }
  }

  predicate EndsAt<T>(runs: seq<Run<T>>, start: nat) {
    runs != [] && runs[|runs| - 1].start == start
  }

  lemma LastRun<T>(runs: seq<Run<T>>, titles: seq<Option<T>>, n: nat)
    requires 0 < n <= |titles| && AreRuns(runs, titles, n) && EndsAt(runs, n - 1)
    ensures titles[n - 1].Some?
    ensures runs == ButAt(runs, n - 1) + [Run(titles[n - 1].value, n - 1)]
  {
  }

  // ----- the trail

  function TitlesOf(levels: seq<Route>): (titles: seq<Option<string>>)
    ensures |titles| == |levels|
  {
    seq(|levels|, i requires 0 <= i < |levels| => levels[i].title)
  }

  /** The crumb of a run: its title, and where the level it starts at leads. */
  function CrumbOf(run: Run<string>, levels: seq<Route>): Breadcrumb
    requires run.start < |levels|
  {
    Breadcrumb(run.title, UrlOf(levels, run.start + 1))
  }

  predicate AreCrumbs(crumbs: seq<Breadcrumb>, runs: seq<Run<string>>, levels: seq<Route>) {
    |crumbs| == |runs|
    && forall k :: 0 <= k < |crumbs| ==>
         runs[k].start < |levels| && crumbs[k] == CrumbOf(runs[k], levels)
  }

  lemma {:induction false} UrlsLead(levels: seq<Route>, m: nat, n: nat)
    requires m <= n <= |levels|
    ensures UrlOf(levels, m) <= UrlOf(levels, n)
  {
    if m < n {
      UrlsLead(levels, m, n - 1);
    }
  }

  /** Each crumb's url leads to those of the later crumbs. */
  lemma CrumbsLead(crumbs: seq<Breadcrumb>, runs: seq<Run<string>>, levels: seq<Route>, k: nat, l: nat)
    requires AreCrumbs(crumbs, runs, levels) && Ordered(runs) && k <= l < |crumbs|
    ensures crumbs[k].url <= crumbs[l].url
  {
    assert k < l ==> runs[k].start < runs[l].start;
    UrlsLead(levels, runs[k].start + 1, runs[l].start + 1);
  }

  lemma CrumbsGrow(crumbs: seq<Breadcrumb>, runs: seq<Run<string>>, levels: seq<Route>, run: Run<string>)
    requires AreCrumbs(crumbs, runs, levels) && run.start < |levels|
    ensures AreCrumbs(crumbs + [CrumbOf(run, levels)], runs + [run], levels)
  {
  }

  lemma ChainNext(levels: seq<Route>, n: nat, route: Route)
    requires n <= |levels| && levels[n..] == Chain(route)
    ensures n < |levels| && levels[n] == route
    ensures levels[n + 1..] == if FirstChild(route).Some? then Chain(FirstChild(route).value) else []
  {
  }

  /** One level: a crumb is pushed when it has a title, and not the last crumb's. */
  method PushCrumb(crumbs: seq<Breadcrumb>, ghost runs: seq<Run<string>>, ghost levels: seq<Route>,
                   ghost n: nat, title: Option<string>, url: string)
    returns (longer: seq<Breadcrumb>, ghost longerRuns: seq<Run<string>>)
    requires n < |levels| && levels[n].title == title && url == UrlOf(levels, n + 1)
    requires AreCrumbs(crumbs, runs, levels) && AreRuns(runs, TitlesOf(levels), n)
    ensures AreCrumbs(longer, longerRuns, levels) && AreRuns(longerRuns, TitlesOf(levels), n + 1)
  {
    if title.Some? && (crumbs == [] || crumbs[|crumbs| - 1].labelKey != title.value) {
      RunsGrow(runs, TitlesOf(levels), n, title.value);
      CrumbsGrow(crumbs, runs, levels, Run(title.value, n));
      longer, longerRuns := crumbs + [Breadcrumb(title.value, url)], runs + [Run(title.value, n)];
    } else {
      RunsStay(runs, TitlesOf(levels), n);
      longer, longerRuns := crumbs, runs;
    }
  }

  /**
   One crumb for each run of equal titles down the chain, with the title of the run and the url
   accumulated at the level it starts at.
   */
  ghost predicate IsTrail(crumbs: seq<Breadcrumb>, levels: seq<Route>) {
    exists runs :: AreRuns(runs, TitlesOf(levels), |levels|) && AreCrumbs(crumbs, runs, levels)
  }

  /** A chain has only one trail. */
  lemma TrailUnique(a: seq<Breadcrumb>, b: seq<Breadcrumb>, levels: seq<Route>)
    requires IsTrail(a, levels) && IsTrail(b, levels)
    ensures a == b
  {
    var s :| AreRuns(s, TitlesOf(levels), |levels|) && AreCrumbs(a, s, levels);
    var t :| AreRuns(t, TitlesOf(levels), |levels|) && AreCrumbs(b, t, levels);
    RunsUnique(s, t, TitlesOf(levels), |levels|);
  }

  /** Along a trail the urls are ordered: each leads to the later ones. */
  lemma TrailLeads(crumbs: seq<Breadcrumb>, levels: seq<Route>, k: nat, l: nat)
    requires IsTrail(crumbs, levels) && k <= l < |crumbs|
    ensures crumbs[k].url <= crumbs[l].url
  {
    var runs :| AreRuns(runs, TitlesOf(levels), |levels|) && AreCrumbs(crumbs, runs, levels);
    CrumbsLead(crumbs, runs, levels, k, l);
  }

  // ----- where the crumbs lead

  /** All the segments of the levels, one after another. */
  function AllSegments(levels: seq<Route>): seq<string> {
    if levels == [] then [] else AllSegments(levels[..|levels| - 1]) + levels[|levels| - 1].segments
  }

  /** The url of a path of segments. */
  predicate LeadsTo(url: string, segments: seq<string>) {
    if segments == [] then url == "" else Split(url, '/') == [""] + segments
  }

  /** No segment is empty or has a slash in it. */
  predicate Clear(segments: seq<string>) {
    forall i :: 0 <= i < |segments| ==> segments[i] != "" && Without(segments[i], '/')
  }

  predicate Separable(levels: seq<Route>) {
    forall i :: 0 <= i < |levels| ==> Clear(levels[i].segments)
  }

  lemma SegmentSplits(segments: seq<string>)
    requires segments != [] && Clear(segments)
    ensures Join(segments, "/") != "" && Split(Join(segments, "/"), '/') == segments
  {
    SplitJoin(segments, '/');
    assert segments[0] != "";
  }

  lemma LeadsOn(url: string, before: seq<string>, more: string, segments: seq<string>)
    requires LeadsTo(url, before) && segments != [] && Split(more, '/') == segments
    ensures LeadsTo(url + "/" + more, before + segments)
  {
    assert url + "/" + more == url + ['/'] + more;
    SplitAt(url, '/', more);
    assert Split(url, '/') == [""] + before;
    assert [""] + before + segments == [""] + (before + segments);
  }

  /** One level more. */
  lemma BelowLeads(url: string, before: seq<string>, level: Route)
    requires LeadsTo(url, before) && Clear(level.segments)
    ensures LeadsTo(Below(url, Segment(level)), before + level.segments)
  {
    if level.segments == [] {
      assert before + level.segments == before;
    } else {
      SegmentSplits(level.segments);
      LeadsOn(url, before, Segment(level), level.segments);
    }
  }

  lemma AllSegmentsNext(levels: seq<Route>, n: nat)
    requires 0 < n <= |levels|
    ensures AllSegments(levels[..n]) == AllSegments(levels[..n - 1]) + levels[n - 1].segments
  {
    assert levels[..n][..n - 1] == levels[..n - 1];
  }

  lemma {:induction false} UrlLeads(levels: seq<Route>, n: nat)
    requires n <= |levels| && Separable(levels)
    ensures LeadsTo(UrlOf(levels, n), AllSegments(levels[..n]))
  {
    if n > 0 {
      UrlLeads(levels, n - 1);
      AllSegmentsNext(levels, n);
      BelowLeads(UrlOf(levels, n - 1), AllSegments(levels[..n - 1]), levels[n - 1]);
    }
  }

  lemma LeadsToOne(a: string, b: string, segments: seq<string>)
    requires LeadsTo(a, segments) && LeadsTo(b, segments)
    ensures a == b
  {
    JoinSplit(a, '/');
    JoinSplit(b, '/');
  }

  /** The crumbs have the titles of the runs, and lead through all segments down to where each starts. */
  predicate Lead(crumbs: seq<Breadcrumb>, runs: seq<Run<string>>, levels: seq<Route>) {
    |crumbs| == |runs|
    && forall k :: 0 <= k < |crumbs| ==>
         && runs[k].start < |levels| && crumbs[k].labelKey == runs[k].title
         && LeadsTo(crumbs[k].url, AllSegments(levels[..runs[k].start + 1]))
  }

  lemma CrumbIffLeads(crumb: Breadcrumb, run: Run<string>, levels: seq<Route>)
    requires Separable(levels) && run.start < |levels|
    ensures crumb == CrumbOf(run, levels)
       <==> crumb.labelKey == run.title && LeadsTo(crumb.url, AllSegments(levels[..run.start + 1]))
  {
    var n := run.start + 1;
    UrlLeads(levels, n);
    if LeadsTo(crumb.url, AllSegments(levels[..n])) {
      LeadsToOne(crumb.url, UrlOf(levels, n), AllSegments(levels[..n]));
    }
  }

  lemma CrumbsIffLead(crumbs: seq<Breadcrumb>, runs: seq<Run<string>>, levels: seq<Route>)
    requires Separable(levels)
    ensures AreCrumbs(crumbs, runs, levels) <==> Lead(crumbs, runs, levels)
  {
    forall k | 0 <= k < |crumbs| && k < |runs| && runs[k].start < |levels|
      ensures crumbs[k] == CrumbOf(runs[k], levels)
         <==> crumbs[k].labelKey == runs[k].title
              && LeadsTo(crumbs[k].url, AllSegments(levels[..runs[k].start + 1]))
    {
      CrumbIffLeads(crumbs[k], runs[k], levels);
    }
  }

  /**
   A list of crumbs is the trail exactly when each has the title of its run and its url spells, segment
   by segment, all levels down to the one the run starts at.
   */
  lemma TrailIffLeads(crumbs: seq<Breadcrumb>, levels: seq<Route>)
    requires Separable(levels)
    ensures IsTrail(crumbs, levels)
       <==> exists runs :: AreRuns(runs, TitlesOf(levels), |levels|) && Lead(crumbs, runs, levels)
  {
    if runs :| AreRuns(runs, TitlesOf(levels), |levels|) && AreCrumbs(crumbs, runs, levels) {
      CrumbsIffLead(crumbs, runs, levels);
    }
    if runs :| AreRuns(runs, TitlesOf(levels), |levels|) && Lead(crumbs, runs, levels) {
      CrumbsIffLead(crumbs, runs, levels);
    }
  }

  method BuildBreadcrumbs(root: Route) returns (crumbs: seq<Breadcrumb>)
    ensures IsTrail(crumbs, Chain(root))
  {
    crumbs := [];
    ghost var runs: seq<Run<string>> := [];
    var route := Some(root);
    var url := "";
    ghost var levels := Chain(root);
    ghost var n := 0;
    while route.Some?
      invariant n <= |levels|
      invariant levels[n..] == if route.Some? then Chain(route.value) else []
      invariant url == UrlOf(levels, n)
      invariant AreCrumbs(crumbs, runs, levels)
      invariant AreRuns(runs, TitlesOf(levels), n)
      decreases |levels| - n
    {
      ChainNext(levels, n, route.value);
      url := Below(url, Segment(route.value));
      crumbs, runs := PushCrumb(crumbs, runs, levels, n, route.value.title, url);
      route := FirstChild(route.value);
      n := n + 1;
    }
  }
}
