/** One checking run (`checkAll` in check-stock.js): every URL of every
    category is judged once, in catalogue order, on the same page; the
    report lines are built up as it goes, together with the flag that
    decides whether mail is sent and the diagnostics captured on the way. */
module Run {
  import opened Judgment
  import opened Artifacts
  import opened Strings

  /** One entry of the URL table: a category and its URLs in order. */
  datatype Category = Category(name: string, urls: seq<string>)

  /** One call of `judge` as the run sees it: the text it returns, and the
      tags of the diagnostics it captured on the way. */
  datatype Outcome = Outcome(result: string, captured: seq<Tag>)

  /** What the run hands back. */
  datatype Report = Report(subject: string, body: string, anyInStock: bool)

  const Subject: string := "Panasonic Factory Refresh 在庫チェック"

  /** What `result.includes` looks for. */
  const InStockMark: string := "在庫あり"

  /** `[<time> JST]`; the time text is taken as given. */
  function Header(stamp: string): string
  {
    "[" + stamp + " JST]"
  }

  function CategoryLine(name: string): string
  {
    "■ " + name
  }

  function UrlLine(url: string, result: string): string
  {
    "- " + url + " — " + result
  }

  /** `judge` on the pages the browser shows: `pages(url)` is how the page
      at `url` behaves during the run. */
  function Judged(sig: Signals, pages: string -> Page): string -> Outcome
  {
    url => Reported(Judge(sig, pages(url)))
  }

  /** What the caller of `judge` sees of a verdict: the returned text. The
      captures are its side effects. */
  function Reported(v: Verdict): Outcome
  {
    Outcome(Text(v.result), v.captured)
  }

  /** A judgment that captures diagnostics exactly once on failure and
      never otherwise, as `Judge` does. */
  ghost predicate CapturesOnFailure(judge: string -> Outcome)
  {
    forall url :: |judge(url).captured| == if judge(url).result == Text(FetchFailed) then 1 else 0
  }

  /** All URLs of the catalogue, category by category. */
  function Targets(catalog: seq<Category>): (urls: seq<string>)
  {
    if catalog == [] then []
    else Targets(catalog[..|catalog| - 1]) + catalog[|catalog| - 1].urls
  }

  /** The result line of each URL, in order. */
  function UrlLines(judge: string -> Outcome, urls: seq<string>): (lines: seq<string>)
    ensures |lines| == |urls|
  {
    if urls == [] then []
    else
      var url := urls[|urls| - 1];
      UrlLines(judge, urls[..|urls| - 1]) + [UrlLine(url, judge(url).result)]
  }

  /** Each category's heading followed by its result lines. */
  function Sections(judge: string -> Outcome, catalog: seq<Category>): seq<string>
  {
    if catalog == [] then []
    else
      var last := catalog[|catalog| - 1];
      Sections(judge, catalog[..|catalog| - 1])
        + [CategoryLine(last.name)] + UrlLines(judge, last.urls)
  }

  /** The whole report, line by line. */
  function Lines(stamp: string, judge: string -> Outcome, catalog: seq<Category>): seq<string>
  {
    [Header(stamp)] + Sections(judge, catalog)
  }

  /** Whether some URL's result text contains the in-stock mark. */
  predicate AnyInStock(judge: string -> Outcome, urls: seq<string>)
  {
    if urls == [] then false
    else AnyInStock(judge, urls[..|urls| - 1])
         || Contains(judge(urls[|urls| - 1]).result, InStockMark)
  }

  /** The artifact base names written, in order: one per capture. */
  function Captures(judge: string -> Outcome, urls: seq<string>): seq<string>
  {
    if urls == [] then []
    else
      var url := urls[|urls| - 1];
      var tags := judge(url).captured;
      Captures(judge, urls[..|urls| - 1]) + CaptureNames(url, tags)
  }

  /** The base names `saveArtifacts` writes for `url`, one per tag. */
  function CaptureNames(url: string, tags: seq<Tag>): seq<string>
  {
    seq(|tags|, k requires 0 <= k < |tags| => ArtifactBase(url, tags[k]))
  }

  /** How many URLs end as fetch failures. */
  function Failures(judge: string -> Outcome, urls: seq<string>): nat
  {
    if urls == [] then 0
    else Failures(judge, urls[..|urls| - 1])
         + (if judge(urls[|urls| - 1]).result == Text(FetchFailed) then 1 else 0)
  }

  /** `checkAll()`: the header, then for each category its heading and one
      line per URL; the flag is raised by any result that contains the
      in-stock mark; the body is the lines joined with newlines. The
      diagnostics the judgments capture are returned as the names written
      to the artifact store. */
  method CheckAll(stamp: string, judge: string -> Outcome, catalog: seq<Category>)
    returns (report: Report, artifacts: seq<string>)
    ensures report.subject == Subject
    ensures report.body == Join(Lines(stamp, judge, catalog), "\n")
    ensures report.anyInStock <==>
              exists k :: 0 <= k < |Targets(catalog)| && Contains(judge(Targets(catalog)[k]).result, InStockMark)
    ensures artifacts == Captures(judge, Targets(catalog))
  {
    var lines := [Header(stamp)];
    var anyInStock := false;
    artifacts := [];
    for i := 0 to |catalog|
      invariant lines == [Header(stamp)] + Sections(judge, catalog[..i])
      invariant anyInStock == AnyInStock(judge, Targets(catalog[..i]))
      invariant artifacts == Captures(judge, Targets(catalog[..i]))
    {
      var category := catalog[i];
      var results, found, captured := CheckUrls(judge, category.urls);
      CategoryStep(stamp, judge, catalog, i);
      lines := lines + ([CategoryLine(category.name)] + results);
      anyInStock := anyInStock || found;
      artifacts := artifacts + captured;
    }
    assert catalog[..|catalog|] == catalog;
    AnyInStockIff(judge, Targets(catalog));
    report := Report(Subject, Join(lines, "\n"), anyInStock);
  }

  /** The inner loop of `checkAll` over one category's URLs: the result
      lines it pushes, whether it raises the flag, and the captures the
      judgments make, in order. */
  method CheckUrls(judge: string -> Outcome, urls: seq<string>)
    returns (lines: seq<string>, anyInStock: bool, artifacts: seq<string>)
    ensures lines == UrlLines(judge, urls)
    ensures anyInStock <==> exists k :: 0 <= k < |urls| && Contains(judge(urls[k]).result, InStockMark)
    ensures anyInStock == AnyInStock(judge, urls)
    ensures artifacts == Captures(judge, urls)
  {
    lines := [];
    anyInStock := false;
    artifacts := [];
    for j := 0 to |urls|
      invariant lines == UrlLines(judge, urls[..j])
      invariant anyInStock == AnyInStock(judge, urls[..j])
      invariant artifacts == Captures(judge, urls[..j])
    {
      var url := urls[j];
      var v := judge(url);
      if Contains(v.result, InStockMark) {
        anyInStock := true;
      }
      lines := lines + [UrlLine(url, v.result)];
      artifacts := artifacts + CaptureNames(url, v.captured);
      PushUrl(judge, urls[..j], url);
      assert urls[..j + 1] == urls[..j] + [url];
    }
    assert urls[..|urls|] == urls;
    AnyInStockIff(judge, urls);
  }

  /** The flag over two runs of URLs is raised when either raises it. */
  lemma {:induction false} AnyInStockAppend(judge: string -> Outcome, a: seq<string>, b: seq<string>)
    ensures AnyInStock(judge, a + b) == (AnyInStock(judge, a) || AnyInStock(judge, b))
    decreases |b|
  {
    if b != [] {
      var n := |b| - 1;
      assert (a + b)[..|a + b| - 1] == a + b[..n];
      AnyInStockAppend(judge, a, b[..n]);
    } else {
      assert a + b == a;
    }
  }

  /** The captures over two runs of URLs are those of each, in order. */
  lemma {:induction false} CapturesAppend(judge: string -> Outcome, a: seq<string>, b: seq<string>)
    ensures Captures(judge, a + b) == Captures(judge, a) + Captures(judge, b)
    decreases |b|
  {
    if b != [] {
      var n := |b| - 1;
      assert (a + b)[..|a + b| - 1] == a + b[..n];
      CapturesAppend(judge, a, b[..n]);
    } else {
      assert a + b == a;
    }
  }

  /** What finishing category `i` does to the report, the flag and the
      captures built over the categories before it. */
  lemma CategoryStep(stamp: string, judge: string -> Outcome, catalog: seq<Category>, i: nat)
    requires i < |catalog|
    ensures [Header(stamp)] + Sections(judge, catalog[..i + 1])
            == ([Header(stamp)] + Sections(judge, catalog[..i]))
               + ([CategoryLine(catalog[i].name)] + UrlLines(judge, catalog[i].urls))
    ensures AnyInStock(judge, Targets(catalog[..i + 1]))
            == (AnyInStock(judge, Targets(catalog[..i])) || AnyInStock(judge, catalog[i].urls))
    ensures Captures(judge, Targets(catalog[..i + 1]))
            == Captures(judge, Targets(catalog[..i])) + Captures(judge, catalog[i].urls)
  {
    var before := Targets(catalog[..i]);
    PushCategory(judge, catalog, i);
    AnyInStockAppend(judge, before, catalog[i].urls);
    CapturesAppend(judge, before, catalog[i].urls);
    Regroup([Header(stamp)], Sections(judge, catalog[..i]),
            [CategoryLine(catalog[i].name)], UrlLines(judge, catalog[i].urls));
  }

  lemma Regroup<T>(a: seq<T>, b: seq<T>, c: seq<T>, d: seq<T>)
    ensures a + (b + c + d) == (a + b) + (c + d)
  {
  }

  /** What judging one more URL adds to the spec functions. */
  lemma PushUrl(judge: string -> Outcome, urls: seq<string>, url: string)
    ensures AnyInStock(judge, urls + [url]) ==
              (AnyInStock(judge, urls) || Contains(judge(url).result, InStockMark))
    ensures Captures(judge, urls + [url]) ==
              Captures(judge, urls) + CaptureNames(url, judge(url).captured)
    ensures UrlLines(judge, urls + [url]) ==
              UrlLines(judge, urls) + [UrlLine(url, judge(url).result)]
  {
    assert (urls + [url])[..|urls|] == urls;
  }

  /** What finishing one more category adds to the spec functions. */
  lemma PushCategory(judge: string -> Outcome, catalog: seq<Category>, i: nat)
    requires i < |catalog|
    ensures Targets(catalog[..i + 1]) == Targets(catalog[..i]) + catalog[i].urls
    ensures Sections(judge, catalog[..i + 1]) ==
              Sections(judge, catalog[..i]) + [CategoryLine(catalog[i].name)] + UrlLines(judge, catalog[i].urls)
  {
    assert catalog[..i + 1][..i] == catalog[..i];
  }

  /** `includes('在庫あり')` singles out the in-stock label among the three. */
  lemma InStockMarkIff(l: Label)
    ensures Contains(Text(l), InStockMark) <==> l == InStock
  {
    match l
    case InStock =>
      assert Text(l) == "\U{2B50}\U{FE0F}\U{FE0F}" + InStockMark + "\U{2B50}\U{FE0F}";
      ContainsInfix("\U{2B50}\U{FE0F}\U{FE0F}", InStockMark, "\U{2B50}\U{FE0F}");
    case OutOfStock =>
      assert Text(l)[..4] != InStockMark by { assert Text(l)[2] != InStockMark[2]; }
    case FetchFailed =>
      assert Text(l)[..4] != InStockMark by { assert Text(l)[0] != InStockMark[0]; }
  }

  /** The flag is raised exactly when some URL's result text contains the
      in-stock mark. */
  lemma {:induction false} AnyInStockIff(judge: string -> Outcome, urls: seq<string>)
    ensures AnyInStock(judge, urls) <==>
              exists k :: 0 <= k < |urls| && Contains(judge(urls[k]).result, InStockMark)
  {
    if urls != [] {
      var n := |urls| - 1;
      AnyInStockIff(judge, urls[..n]);
      if exists k :: 0 <= k < |urls| && Contains(judge(urls[k]).result, InStockMark) {
        var k :| 0 <= k < |urls| && Contains(judge(urls[k]).result, InStockMark);
        if k < n {
          assert urls[..n][k] == urls[k];
        }
      }
      if exists k :: 0 <= k < n && Contains(judge(urls[..n][k]).result, InStockMark) {
        var k :| 0 <= k < n && Contains(judge(urls[..n][k]).result, InStockMark);
        assert urls[..n][k] == urls[k];
      }
    }
  }

  /** Diagnostics are captured once for every failed URL and for no other. */
  lemma {:induction false} CapturesCount(judge: string -> Outcome, urls: seq<string>)
    requires CapturesOnFailure(judge)
    ensures |Captures(judge, urls)| == Failures(judge, urls)
  {
    if urls != [] {
      CapturesCount(judge, urls[..|urls| - 1]);
    }
  }

  /** The per-URL judgment has that property. */
  lemma JudgedCapturesOnFailure(sig: Signals, pages: string -> Page)
    ensures CapturesOnFailure(Judged(sig, pages))
  {
    forall url
      ensures |Judged(sig, pages)(url).captured|
              == if Judged(sig, pages)(url).result == Text(FetchFailed) then 1 else 0
    {
      var v := Judge(sig, pages(url));
      assert Judged(sig, pages)(url) == Reported(v);
      FailedTextIff(v.result);
    }
  }

  /** Only the fetch-failed result has the fetch-failed text. */
  lemma FailedTextIff(l: Label)
    ensures Text(l) == Text(FetchFailed) <==> l == FetchFailed
  {
    if l != FetchFailed {
      assert Text(l)[0] != Text(FetchFailed)[0];
    }
  }

  /** The page conditions under which `Judge` answers in stock. */
  ghost predicate ShowsInStock(sig: Signals, page: Page)
  {
    && page.nav == Response(true)
    && (forall j :: 0 <= j < |sig.outOfStock| ==> page.visibility(sig.outOfStock[j]) == Hidden)
    && page.visibility(sig.cart) == Visible
  }

  /** On real pages, the run's flag is raised exactly when some URL's page
      succeeded, showed no out-of-stock text and showed the cart button. */
  lemma RunInStockIff(sig: Signals, pages: string -> Page, urls: seq<string>)
    ensures AnyInStock(Judged(sig, pages), urls) <==>
              exists k :: 0 <= k < |urls| && ShowsInStock(sig, pages(urls[k]))
  {
    AnyInStockIff(Judged(sig, pages), urls);
    forall k | 0 <= k < |urls|
      ensures Contains(Judged(sig, pages)(urls[k]).result, InStockMark) <==> ShowsInStock(sig, pages(urls[k]))
    {
      var v := Judge(sig, pages(urls[k]));
      assert Judged(sig, pages)(urls[k]) == Reported(v);
      InStockIff(sig, pages(urls[k]));
      InStockMarkIff(v.result);
    }
  }

  /** Every URL of every category is judged, and only once: there are as
      many targets as the categories hold URLs. */
  lemma {:induction false} TargetsLength(catalog: seq<Category>)
    ensures |Targets(catalog)| == TotalUrls(catalog)
  {
    if catalog != [] {
      TargetsLength(catalog[..|catalog| - 1]);
    }
  }

  function TotalUrls(catalog: seq<Category>): nat
  {
    if catalog == [] then 0 else TotalUrls(catalog[..|catalog| - 1]) + |catalog[|catalog| - 1].urls|
  }

  /** The report has one header line, one line per category and one line
      per URL; with an empty catalogue it is the header alone. */
  lemma {:induction false} LineCount(stamp: string, judge: string -> Outcome, catalog: seq<Category>)
    ensures |Lines(stamp, judge, catalog)| == 1 + |catalog| + |Targets(catalog)|
    ensures catalog == [] ==> Lines(stamp, judge, catalog) == [Header(stamp)]
  {
    SectionsLength(judge, catalog);
  }

  lemma {:induction false} SectionsLength(judge: string -> Outcome, catalog: seq<Category>)
    ensures |Sections(judge, catalog)| == |catalog| + |Targets(catalog)|
  {
    if catalog != [] {
      SectionsLength(judge, catalog[..|catalog| - 1]);
    }
  }

  /** Line `1 + i + (URLs before category i)` is category i's heading, and
      the lines after it are its URLs' results, in order. */
  lemma LinesLayout(stamp: string, judge: string -> Outcome,
                    catalog: seq<Category>, i: nat, j: nat)
    requires i < |catalog| && j < |catalog[i].urls|
    ensures var at := 1 + i + |Targets(catalog[..i])|;
            var lines := Lines(stamp, judge, catalog);
            at + 1 + j < |lines|
            && lines[at] == CategoryLine(catalog[i].name)
            && lines[at + 1 + j] == UrlLine(catalog[i].urls[j], judge(catalog[i].urls[j]).result)
  {
    var at := i + |Targets(catalog[..i])|;
    var sections := Sections(judge, catalog);
    var block := [CategoryLine(catalog[i].name)] + UrlLines(judge, catalog[i].urls);
    SectionsLayout(judge, catalog, i);
    UrlLineAt(judge, catalog[i].urls, j);
    assert sections[at] == block[0];
    assert sections[at + 1 + j] == block[1 + j];
  }

  /** Category i's block of lines (its heading, then one result line per
      URL) starts right after the blocks of the categories before it. */
  lemma SectionsLayout(judge: string -> Outcome, catalog: seq<Category>, i: nat)
    requires i < |catalog|
    ensures var at := i + |Targets(catalog[..i])|;
            var sections := Sections(judge, catalog);
            at + 1 + |catalog[i].urls| <= |sections|
            && sections[at..at + 1 + |catalog[i].urls|]
               == [CategoryLine(catalog[i].name)] + UrlLines(judge, catalog[i].urls)
  {
    var before := Sections(judge, catalog[..i]);
    var block := [CategoryLine(catalog[i].name)] + UrlLines(judge, catalog[i].urls);
    var upto := Sections(judge, catalog[..i + 1]);
    PushCategory(judge, catalog, i);
    assert upto == before + block;
    SectionsLength(judge, catalog[..i]);
    SectionsPrefix(judge, catalog, i + 1);
    assert upto[|before|..] == block;
  }

  /** The lines of the first `m` categories start the lines of all of them. */
  lemma {:induction false} SectionsPrefix(judge: string -> Outcome, catalog: seq<Category>, m: nat)
    requires m <= |catalog|
    ensures Sections(judge, catalog[..m]) <= Sections(judge, catalog)
    decreases |catalog|
  {
    if m < |catalog| {
      var front := catalog[..|catalog| - 1];
      assert front[..m] == catalog[..m];
      SectionsPrefix(judge, front, m);
      var last := catalog[|catalog| - 1];
      var rest := [CategoryLine(last.name)] + UrlLines(judge, last.urls);
      assert Sections(judge, catalog) == Sections(judge, front) + rest;
    } else {
      assert catalog[..m] == catalog;
    }
  }

  lemma {:induction false} UrlLineAt(judge: string -> Outcome, urls: seq<string>, j: nat)
    requires j < |urls|
    ensures UrlLines(judge, urls)[j] == UrlLine(urls[j], judge(urls[j]).result)
  {
    var n := |urls| - 1;
    if j < n {
      UrlLineAt(judge, urls[..n], j);
      assert UrlLines(judge, urls)[j] == UrlLines(judge, urls[..n])[j];
    }
  }

  /** A report whose parts hold no newline splits back into its lines. */
  lemma BodySplits(stamp: string, judge: string -> Outcome, catalog: seq<Category>)
    requires '\n' !in stamp
    requires forall i :: 0 <= i < |catalog| ==> '\n' !in catalog[i].name
    requires forall k :: 0 <= k < |Targets(catalog)| ==> Plain(judge, Targets(catalog)[k])
    ensures Split(Join(Lines(stamp, judge, catalog), "\n"), '\n') == Lines(stamp, judge, catalog)
  {
    SectionsPlain(judge, catalog);
    SplitJoin(Lines(stamp, judge, catalog), '\n');
  }

  /** Neither a URL nor the text judged for it holds a newline. */
  predicate Plain(judge: string -> Outcome, url: string)
  {
    '\n' !in url && '\n' !in judge(url).result
  }

  lemma {:induction false} SectionsPlain(judge: string -> Outcome, catalog: seq<Category>)
    requires forall i :: 0 <= i < |catalog| ==> '\n' !in catalog[i].name
    requires forall k :: 0 <= k < |Targets(catalog)| ==> Plain(judge, Targets(catalog)[k])
    ensures forall m :: 0 <= m < |Sections(judge, catalog)| ==> '\n' !in Sections(judge, catalog)[m]
  {
    if catalog != [] {
      var n := |catalog| - 1;
      var front := catalog[..n];
      var urls := catalog[n].urls;
      var before := Targets(front);
      assert Targets(catalog) == before + urls;
      forall k | 0 <= k < |before|
        ensures Plain(judge, before[k])
      {
        assert before[k] == Targets(catalog)[k];
      }
      forall k | 0 <= k < |urls|
        ensures Plain(judge, urls[k])
      {
        assert urls[k] == Targets(catalog)[|before| + k];
      }
      SectionsPlain(judge, front);
      SectionPlain(judge, catalog[n].name, urls);
      ConcatPlain(Sections(judge, front), [CategoryLine(catalog[n].name)] + UrlLines(judge, urls));
      assert Sections(judge, catalog)
          == Sections(judge, front) + ([CategoryLine(catalog[n].name)] + UrlLines(judge, urls));
    }
  }

  /** One category's heading and result lines are free of newlines when its
      name, its URLs and their results are. */
  lemma SectionPlain(judge: string -> Outcome, name: string, urls: seq<string>)
    requires '\n' !in name
    requires forall k :: 0 <= k < |urls| ==> Plain(judge, urls[k])
    ensures forall m :: 0 <= m < 1 + |urls| ==> '\n' !in ([CategoryLine(name)] + UrlLines(judge, urls))[m]
  {
    var results := UrlLines(judge, urls);
    forall m | 0 <= m < |urls|
      ensures '\n' !in results[m]
    {
      UrlLineAt(judge, urls, m);
      UrlLinePlain(urls[m], judge(urls[m]).result);
    }
    CategoryLinePlain(name);
    ConcatPlain([CategoryLine(name)], results);
  }

  lemma CategoryLinePlain(name: string)
    requires '\n' !in name
    ensures '\n' !in CategoryLine(name)
  {
  }

  lemma UrlLinePlain(url: string, result: string)
    requires '\n' !in url && '\n' !in result
    ensures '\n' !in UrlLine(url, result)
  {
  }

  /** The judgment's texts hold no newline, so on page snapshots only the
      URLs themselves can break the line structure of the body. */
  lemma JudgedPlain(sig: Signals, pages: string -> Page, url: string)
    requires '\n' !in url
    ensures Plain(Judged(sig, pages), url)
  {
    var v := Judge(sig, pages(url));
    assert Judged(sig, pages)(url) == Reported(v);
    match v.result
    case OutOfStock =>
    case InStock =>
    case FetchFailed =>
  }

  lemma ConcatPlain(a: seq<string>, b: seq<string>)
    requires forall m :: 0 <= m < |a| ==> '\n' !in a[m]
    requires forall m :: 0 <= m < |b| ==> '\n' !in b[m]
    ensures forall m :: 0 <= m < |a + b| ==> '\n' !in (a + b)[m]
  {
  }
}
