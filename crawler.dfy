/**
 * The page analysis (backend/crawler/crawler.go). The HTTP requests, the HTML parser
 * and `net/url` are not modelled: what the GET request produced is an input
 * (`Fetch`), and URL parsing, reference resolution and the HEAD request of the link
 * checker are the oracles of a `Net`. Cancellation is the index of the first anchor
 * whose callback sees the context done.
 */
module Crawler {
  import opened Wrappers
  import opened Text
  import opened Models

  /** What `url.Parse` yields when it succeeds. */
  datatype Url = Url(hostname: string)

  datatype Net = Net(
    parse: string -> Option<Url>,          // `url.Parse`, `None` on error
    resolve: (string, string) -> string,   // `base.ResolveReference(ref).String()`
    head: string -> Option<int>)           // HEAD status code, `None` when the request fails

  /** An element matched by `a[href]`; `href` is `None` when the attribute is absent. */
  datatype Anchor = Anchor(href: Option<string>)

  datatype Document = Document(
    title: string,                 // `doc.Find("title").Text()`
    tagCount: string -> nat,       // `doc.Find(tag).Length()`
    anchors: seq<Anchor>,          // `doc.Find("a[href]")`, in document order
    hasPasswordInput: bool)        // `form input[type="password"]` matches something

  /** The outcome of the GET request and of parsing its body. */
  datatype Fetch =
    | RequestInvalid
    | RequestFailed
    | BodyUnparsable
    | Fetched(protoMajor: int, protoMinor: int, doc: Document)

  // ---------------------------------------------------------------- helpers

  /** `detectHTMLVersion`, which reads the HTTP protocol version of the response. */
  function DetectHTMLVersion(major: int, minor: int): (version: string)
    ensures version == "HTML 4.01" <==> major == 1 && minor == 0
    ensures version == "XHTML or HTML 4.01" <==> major == 1 && minor != 0
    ensures version == "HTML5" <==> major == 2
    ensures version == "Unknown" <==> major != 1 && major != 2
  {
    if major == 1 then (if minor == 0 then "HTML 4.01" else "XHTML or HTML 4.01")
    else if major == 2 then "HTML5"
    else "Unknown"
  }

  /** `resolveLink`: the href itself when either URL fails to parse. */
  function ResolveLink(net: Net, base: string, href: string): (link: string)
    ensures net.parse(href).None? || net.parse(base).None? ==> link == href
    ensures net.parse(href).Some? && net.parse(base).Some? ==> link == net.resolve(base, href)
  {
    if net.parse(href).None? then href
    else if net.parse(base).None? then href
    else net.resolve(base, href)
  }

  /** `isInternalLink`. */
  function IsInternalLink(net: Net, base: string, link: string): (internal: bool)
    ensures internal ==> net.parse(base).Some? && net.parse(link).Some?
    ensures net.parse(base).Some? && net.parse(link).Some? ==>
      (internal <==> net.parse(base).value.hostname == net.parse(link).value.hostname)
  {
    var b := net.parse(base);
    var d := net.parse(link);
    if b.None? || d.None? then false else b.value.hostname == d.value.hostname
  }

  /** Being internal is symmetric, and a link is internal to itself iff it parses. */
  lemma InternalLinkSymmetric(net: Net, a: string, b: string)
    ensures IsInternalLink(net, a, b) == IsInternalLink(net, b, a)
    ensures IsInternalLink(net, a, a) <==> net.parse(a).Some?
  {
  }

  /** `checkLinkWithContext`: the HEAD status, or 500 when the request fails. */
  function CheckLink(net: Net, link: string): (code: int)
    ensures net.head(link).None? ==> code == 500
    ensures net.head(link).Some? ==> code == net.head(link).value
  {
    if net.head(link).None? then 500 else net.head(link).value
  }

  /** Anchors the loop skips: no href, an empty href, or a fragment-only href. */
  predicate Skipped(a: Anchor) {
    a.href.None? || a.href.value == "" || StartsWith(a.href.value, "#")
  }

  // ---------------------------------------------------------------- the link loop

  /** The four counters of the link loop. */
  datatype Tally = Tally(internal: nat, external: nat, accessible: nat, broken: seq<BrokenLink>)

  /** One callback of `EachWithBreak` on a context that is not done. */
  function Visit(net: Net, rawURL: string, t: Tally, a: Anchor): (r: Tally)
    ensures Skipped(a) ==> r == t
    ensures !Skipped(a) ==> r.internal + r.external == t.internal + t.external + 1
    ensures !Skipped(a) ==> r.accessible + |r.broken| == t.accessible + |t.broken| + 1
    ensures |t.broken| <= |r.broken| && r.broken[..|t.broken|] == t.broken
  {
    if Skipped(a) then t
    else
      var absolute := ResolveLink(net, rawURL, a.href.value);
      var t1 := if IsInternalLink(net, rawURL, absolute) then t.(internal := t.internal + 1)
                else t.(external := t.external + 1);
      var code := CheckLink(net, absolute);
      if code >= 400 then t1.(broken := t1.broken + [BrokenLink(absolute, code)])
      else t1.(accessible := t1.accessible + 1)
  }

  /** The counters after visiting `anchors` in order, from zero. */
  function TallyOf(net: Net, rawURL: string, anchors: seq<Anchor>): Tally {
    if anchors == [] then Tally(0, 0, 0, [])
    else Visit(net, rawURL, TallyOf(net, rawURL, anchors[..|anchors| - 1]), anchors[|anchors| - 1])
  }

  /** The number of anchors the loop does not skip. */
  function Counted(anchors: seq<Anchor>): nat {
    if anchors == [] then 0
    else Counted(anchors[..|anchors| - 1]) + (if Skipped(anchors[|anchors| - 1]) then 0 else 1)
  }

  /** Every counted link is either internal or external, and either accessible or
      broken; every broken entry carries the failing link's code, which is 400 or more. */
  lemma {:induction false} TallyInvariants(net: Net, rawURL: string, anchors: seq<Anchor>)
    ensures var t := TallyOf(net, rawURL, anchors);
      && t.internal + t.external == Counted(anchors)
      && t.accessible + |t.broken| == Counted(anchors)
      && (forall i :: 0 <= i < |t.broken| ==> t.broken[i].status >= 400)
      && (forall i :: 0 <= i < |t.broken| ==> t.broken[i].status == CheckLink(net, t.broken[i].url))
  {
    if anchors != [] {
      TallyInvariants(net, rawURL, anchors[..|anchors| - 1]);
    }
  }

  /** A skipped anchor changes no counter. */
  lemma SkippedCountsNothing(net: Net, rawURL: string, anchors: seq<Anchor>, a: Anchor)
    requires Skipped(a)
    ensures TallyOf(net, rawURL, anchors + [a]) == TallyOf(net, rawURL, anchors)
    ensures Counted(anchors + [a]) == Counted(anchors)
  {
    assert (anchors + [a])[..|anchors|] == anchors;
  }

  /** Later anchors never lower a counter or drop a broken entry: the counts after a
      cancellation are those of a prefix and are bounded by those of the whole list. */
  lemma {:induction false} TallyGrows(net: Net, rawURL: string, anchors: seq<Anchor>, k: nat)
    requires k <= |anchors|
    ensures var before := TallyOf(net, rawURL, anchors[..k]);
      var after := TallyOf(net, rawURL, anchors);
      && before.internal <= after.internal && before.external <= after.external
      && before.accessible <= after.accessible
      && |before.broken| <= |after.broken| && after.broken[..|before.broken|] == before.broken
  {
    if k < |anchors| {
      var init := anchors[..|anchors| - 1];
      assert init[..k] == anchors[..k];
      TallyGrows(net, rawURL, init, k);
    } else {
      assert anchors[..k] == anchors;
    }
  }

  /** The `EachWithBreak` loop: visits anchors until the one at index `cancelAt`, whose
      callback sees the context done and stops the iteration. */
  method CheckLinks(net: Net, rawURL: string, anchors: seq<Anchor>, cancelAt: nat)
    returns (t: Tally, processed: nat)
    ensures processed == if cancelAt < |anchors| then cancelAt else |anchors|
    ensures t == TallyOf(net, rawURL, anchors[..processed])
    ensures t.internal + t.external == Counted(anchors[..processed])
    ensures t.accessible + |t.broken| == t.internal + t.external
    ensures forall i :: 0 <= i < |t.broken| ==> t.broken[i].status >= 400
  {
    var internal, external, accessible := 0, 0, 0;
    var broken: seq<BrokenLink> := [];
    var i := 0;
    while i < |anchors| && i < cancelAt
      invariant 0 <= i <= |anchors| && i <= cancelAt
      invariant Tally(internal, external, accessible, broken) == TallyOf(net, rawURL, anchors[..i])
    {
      assert anchors[..i + 1][..i] == anchors[..i];
      var a := anchors[i];
      if !Skipped(a) {
        var absolute := ResolveLink(net, rawURL, a.href.value);
        if IsInternalLink(net, rawURL, absolute) {
          internal := internal + 1;
        } else {
          external := external + 1;
        }
        var code := CheckLink(net, absolute);
        if code >= 400 {
          broken := broken + [BrokenLink(absolute, code)];
        } else {
          accessible := accessible + 1;
        }
      }
      i := i + 1;
    }
    t, processed := Tally(internal, external, accessible, broken), i;
    TallyInvariants(net, rawURL, anchors[..processed]);
  }

  // ---------------------------------------------------------------- headings

  function HeadingTag(level: nat): string
    requires 1 <= level <= 6
  {
    "h" + [DigitChar(level)]
  }

  function HeadingKey(level: nat): string
    requires 1 <= level <= 6
  {
    "H" + [DigitChar(level)]
  }

  const HeadingKeys: set<string> := {"H1", "H2", "H3", "H4", "H5", "H6"}

  /** `strings.ToUpper("h" + level)` is the key `"H" + level`. */
  lemma UpperHeadingTag(level: nat)
    requires 1 <= level <= 6
    ensures Upper(HeadingTag(level)) == HeadingKey(level)
  {
    assert Upper(HeadingTag(level))[0] == 'H';
  }

  /** The `for i := 1; i <= 6; i++` loop over the heading tags. */
  method CountHeadings(doc: Document) returns (headings: map<string, int>)
    ensures headings.Keys == HeadingKeys
    ensures forall level :: 1 <= level <= 6 ==>
      HeadingKey(level) in headings && headings[HeadingKey(level)] == doc.tagCount(HeadingTag(level))
  {
    headings := map[];
    for i := 1 to 7
      invariant headings.Keys == set level | 1 <= level < i :: HeadingKey(level)
      invariant forall level :: 1 <= level < i ==> headings[HeadingKey(level)] == doc.tagCount(HeadingTag(level))
    {
      var tag := "h" + [DigitChar(i)];
      UpperHeadingTag(i);
      KeysDiffer(i);
      headings := headings[Upper(tag) := doc.tagCount(tag)];
    }
    assert HeadingKey(1) == "H1" && HeadingKey(2) == "H2" && HeadingKey(3) == "H3";
    assert HeadingKey(4) == "H4" && HeadingKey(5) == "H5" && HeadingKey(6) == "H6";
  }

  lemma KeysDiffer(level: nat)
    requires 1 <= level <= 6
    ensures forall other :: 1 <= other <= 6 && other != level ==> HeadingKey(other) != HeadingKey(level)
  {
    forall other | 1 <= other <= 6 && other != level
      ensures HeadingKey(other) != HeadingKey(level)
    {
      assert HeadingKey(other)[1] != HeadingKey(level)[1];
    }
  }

  // ---------------------------------------------------------------- Analyze

  /** `Analyze`. Returns the analysis and whether it failed: a failed GET or an unparsable
      body yields only the url and status `error`; otherwise the record is complete
      with status `done`, even when a cancellation cut the link loop short. */
  method Analyze(net: Net, rawURL: string, fetch: Fetch, cancelAt: nat)
    returns (info: UrlInfo, failed: bool)
    ensures failed <==> !fetch.Fetched?
    ensures failed ==> info == Placeholder("", rawURL, Failed)
    ensures !failed ==>
      var doc := fetch.doc;
      var processed := if cancelAt < |doc.anchors| then cancelAt else |doc.anchors|;
      var t := TallyOf(net, rawURL, doc.anchors[..processed]);
      && info.id == "" && info.url == rawURL && info.status == Done
      && info.title == doc.title
      && info.htmlVersion == DetectHTMLVersion(fetch.protoMajor, fetch.protoMinor)
      && info.headings.Keys == HeadingKeys
      && (forall level :: 1 <= level <= 6 ==>
            HeadingKey(level) in info.headings && info.headings[HeadingKey(level)] == doc.tagCount(HeadingTag(level)))
      && info.internalLinks == t.internal && info.externalLinks == t.external
      && info.accessibleLinks == t.accessible && info.brokenLinks == t.broken
      && info.internalLinks + info.externalLinks == info.accessibleLinks + |info.brokenLinks|
      && info.hasLoginForm == doc.hasPasswordInput
  {
    if !fetch.Fetched? {
      return Placeholder("", rawURL, Failed), true;
    }
    var doc := fetch.doc;
    var headings := CountHeadings(doc);
    var t, processed := CheckLinks(net, rawURL, doc.anchors, cancelAt);
    info := UrlInfo("", rawURL, Done, doc.title, DetectHTMLVersion(fetch.protoMajor, fetch.protoMinor),
                    headings, t.internal, t.external, t.accessible, t.broken, doc.hasPasswordInput);
    failed := false;
  }
}
