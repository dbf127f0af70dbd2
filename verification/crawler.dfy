/** The crawl in `main`: resolve the author once from the newest post, then
    walk the chain of "previous article" links from that post, persisting
    every page and counting it, until a page has no previous link. */
module Crawler {
  import opened Outcomes
  import opened PageParser
  import opened Strings
  import opened ArtifactWriter

  const BaseUrl := "https://www.nogizaka46.com/s/n46/diary/detail/"
  /** The hard-coded starting page: the newest post of the author. */
  const NewestUrl := BaseUrl + "56124?ima=4551&cd=MEMBER"

  /** The site as the crawl sees it: each URL that answers a page request
      successfully, with its parsed page. Any other URL fails to fetch. */
  type Site = map<Url, Document>

  /** The previous-post link of a page, when it is fetched and has one. */
  function PreviousLink(site: Site, url: Url): Option<Url> {
    if url in site then
      match FindPreviousPostUrl(site[url].navAnchor)
      case Ok(Some(previous)) => Some(previous)
      case _ => None
    else None
  }

  /** Where each page's previous-post link leads, if anywhere. */
  type Links = Url -> Option<Url>

  /** The previous-post links of a site. */
  function SiteLinks(site: Site): Links {
    url => PreviousLink(site, url)
  }

  /** `chain` is the finite walk of links from `start`: each page links to the
      next one, and the last has no link. */
  predicate IsChain(links: Links, start: Url, chain: seq<Url>) {
    && |chain| >= 1
    && chain[0] == start
    && (forall i :: 0 <= i < |chain| - 1 ==> links(chain[i]) == Some(chain[i + 1]))
    && links(chain[|chain| - 1]) == None
  }

  /** Each page of a chain links to the next one, and only the last has no link. */
  lemma ChainLink(links: Links, start: Url, chain: seq<Url>, i: nat)
    requires IsChain(links, start, chain) && i < |chain|
    ensures links(chain[i]) == if i < |chain| - 1 then Some(chain[i + 1]) else None
  {
  }

  /** The rest of a chain is the chain of its second page. */
  lemma ChainTail(links: Links, start: Url, chain: seq<Url>)
    requires IsChain(links, start, chain) && |chain| > 1
    ensures IsChain(links, chain[1], chain[1..])
  {
  }

  /** The walk of links is determined by its start. */
  lemma {:induction false} ChainUnique(links: Links, start: Url, c1: seq<Url>, c2: seq<Url>)
    requires IsChain(links, start, c1) && IsChain(links, start, c2)
    ensures c1 == c2
    decreases |c1|
  {
    ChainLink(links, start, c1, 0);
    ChainLink(links, start, c2, 0);
    if |c1| > 1 {
      ChainTail(links, start, c1);
      ChainTail(links, start, c2);
      ChainUnique(links, c1[1], c1[1..], c2[1..]);
      assert c1 == [c1[0]] + c1[1..] && c2 == [c2[0]] + c2[1..];
    }
  }

  /** Every suffix of a chain is the chain of its first page. */
  lemma {:induction false} ChainSuffix(links: Links, start: Url, chain: seq<Url>, i: nat)
    requires IsChain(links, start, chain) && i < |chain|
    ensures IsChain(links, chain[i], chain[i..])
    decreases i
  {
    if i > 0 {
      ChainTail(links, start, chain);
      ChainSuffix(links, chain[1], chain[1..], i - 1);
      assert chain[1..][i - 1..] == chain[i..];
    }
  }

  /** A chain never visits a page twice, so a site whose links lead back to an
      earlier page has no chain at all. The source follows such links until a
      pass fails (a fetch error, a `KeyError` or an image failure) and
      otherwise forever; `Crawl` covers no such site. */
  lemma ChainDistinct(links: Links, start: Url, chain: seq<Url>, i: nat, j: nat)
    requires IsChain(links, start, chain) && i < j < |chain|
    ensures chain[i] != chain[j]
  {
    if chain[i] == chain[j] {
      ChainSuffix(links, start, chain, i);
      ChainSuffix(links, start, chain, j);
      ChainUnique(links, chain[i], chain[i..], chain[j..]);
      assert false;
    }
  }

  /** A page that links to itself starts no chain. */
  lemma SelfLinkHasNoChain(links: Links, url: Url, chain: seq<Url>)
    requires links(url) == Some(url)
    ensures !IsChain(links, url, chain)
  {
    if IsChain(links, url, chain) {
      assert |chain| > 1;
      ChainDistinct(links, url, chain, 0, 1);
    }
  }

  /** A rank that strictly decreases along every link. */
  predicate Ranked(links: Links, rank: map<Url, nat>) {
    forall u :: u in rank && links(u).Some? ==> links(u).value in rank && rank[links(u).value] < rank[u]
  }

  /** When the links are ranked, the walk from any ranked page is a finite
      chain, no longer than the page's rank plus one. */
  function ChainBy(links: Links, rank: map<Url, nat>, url: Url): (chain: seq<Url>)
    requires Ranked(links, rank) && url in rank
    ensures IsChain(links, url, chain)
    ensures |chain| <= rank[url] + 1
    decreases rank[url]
  {
    match links(url)
    case None => [url]
    case Some(previous) =>
      var rest := ChainBy(links, rank, previous);
      assert forall i :: 1 <= i < |rest| + 1 ==> ([url] + rest)[i] == rest[i - 1];
      [url] + rest
  }

  // -------------------------------------------------------------- one page

  /** The outcome of one pass of the loop body: either it stopped before the
      post was counted, or the post was counted and its previous link (or
      the failure to read one) is known. */
  datatype Visit =
    | Stopped(fs: FileSystem, failure: Failure)
    | Counted(fs: FileSystem, previous: Result<Option<Url>>)

  /** One pass of the loop body for `url`: fetch, read title, date and images,
      save the images and the body text under the post's directory, count the
      post, then read its previous link. */
  function VisitPage(site: Site, downloads: map<Url, seq<byte>>, member: string, url: Url,
                     fs: FileSystem): Visit
  {
    if url !in site then Stopped(fs, FetchFailed(url))
    else
      var page := site[url];
      match ParseMetaContent(page.metas, TitleProperty)
      case Err(f) => Stopped(fs, f)
      case Ok(title) =>
        var dir := SaveDir(member, ParseDate(page.dateText), title);
        var written := WriteImages(fs.files, dir, ExtractImageUrls(page.images), downloads);
        var fs1 := FileSystem(MakeDirs(fs, dir).dirs, written.files);
        match written.failure
        case Some(f) => Stopped(fs1, f)
        case None => Counted(WithBlogText(fs1, page.body, dir), FindPreviousPostUrl(page.navAnchor))
  }

  /** A counted page's previous link is the one the chain follows. */
  lemma CountedFollowsLink(site: Site, downloads: map<Url, seq<byte>>, member: string, url: Url,
                           fs: FileSystem)
    requires VisitPage(site, downloads, member, url, fs).Counted?
    ensures var v := VisitPage(site, downloads, member, url, fs);
            v.previous.Ok? ==> PreviousLink(site, url) == v.previous.value
  {
  }

  /** The directory a page is saved under, when its title can be read. */
  function PostDir(member: string, page: Document): Option<Path> {
    match ParseMetaContent(page.metas, TitleProperty)
    case Ok(title) => Some(SaveDir(member, ParseDate(page.dateText), title))
    case Err(_) => None
  }

  /** A pass of the loop body never removes a directory, whether or not it
      completes. */
  lemma VisitPageKeepsDirs(site: Site, downloads: map<Url, seq<byte>>, member: string, url: Url,
                           fs: FileSystem)
    ensures fs.dirs <= VisitPage(site, downloads, member, url, fs).fs.dirs
  {
  }

  /** A counted page has been persisted: its directory exists, `blog.txt`
      holds its body text when it has a body container, and every extracted
      image URL has a file named after its basename. */
  lemma CountedPageIsPersisted(site: Site, downloads: map<Url, seq<byte>>, member: string, url: Url,
                               fs: FileSystem)
    requires VisitPage(site, downloads, member, url, fs).Counted?
    ensures url in site && PostDir(member, site[url]).Some?
    ensures var page := site[url];
            var dir := PostDir(member, page).value;
            var out := VisitPage(site, downloads, member, url, fs).fs;
            && dir in out.dirs
            && (page.body.Some? ==>
                  dir + [BlogFile] in out.files && out.files[dir + [BlogFile]] == Text(BlogText(page.body.value)))
            && (forall u :: u in ExtractImageUrls(page.images) ==> dir + [Basename(u)] in out.files)
  {
    var page := site[url];
    var title := ParseMetaContent(page.metas, TitleProperty).value;
    var dir := SaveDir(member, ParseDate(page.dateText), title);
    var urls := ExtractImageUrls(page.images);
    var written := WriteImages(fs.files, dir, urls, downloads);
    var fs1 := FileSystem(MakeDirs(fs, dir).dirs, written.files);
    var out := WithBlogText(fs1, page.body, dir);
    assert out == VisitPage(site, downloads, member, url, fs).fs;
    assert dir == dir[..|dir|];
    forall u | u in urls ensures dir + [Basename(u)] in out.files {
      var i :| 0 <= i < |urls| && urls[i] == u;
      WriteImagesCoversAll(fs.files, dir, urls, downloads, i);
    }
  }

  // ------------------------------------------------------------- the crawl

  /** The state at the end of a run: the output tree, the post counter, the
      URLs reported in the progress line in order, and the failure that ended
      the run early, if any. */
  datatype Run = Run(fs: FileSystem, postCount: nat, visited: seq<Url>, failure: Option<Failure>)

  /** The loop body as a function of the current URL and output tree. */
  type Step = (Url, FileSystem) -> Visit

  /** The loop body of `main` for a given site, image store and member. */
  function PageStep(site: Site, downloads: map<Url, seq<byte>>, member: string): Step {
    (url, fs) => VisitPage(site, downloads, member, url, fs)
  }

  /** The rest of a run that has persisted `visited` and must still process
      the pages `urls`, in order, each with `step`. */
  function RunFrom(step: Step, urls: seq<Url>, fs: FileSystem, postCount: nat, visited: seq<Url>): Run
    decreases |urls|
  {
    if urls == [] then Run(fs, postCount, visited, None)
    else
      match step(urls[0], fs)
      case Stopped(fs', f) => Run(fs', postCount, visited, Some(f))
      case Counted(fs', Err(f)) => Run(fs', postCount + 1, visited + [urls[0]], Some(f))
      case Counted(fs', Ok(_)) => RunFrom(step, urls[1..], fs', postCount + 1, visited + [urls[0]])
  }

  /** The whole run of `main` on a site whose walk from the newest post is
      `chain`: a failed first fetch stops it before any page is counted. */
  function RunOf(site: Site, downloads: map<Url, seq<byte>>, fs: FileSystem, chain: seq<Url>): Run {
    if NewestUrl !in site then Run(fs, 0, [], Some(FetchFailed(NewestUrl)))
    else RunFrom(PageStep(site, downloads, MemberName(site[NewestUrl].profileName)), chain, fs, 0, [])
  }

  /** Extending a prefix by the next element; a separate fact keeps it out of
      the loop proof of `Crawl`. */
  lemma PrefixExtend(s: seq<Url>, i: nat)
    requires i < |s|
    ensures s[..i] + [s[i]] == s[..i + 1]
  {
  }

  /** A run counts each page it reports exactly once, reports a prefix of the
      pages in order, and reports all of them when nothing failed. */
  lemma {:induction false} RunFromReports(step: Step, urls: seq<Url>, fs: FileSystem, postCount: nat,
                                          visited: seq<Url>)
    requires postCount == |visited|
    ensures var r := RunFrom(step, urls, fs, postCount, visited);
            && r.postCount == |r.visited|
            && |visited| <= |r.visited| <= |visited| + |urls|
            && r.visited == visited + urls[..|r.visited| - |visited|]
            && (r.failure.None? ==> r.visited == visited + urls)
    decreases |urls|
  {
    var r := RunFrom(step, urls, fs, postCount, visited);
    if urls == [] {
      assert visited + urls[..0] == visited;
    } else {
      var v := step(urls[0], fs);
      if v.Stopped? {
        assert visited + urls[..0] == visited;
      } else if v.previous.Err? {
        assert urls[..1] == [urls[0]];
      } else {
        RunFromReports(step, urls[1..], v.fs, postCount + 1, visited + [urls[0]]);
        var k := |r.visited| - |visited| - 1;
        assert urls[..k + 1] == [urls[0]] + urls[1..][..k];
      }
    }
  }

  /** Every page a run of `main`'s loop body reports has its directory in the
      output tree at the end of the run, later pages notwithstanding. */
  lemma {:induction false} RunFromPersists(site: Site, downloads: map<Url, seq<byte>>, member: string,
                                           urls: seq<Url>, fs: FileSystem, postCount: nat, visited: seq<Url>)
    requires forall u :: u in visited ==> u in site && PostDir(member, site[u]).Some? &&
                                          PostDir(member, site[u]).value in fs.dirs
    ensures var r := RunFrom(PageStep(site, downloads, member), urls, fs, postCount, visited);
            forall u :: u in r.visited ==> u in site && PostDir(member, site[u]).Some? &&
                                           PostDir(member, site[u]).value in r.fs.dirs
    decreases |urls|
  {
    if urls != [] {
      var v := VisitPage(site, downloads, member, urls[0], fs);
      assert PageStep(site, downloads, member)(urls[0], fs) == v;
      VisitPageKeepsDirs(site, downloads, member, urls[0], fs);
      if v.Counted? {
        CountedPageIsPersisted(site, downloads, member, urls[0], fs);
        var visited' := visited + [urls[0]];
        assert forall u :: u in visited' ==> u in visited || u == urls[0];
        if v.previous.Ok? {
          RunFromPersists(site, downloads, member, urls[1..], v.fs, postCount + 1, visited');
        }
      }
    }
  }

  /** The whole run of `main` reports the pages of the chain in order, one
      count per page, all of them unless a failure stopped it, and every page
      it reports has its directory in the output tree. */
  lemma RunOfReportsAndPersists(site: Site, downloads: map<Url, seq<byte>>, fs: FileSystem, chain: seq<Url>)
    ensures var r := RunOf(site, downloads, fs, chain);
            && r.postCount == |r.visited|
            && |r.visited| <= |chain| && r.visited == chain[..|r.visited|]
            && (r.failure.None? ==> r.visited == chain)
            && (NewestUrl in site ==>
                  var member := MemberName(site[NewestUrl].profileName);
                  forall u :: u in r.visited ==> u in site && PostDir(member, site[u]).Some? &&
                                                 PostDir(member, site[u]).value in r.fs.dirs)
  {
    if NewestUrl in site {
      var member := MemberName(site[NewestUrl].profileName);
      RunFromReports(PageStep(site, downloads, member), chain, fs, 0, []);
      RunFromPersists(site, downloads, member, chain, fs, 0, []);
    }
  }

  /** One pass of `main`'s loop body for `url`, up to reading the previous
      link of the page: fetch it, read its title, date and images, save the
      images and the body text, then read the link. */
  method ProcessPage(site: Site, downloads: map<Url, seq<byte>>, member: string, url: Url,
                     fs: FileSystem) returns (v: Visit)
    ensures v == VisitPage(site, downloads, member, url, fs)
  {
    if url !in site {
      return Stopped(fs, FetchFailed(url));
    }
    var page := site[url];
    var title := ParseMetaContent(page.metas, TitleProperty);
    if title.Err? {
      return Stopped(fs, title.failure);
    }
    var date := ParseDate(page.dateText);
    var images := ExtractImageUrls(page.images);
    var dir := SaveDir(member, date, title.value);
    var fs', imageFailure := SaveImages(fs, images, dir, downloads);
    if imageFailure.Some? {
      return Stopped(fs', imageFailure.value);
    }
    fs' := SaveBlogText(fs', page.body, dir);
    v := Counted(fs', FindPreviousPostUrl(page.navAnchor));
  }

  /** `main`'s loop: while there is a current URL, process its page, count it,
      report it, and move to its previous link. The ghost `chain` is the finite
      walk from the newest post that the site must have for the loop to end. */
  method Crawl(site: Site, downloads: map<Url, seq<byte>>, fs0: FileSystem, ghost chain: seq<Url>)
    returns (fs: FileSystem, postCount: nat, visited: seq<Url>, failure: Option<Failure>)
    requires IsChain(SiteLinks(site), NewestUrl, chain)
    ensures postCount == |visited|
    ensures |visited| <= |chain| && visited == chain[..|visited|]
    ensures failure.None? ==> visited == chain && postCount == |chain|
    ensures Run(fs, postCount, visited, failure) == RunOf(site, downloads, fs0, chain)
  {
    fs, postCount, visited, failure := fs0, 0, [], None;
    if NewestUrl !in site {
      failure := Some(FetchFailed(NewestUrl));
      return;
    }
    var member := MemberName(site[NewestUrl].profileName);
    ghost var step := PageStep(site, downloads, member);
    ghost var run := RunOf(site, downloads, fs0, chain);
    var current: Option<Url> := Some(NewestUrl);
    while current.Some?
      invariant postCount == |visited| && |visited| <= |chain| && visited == chain[..|visited|]
      invariant current.Some? ==> |visited| < |chain| && current.value == chain[|visited|] &&
                                  run == RunFrom(step, chain[|visited|..], fs, postCount, visited)
      invariant current.None? ==> visited == chain && run == Run(fs, postCount, visited, None)
      decreases |chain| - |visited|
    {
      var url := current.value;
      ghost var i := |visited|;
      assert chain[i..][0] == url && chain[i..][1..] == chain[i + 1..];
      var v := ProcessPage(site, downloads, member, url, fs);
      assert step(url, fs) == v;
      if v.Stopped? {
        fs, failure := v.fs, Some(v.failure);
        return;
      }
      CountedFollowsLink(site, downloads, member, url, fs);
      ChainLink(SiteLinks(site), NewestUrl, chain, i);
      fs, postCount, visited := v.fs, postCount + 1, visited + [url];
      PrefixExtend(chain, i);
      if v.previous.Err? {
        failure := Some(v.previous.failure);
        return;
      }
      current := v.previous.value;
    }
  }
}
