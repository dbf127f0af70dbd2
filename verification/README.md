# Nogizaka46 blog scraper, modelled in Dafny

`scraping_blog.py` downloads one member's blog. It starts at a hard-coded
newest post and follows each page's "前の記事" (previous article) link until a
page has none. For every post it creates
`nogizaka/<member>/【<date>】<title>`, saves every site-relative image there
under its basename, and writes the body text to `blog.txt`. It counts each
post as it goes.

This project models that logic. HTTP and HTML parsing are treated as given
inputs:

- A page is a `Document`: the tags the scraper looks up, with their texts and
  attribute maps.
- The site is a map from URL to `Document`. A URL that is not in the map fails
  to fetch.
- Image downloads are a map from URL to bytes.
- The output tree is a value `FileSystem`: the set of directories that exist,
  plus a map from path (a sequence of segments) to file content.

Modules, one per file:

- `Outcomes` (`outcomes.dfy`): `Option`, `Result`, and the failures that abort
  the script (a fetch error, a `KeyError` on a missing attribute, a failed
  image download, an image path whose basename is empty, `.` or `..` and so
  names a directory).
- `Strings` (`strings.dfy`): the parts of Python's string library the script
  uses, which are `str.strip`, single-character `str.replace`, `'\n'.join`
  and `os.path.basename`.
- `PageParser` (`parser.dfy`): the field extractors `parse_meta_content`,
  `parse_date`, `extract_image_urls` and `find_previous_post_url`, plus the
  author-name normalisation.
- `ArtifactWriter` (`writer.dfy`):
  - the save directory;
  - `os.makedirs`;
  - `save_images`, whose loop is a method proved against the function
    `WriteImages`;
  - `save_blog_text`, whose fallback chain is a method proved against
    `WithBlogText`.
- `Crawler` (`crawler.dfy`):
  - `main`'s `while current_url` loop, as the method `Crawl`;
  - `RunOf`, the specification `Crawl` is proved against;
  - the walk of previous-post links (`IsChain`), which must be finite for the
    loop to end.

## Model

| member | source | states |
|---|---|---|
| Strings.StripIsSlice | scraping_blog.py:61 | `strip` yields the slice of the text between a whitespace prefix and a whitespace suffix; the result neither starts nor ends with whitespace |
| Strings.TrimStartSpec | scraping_blog.py:61 | leading-whitespace removal leaves a suffix of the text; everything removed is whitespace; the suffix does not start with whitespace |
| Strings.TrimEndSpec | scraping_blog.py:61 | trailing-whitespace removal leaves a prefix of the text; everything removed is whitespace; the prefix does not end with whitespace |
| Strings.StripTrimmed | scraping_blog.py:61 | a text with no whitespace at either end is its own strip |
| Strings.StripIdempotent | scraping_blog.py:61 | stripping twice is stripping once |
| Strings.ReplaceCharSpec | scraping_blog.py:61 | a single-character replace keeps the length, replaces every occurrence, and keeps every other character in place |
| Strings.KeptPositions | scraping_blog.py:152 | lists, in increasing order, exactly the positions of a text that do not hold a given character |
| Strings.RemoveCharSpec | scraping_blog.py:152 | replacing `' '` by `''` removes every space; the k-th character left is the character at the k-th kept position, so the other characters keep their order and multiplicity |
| Strings.JoinLines | scraping_blog.py:112 | a newline join of n blocks has at least n-1 characters, and it is empty exactly when there are no blocks or a single empty one |
| Strings.BasenameIsLastSegment | scraping_blog.py:93 | the basename is the suffix after the last '/' (the whole text if there is none) and contains no '/' |
| PageParser.FindMetaSpec | scraping_blog.py:45 | the lookup returns the position of the first meta tag with the property, or the tag count when there is none |
| PageParser.ParseMetaContentFirstMatch | scraping_blog.py:44-46 | with no tag for the property the content is `''`; otherwise the first such tag decides: its `content`, or a `KeyError` when it has none |
| PageParser.NormalizeDateChars | scraping_blog.py:61 | the three chained replacements act as one per-character map (`:`→`：`, `.`→`-`, space→`_`) on the stripped text |
| PageParser.ParseDateNormalizes | scraping_blog.py:58-61 | an absent date tag gives `''`; a present one gives its stripped text, mapped character by character, with the same length; no ASCII `:`, `.` or space is left |
| PageParser.NormalizeDateIdempotent | scraping_blog.py:61 | normalising a normalised date changes nothing |
| PageParser.KeptImages | scraping_blog.py:75-76 | lists, in increasing order, exactly the positions of the `img` tags whose `src` is present, not empty and starts with `/` |
| PageParser.ExtractImageUrlsKeepsOrder | scraping_blog.py:73-77 | the k-th extracted URL is the origin followed by the `src` of the k-th kept tag; tag order is kept, other tags are dropped, and there are no more URLs than tags |
| PageParser.FindPreviousPostUrlSpec | scraping_blog.py:131-140 | there is a previous URL iff the anchor is present, its label is present, its stripped label is `前の記事`, and it has an `href`. The URL is the origin followed by the `href`. An accepted anchor without `href` is a `KeyError`. Otherwise there is none |
| PageParser.MemberNameSpec | scraping_blog.py:151-152 | a missing profile tag gives `Unknown`; otherwise the name contains no space and is the stripped profile text's other characters in their order (the k-th at the k-th non-space position) |
| ArtifactWriter.SaveDirLayout | scraping_blog.py:162 | the save directory is `nogizaka` / member / `【date】title`; the member segment is dropped when the name is empty, as `os.path.join` does, and no segment is empty |
| ArtifactWriter.MakeDirsAdds | scraping_blog.py:89 | `makedirs` keeps every file and directory and adds exactly the directory and its parents |
| ArtifactWriter.MakeDirsIdempotent | scraping_blog.py:89 | with `exist_ok=True`, creating an existing directory changes nothing |
| ArtifactWriter.SaveImages | scraping_blog.py:89-95 | the loop creates the directory, writes each image in order, and stops at the first failing download or at a basename that is empty, `.` or `..` (a path that names a directory); its final tree and failure are `WriteImages`'s |
| ArtifactWriter.WriteImagesSucceeds | scraping_blog.py:91-95 | the image loop finishes without failure iff every URL downloads and has a basename other than empty, `.` and `..` |
| ArtifactWriter.WriteImagesFrame | scraping_blog.py:91-95 | a path that is not `dir` / basename of some URL is untouched by the image loop |
| ArtifactWriter.WriteImagesCoversAll | scraping_blog.py:91-95 | after a successful image loop every URL has a file named after its basename |
| ArtifactWriter.WriteImagesLastWins | scraping_blog.py:91-95 | after a successful loop, the file for a basename holds the bytes of the last URL with that basename |
| ArtifactWriter.FirstNonEmpty | scraping_blog.py:112-116 | the result is the first non-empty candidate, and it is empty iff all candidates are |
| ArtifactWriter.BlogTextEmpty | scraping_blog.py:112-116 | the body text is empty exactly when each of the three joins has no block or a single empty one; two empty `dir=auto` blocks already give `"\n"` |
| ArtifactWriter.BlogTextFromParagraphs | scraping_blog.py:112-116 | with no `div` blocks at all, the text is the newline join of the paragraphs |
| ArtifactWriter.WithBlogTextWrites | scraping_blog.py:107-120 | without the container nothing changes; with it, `blog.txt` holds the body text (even an empty one); no other file and no directory changes |
| ArtifactWriter.SaveBlogText | scraping_blog.py:107-120 | the step-by-step fallback produces exactly the tree `WithBlogText` describes |
| Crawler.ChainUnique | scraping_blog.py:156-169 | the walk of previous-post links from a page is determined by that page |
| Crawler.ChainSuffix | scraping_blog.py:156-169 | every suffix of a chain is the chain of its first page |
| Crawler.ChainDistinct | scraping_blog.py:156-169 | a chain never visits a page twice |
| Crawler.SelfLinkHasNoChain | scraping_blog.py:156-169 | a page whose previous link is itself starts no finite walk of links, so `Crawl` does not cover a site with such a page |
| Crawler.ChainBy | scraping_blog.py:156-169 | when a rank strictly decreases along every link, the walk from a ranked page is a chain no longer than its rank plus one |
| Crawler.CountedFollowsLink | scraping_blog.py:157-169 | a counted page's previous link, when it can be read, is the link the chain follows |
| Crawler.VisitPageKeepsDirs | scraping_blog.py:157-164 | one loop pass never removes a directory |
| Crawler.CountedPageIsPersisted | scraping_blog.py:157-166 | a counted page has its directory, its `blog.txt` with its body text when the container exists, and a file for every extracted image |
| Crawler.RunFromReports | scraping_blog.py:156-169 | the rest of a run counts each page it reports once and reports a prefix of its pages in order; it reports all of them when nothing fails |
| Crawler.RunFromPersists | scraping_blog.py:156-169 | every page the rest of a run reports has its directory at the end of the run |
| Crawler.RunOfReportsAndPersists | scraping_blog.py:148-170 | `main` resolves the member once. The count is the number of pages reported, and they are a prefix of the chain in order. Without a failure they are the whole chain. Every reported page's directory exists at the end |
| Crawler.ProcessPage | scraping_blog.py:157-169 | one loop pass (fetch, title, date, images, directory, image and text saving, previous link) yields what `VisitPage` describes |
| Crawler.Crawl | scraping_blog.py:148-172 | given a finite chain from the newest post, the loop visits a prefix of it in order and counts one per page. Without a failure it visits the whole chain, ending after the first page with no previous link. Its final state is `RunOf`'s |

## Left out

- HTTP: `requests.get`, `raise_for_status` and the `HEADERS` user agent. A page fetch is a lookup in the site map, where a missing URL is an HTTP or transport error. An image download is a lookup in the download map. The image request does not check its status, so the bytes of an error page are just the map's value.
- HTML parsing: BeautifulSoup's `find`/`find_all` and `get_text` are not modelled. A `Document` holds the tags they locate, with their texts and attributes.
- `os.makedirs` and `open` never fail in the model, except that an image whose basename is empty, `.` or `..` names a directory and stops the run. An image path that names a directory created before the run is not detected. File encodings (UTF-8 for `blog.txt`, raw bytes for images) are not modelled. Contents are kept as text or bytes.
- `os.path.join` and `os.path.basename` are modelled for POSIX paths. A member name or title containing '/' stays one segment in the model, whereas the file system would see nested directories. A member name starting with '/' would make `os.path.join` drop the root folder, and the model does not do that.
- `blog.txt` and an image whose basename is `blog.txt` share one path; the model keeps whichever is written last, as the file system would.
- `time.sleep(0.1)` and the `print` progress and summary lines. The list of visited URLs in `Crawl` stands for the progress lines, and its length is the summary count.
- `Crawl` requires a finite chain of links from the newest post, so it covers no site whose links loop back to an earlier page (`SelfLinkHasNoChain`, `ChainDistinct`). On such a site the script follows the loop until a pass fails (a fetch error, a `KeyError` or an image failure), and otherwise runs forever. Neither outcome is modelled as a run, although the first one terminates.
- `while current_url` tests whether a string is truthy, but `find_previous_post_url` only ever returns `None` or a non-empty URL. The model therefore uses an `Option`.
- Python's `str.isspace` is modelled as a fixed set of code points: tab to carriage return, the information separators, space, U+0085, U+00A0, U+1680, U+2000–U+200A, U+2028, U+2029, U+202F, U+205F and U+3000.
