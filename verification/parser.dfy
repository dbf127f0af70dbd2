/** The per-page field extractors. HTML parsing itself is not modelled: a
    `Document` holds what the parser's lookups locate on one diary page
    (the tags, their texts and their attributes), and every extractor below is
    the string and list logic the scraper applies to those. */
module PageParser {
  import opened Outcomes
  import opened Strings

  type Url = string

  /** The attributes of one located tag, by name. */
  type Attributes = map<string, string>

  /** The site origin prefixed to every site-relative link. */
  const Origin := "https://www.nogizaka46.com"
  /** The metadata property that holds a post's title. */
  const TitleProperty := "og:title"
  /** The navigation label of a link to the previous entry ("previous article"). */
  const PreviousLabel := "前の記事"
  /** The author name used when the profile-name element is absent. */
  const UnknownMember := "Unknown"

  /** The body container (`div.bd--edit`): the texts of its `div dir="auto"`
      descendants, of all its `div` descendants, and of its `p` descendants. */
  datatype Body = Body(autoDivs: seq<string>, divs: seq<string>, paragraphs: seq<string>)

  /** The navigation anchor (`a.bd--hn__a`) and the text of its label
      element (`p.bd--hn__tx`), when the label is there. */
  datatype NavAnchor = NavAnchor(attributes: Attributes, labelText: Option<string>)

  /** One parsed diary page, as its lookups see it. */
  datatype Document = Document(
    metas: seq<Attributes>,         // every `meta` tag, in document order
    dateText: Option<string>,       // the text of the date element `p.bd--hd__date`
    images: seq<Attributes>,        // every `img` tag, in document order
    body: Option<Body>,             // the body container
    navAnchor: Option<NavAnchor>,   // the first navigation anchor
    profileName: Option<string>)    // the text of the profile-name element `p.bd--prof__name`

  // ---------------------------------------------------------------- metadata

  predicate HasProperty(meta: Attributes, property: string) {
    "property" in meta && meta["property"] == property
  }

  /** The position of the first `meta` tag whose `property` is `property`,
      or `|metas|` when there is none. */
  function FindMeta(metas: seq<Attributes>, property: string): (k: nat)
    ensures k <= |metas|
  {
    if metas == [] then 0
    else if HasProperty(metas[0], property) then 0
    else 1 + FindMeta(metas[1..], property)
  }

  /** `FindMeta` is a position of `metas` or just past its end; the tag there
      has the property and none before it has. */
  lemma {:induction false} FindMetaSpec(metas: seq<Attributes>, property: string)
    ensures var k := FindMeta(metas, property);
            && (k < |metas| ==> HasProperty(metas[k], property))
            && forall j :: 0 <= j < k ==> !HasProperty(metas[j], property)
  {
    if metas != [] && !HasProperty(metas[0], property) {
      FindMetaSpec(metas[1..], property);
    }
  }

  /** The `content` attribute of the first `meta` tag with the given property;
      the empty string when there is no such tag, and a missing-attribute
      failure when that tag has no `content`. */
  function ParseMetaContent(metas: seq<Attributes>, property: string): Result<string> {
    var k := FindMeta(metas, property);
    if k == |metas| then Ok("")
    else if "content" in metas[k] then Ok(metas[k]["content"])
    else Err(MissingAttribute("meta", "content"))
  }

  /** The first `meta` tag with the property decides: its `content`, or a
      missing-attribute failure; with no such tag the content is empty. */
  lemma ParseMetaContentFirstMatch(metas: seq<Attributes>, property: string)
    ensures (forall i :: 0 <= i < |metas| ==> !HasProperty(metas[i], property)) ==>
              ParseMetaContent(metas, property) == Ok("")
    ensures forall i :: 0 <= i < |metas| && HasProperty(metas[i], property) ==>
              (forall j :: 0 <= j < i ==> !HasProperty(metas[j], property)) ==>
              ParseMetaContent(metas, property) ==
                if "content" in metas[i] then Ok(metas[i]["content"])
                else Err(MissingAttribute("meta", "content"))
  {
    FindMetaSpec(metas, property);
  }

  // -------------------------------------------------------------------- date

  /** How the date normalisation treats one character. */
  function DateChar(c: char): char {
    if c == ':' then '\U{FF1A}'      // full-width colon
    else if c == '.' then '-'
    else if c == ' ' then '_'
    else c
  }

  /** Strip, then replace ':' with a full-width colon, '.' with '-' and
      ' ' with '_', one whole-string replacement after another. */
  function NormalizeDate(text: string): string {
    ReplaceChar(ReplaceChar(ReplaceChar(Strip(text), ':', '\U{FF1A}'), '.', '-'), ' ', '_')
  }

  /** Three whole-string replacements act as one per-character map. */
  lemma NormalizeDateChars(text: string)
    ensures |NormalizeDate(text)| == |Strip(text)|
    ensures forall k :: 0 <= k < |Strip(text)| ==> NormalizeDate(text)[k] == DateChar(Strip(text)[k])
  {
    var s := Strip(text);
    ReplaceCharSpec(s, ':', '\U{FF1A}');
    var s1 := ReplaceChar(s, ':', '\U{FF1A}');
    ReplaceCharSpec(s1, '.', '-');
    ReplaceCharSpec(ReplaceChar(s1, '.', '-'), ' ', '_');
  }

  /** The date token of a page: empty when the date element is absent,
      otherwise the normalised date text. */
  function ParseDate(dateText: Option<string>): string {
    match dateText
    case None => ""
    case Some(text) => NormalizeDate(text)
  }

  /** A present date becomes its stripped text with every character mapped by
      `DateChar`, so no ASCII colon, period or space is left in it. */
  lemma ParseDateNormalizes(dateText: Option<string>)
    ensures var r := ParseDate(dateText);
            && (dateText.None? ==> r == "")
            && (dateText.Some? ==>
                  |r| == |Strip(dateText.value)| &&
                  forall k :: 0 <= k < |r| ==> r[k] == DateChar(Strip(dateText.value)[k]))
            && ':' !in r && '.' !in r && ' ' !in r
  {
    if dateText.Some? {
      NormalizeDateChars(dateText.value);
    }
  }

  /** Replacing a character that does not occur changes nothing. */
  lemma ReplaceAbsent(s: string, from: char, to: char)
    requires from !in s
    ensures ReplaceChar(s, from, to) == s
  {
    var r := ReplaceChar(s, from, to);
    ReplaceCharSpec(s, from, to);
    assert forall k :: 0 <= k < |s| ==> r[k] == s[k];
  }

  /** Normalising a date token again changes nothing. */
  lemma NormalizeDateIdempotent(text: string)
    ensures NormalizeDate(NormalizeDate(text)) == NormalizeDate(text)
  {
    var r := NormalizeDate(text);
    var s := Strip(text);
    ParseDateNormalizes(Some(text));
    StripIsSlice(text);
    assert IsTrimmed(r) by {
      if r != [] {
        assert r[0] == DateChar(s[0]) && r[|r| - 1] == DateChar(s[|s| - 1]);
      }
    }
    StripTrimmed(r);
    ReplaceAbsent(r, ':', '\U{FF1A}');
    ReplaceAbsent(r, '.', '-');
    ReplaceAbsent(r, ' ', '_');
  }

  // ------------------------------------------------------------------ images

  /** An `img` tag kept by the image filter: its `src` is there, is not empty
      and starts with '/'. */
  predicate IsSiteRelative(image: Attributes) {
    "src" in image && image["src"] != "" && image["src"][0] == '/'
  }

  /** The absolute URLs of the site-relative images, in document order. */
  function ExtractImageUrls(images: seq<Attributes>): seq<Url> {
    if images == [] then []
    else
      var last := images[|images| - 1];
      ExtractImageUrls(images[..|images| - 1]) +
      (if IsSiteRelative(last) then [Origin + last["src"]] else [])
  }

  /** The positions of the site-relative images: exactly those positions,
      in increasing order. */
  function KeptImages(images: seq<Attributes>): (idx: seq<nat>)
    ensures forall k :: 0 <= k < |idx| ==> idx[k] < |images| && IsSiteRelative(images[idx[k]])
    ensures forall k, l :: 0 <= k < l < |idx| ==> idx[k] < idx[l]
    ensures forall i :: 0 <= i < |images| && IsSiteRelative(images[i]) ==> i in idx
  {
    if images == [] then []
    else
      var n := |images| - 1;
      var front := KeptImages(images[..n]);
      assert forall i :: 0 <= i < n ==> images[..n][i] == images[i];
      front + (if IsSiteRelative(images[n]) then [n] else [])
  }

  /** The k-th extracted URL is the origin followed by the `src` of the k-th
      site-relative image: the filter keeps exactly those, in order, so there
      are no more URLs than images and each is an absolute URL on the site. */
  lemma {:induction false} ExtractImageUrlsKeepsOrder(images: seq<Attributes>)
    ensures |ExtractImageUrls(images)| == |KeptImages(images)| <= |images|
    ensures forall k :: 0 <= k < |ExtractImageUrls(images)| ==>
              var u := ExtractImageUrls(images)[k];
              |Origin| < |u| && u[..|Origin| + 1] == Origin + "/"
    ensures forall k :: 0 <= k < |KeptImages(images)| ==>
              ExtractImageUrls(images)[k] == Origin + images[KeptImages(images)[k]]["src"]
  {
    if images != [] {
      var n := |images| - 1;
      ExtractImageUrlsKeepsOrder(images[..n]);
      assert forall i :: 0 <= i < n ==> images[..n][i] == images[i];
    }
  }

  // ---------------------------------------------------------- previous post

  /** The absolute URL of the previous post, read from the navigation anchor
      and its label. */
  function FindPreviousPostUrl(anchor: Option<NavAnchor>): Result<Option<Url>> {
    if anchor.None? then Ok(None)
    else if anchor.value.labelText.None? || Strip(anchor.value.labelText.value) != PreviousLabel then Ok(None)
    else if "href" !in anchor.value.attributes then Err(MissingAttribute("a", "href"))
    else Ok(Some(Origin + anchor.value.attributes["href"]))
  }

  /** There is a previous post exactly when the navigation anchor is there,
      its label is there and the stripped label reads "previous article"; it
      is then the origin followed by the anchor's `href`, and an anchor
      without `href` is a missing-attribute failure. In every other case (the
      "next article" anchor, in particular) there is none. */
  lemma FindPreviousPostUrlSpec(anchor: Option<NavAnchor>)
    ensures var r := FindPreviousPostUrl(anchor);
            && (r == Ok(None) <==>
                  anchor.None? || anchor.value.labelText.None? ||
                  Strip(anchor.value.labelText.value) != PreviousLabel)
            && (r.Ok? && r.value.Some? <==>
                  anchor.Some? && anchor.value.labelText.Some? &&
                  Strip(anchor.value.labelText.value) == PreviousLabel && "href" in anchor.value.attributes)
            && (r.Ok? && r.value.Some? ==> r.value.value == Origin + anchor.value.attributes["href"])
            && (r.Err? ==> r.failure == MissingAttribute("a", "href"))
  {
  }

  // ------------------------------------------------------------------ author

  /** The author's name: the stripped profile text with every ASCII space
      removed (other characters kept), or "Unknown" when the profile-name
      element is absent. */
  function MemberName(profileName: Option<string>): string {
    match profileName
    case None => UnknownMember
    case Some(text) => RemoveChar(Strip(text), ' ')
  }

  /** Without a profile the name is "Unknown"; with one, the name has no ASCII
      space and is the stripped profile text's other characters, in their
      order (so each occurs as often as it does there). */
  lemma MemberNameSpec(profileName: Option<string>)
    ensures var r := MemberName(profileName);
            && (profileName.None? ==> r == UnknownMember)
            && ' ' !in r
            && (profileName.Some? ==>
                  var t := Strip(profileName.value);
                  && |r| == |KeptPositions(t, ' ')| <= |t|
                  && (forall k :: 0 <= k < |r| ==> r[k] == t[KeptPositions(t, ' ')[k]])
                  && forall c :: c != ' ' ==> multiset(r)[c] == multiset(t)[c])
  {
    if profileName.Some? {
      RemoveCharSpec(Strip(profileName.value), ' ');
    }
  }
}
