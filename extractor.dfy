/**
 * The record extractor run inside the page by `scrapeImdb`: for every list
 * item, in document order, clean five fields, keep the item only if it is
 * complete, and number it by its 1-based position among all items.
 *
 * A list item is given by what the five `querySelector` calls find in it;
 * a missing element or attribute is `None`.
 */
module Extractor {

  import opened Options
  import opened JsString

  /** The origin prefixed to relative detail-page links. */
  const ImdbBaseUrl: string := "https://www.imdb.com"
  /** The placeholder for a poster or link that could not be found. */
  const Missing: string := "N/A"

  /** An `.ipc-image` element and its `src` attribute. */
  datatype Image = Image(src: Option<string>)
  /** An `.ipc-title-link-wrapper` element and its `href` attribute. */
  datatype Anchor = Anchor(href: Option<string>)

  /** One `li` of the chart list: the text content of the title, year and
      rating elements and the poster and link elements, each if present. */
  datatype ListItem = ListItem(
    titleText: Option<string>,
    yearText: Option<string>,
    ratingText: Option<string>,
    image: Option<Image>,
    anchor: Option<Anchor>)

  /** One output object. `poster` is `None` where the source yields `null`:
      an `.ipc-image` element without a `src` attribute. */
  datatype MovieRecord = MovieRecord(
    index: nat,
    name: string,
    year: string,
    rating: string,
    poster: Option<string>,
    link: string)

  // ---------------------------------------------------------------------
  // Field cleaning

  /** The regular expression `^\d+\.`: one or more digits, then a dot, at
      the start of the text. */
  ghost predicate HasOrdinalPrefix(s: string)
  {
    exists k :: 0 < k < |s| && All(s[..k], IsDigit) && s[k] == '.'
  }

  /** The title's `replace`: a leading run of digits, a dot and the
      whitespace after them are removed; any other text is left as is. */
  function StripOrdinal(s: string): string
  {
    var d := Span(s, IsDigit);
    if 0 < d < |s| && s[d] == '.' then TrimStart(s[d + 1..]) else s
  }

  /** The title: ordinal prefix removed, then trimmed. */
  function CleanTitle(text: string): (r: string)
    ensures IsTrimmed(r)
  {
    Trim(StripOrdinal(text))
  }

  /** The rating: the text before the first `(`, trimmed. */
  function CleanRating(text: string): (r: string)
    ensures '(' !in r
  {
    var before := BeforeFirst(text, '(');
    var r := Trim(before);
    assert '(' in r ==> '(' in before;
    r
  }

  /** The link: the base URL followed by the `href` up to its first `?`, or
      the placeholder when the `href` is missing or empty. */
  function ResolveLink(href: Option<string>): (r: string)
    ensures r == Missing <==> href == None || href.value == ""
    ensures r != Missing ==> ImdbBaseUrl <= r && '?' !in r
    ensures r != Missing ==> r[|ImdbBaseUrl|..] == BeforeFirst(href.value, '?')
  {
    if href.Some? && href.value != "" then
      var r := ImdbBaseUrl + BeforeFirst(href.value, '?');
      assert r[..|ImdbBaseUrl|] == ImdbBaseUrl;
      assert r[0] == 'h' && Missing[0] == 'N';
      assert forall i :: 0 <= i < |ImdbBaseUrl| ==> r[i] != '?';
      r
    else
      Missing
  }

  /** The regular expression replaces exactly a leading run of digits, a
      dot and the whitespace after it. */
  lemma StripOrdinalOfPrefixed(n: string, t: string)
    requires n != [] && All(n, IsDigit)
    ensures StripOrdinal(n + "." + t) == TrimStart(t)
  {
    var s := n + "." + t;
    assert s[|n|] == '.';
    SpanExact(s, IsDigit, |n|);
    assert s[|n| + 1..] == t;
  }

  /** The text changes exactly when it starts with an ordinal prefix. */
  lemma StripOrdinalChangesIffPrefixed(s: string)
    ensures StripOrdinal(s) != s <==> HasOrdinalPrefix(s)
  {
    var d := Span(s, IsDigit);
    if HasOrdinalPrefix(s) {
      var k :| 0 < k < |s| && All(s[..k], IsDigit) && s[k] == '.';
      assert forall i :: 0 <= i < k ==> s[..k][i] == s[i];
      SpanExact(s, IsDigit, k);
      assert |StripOrdinal(s)| < |s|;
    } else {
      assert All(s[..d], IsDigit);
    }
  }

  /** `"1. The Shawshank Redemption"` style titles lose their rank. */
  lemma CleanTitleDropsOrdinal(n: string, t: string)
    requires n != [] && All(n, IsDigit)
    ensures CleanTitle(n + "." + t) == Trim(t)
  {
    StripOrdinalOfPrefixed(n, t);
    TrimAfterTrimStart(t);
  }

  /** A title without an ordinal prefix is only trimmed. */
  lemma CleanTitleWithoutOrdinal(s: string)
    requires !HasOrdinalPrefix(s)
    ensures CleanTitle(s) == Trim(s)
  {
    StripOrdinalChangesIffPrefixed(s);
  }

  /** `Trim` of text with one leading space. */
  lemma TrimSingleSpace(r: string)
    requires IsTrimmed(r)
    ensures Trim(" " + r) == r
  {
    assert " " + r == " " + r + "";
    TrimUnique(" ", r, "");
  }

  /** A rank, a dot, a space and a trimmed name give the name. */
  lemma CleanTitleOfRanked(n: string, name: string)
    requires n != [] && All(n, IsDigit) && IsTrimmed(name)
    ensures CleanTitle(n + ". " + name) == name
  {
    assert n + ". " + name == n + "." + (" " + name);
    CleanTitleDropsOrdinal(n, " " + name);
    TrimSingleSpace(name);
  }

  lemma ShawshankIsTrimmed(name: string)
    requires name == "The Shawshank Redemption"
    ensures IsTrimmed(name)
  {
  }

  lemma ShawshankTitle(name: string)
    requires name == "The Shawshank Redemption"
    ensures CleanTitle("1. " + name) == name
  {
    ShawshankIsTrimmed(name);
    assert All("1", IsDigit);
    CleanTitleOfRanked("1", name);
    assert "1" + ". " == "1. ";
  }

  /** The rating is the trimmed text before the first `(`. */
  lemma CleanRatingBeforeParen(v: string, w: string)
    requires '(' !in v
    ensures CleanRating(v + "(" + w) == Trim(v)
  {
    BeforeFirstAt(v, '(', w);
  }

  /** A rating without `(` is only trimmed. */
  lemma CleanRatingWithoutParen(s: string)
    requires '(' !in s
    ensures CleanRating(s) == Trim(s)
  {
    BeforeFirstAbsent(s, '(');
  }

  lemma CleanRatingOfValueAndVotes(v: string, votes: string)
    requires IsTrimmed(v) && '(' !in v
    ensures CleanRating(v + " (" + votes) == v
  {
    assert v + " (" + votes == (v + " ") + "(" + votes;
    CleanRatingBeforeParen(v + " ", votes);
    assert v + " " == [] + v + " ";
    TrimUnique([], v, " ");
  }

  lemma RatingWithVoteCount(votes: string)
    ensures CleanRating("9.3 (" + votes) == "9.3"
  {
    assert IsTrimmed("9.3") && '(' !in "9.3";
    CleanRatingOfValueAndVotes("9.3", votes);
    assert "9.3" + " (" == "9.3 (";
  }

  /** A query string is cut off the link. */
  lemma ResolveLinkDropsQuery(p: string, q: string)
    requires '?' !in p
    ensures ResolveLink(Some(p + "?" + q)) == ImdbBaseUrl + p
  {
    BeforeFirstAt(p, '?', q);
  }

  /** A non-empty link without a query string is only prefixed. */
  lemma ResolveLinkWithoutQuery(p: string)
    requires '?' !in p && p != ""
    ensures ResolveLink(Some(p)) == ImdbBaseUrl + p
  {
    BeforeFirstAbsent(p, '?');
  }

  lemma ShawshankUrl(path: string)
    requires path == "/title/tt0111161/"
    ensures '?' !in path
    ensures ImdbBaseUrl + path == "https://www.imdb.com/title/tt0111161/"
  {
  }

  lemma ShawshankLink(path: string, query: string)
    requires path == "/title/tt0111161/"
    ensures ResolveLink(Some(path + "?" + query)) == "https://www.imdb.com/title/tt0111161/"
    ensures ResolveLink(Some(path)) == "https://www.imdb.com/title/tt0111161/"
  {
    ShawshankUrl(path);
    ResolveLinkDropsQuery(path, query);
    ResolveLinkWithoutQuery(path);
  }

  function NameOf(item: ListItem): string
  {
    match item.titleText
    case None => ""
    case Some(t) => CleanTitle(t)
  }

  function YearOf(item: ListItem): string
  {
    match item.yearText
    case None => ""
    case Some(t) => Trim(t)
  }

  function RatingOf(item: ListItem): string
  {
    match item.ratingText
    case None => ""
    case Some(t) => CleanRating(t)
  }

  function PosterOf(item: ListItem): Option<string>
  {
    match item.image
    case None => Some(Missing)
    case Some(img) => img.src
  }

  function HrefOf(item: ListItem): Option<string>
  {
    match item.anchor
    case None => None
    case Some(a) => a.href
  }

  function LinkOf(item: ListItem): string
  {
    ResolveLink(HrefOf(item))
  }

  /** What each field becomes when its element or attribute is missing:
      empty text, a `"N/A"` poster and a `"N/A"` link. */
  lemma MissingElementDefaults(item: ListItem)
    ensures item.titleText == None ==> NameOf(item) == ""
    ensures item.yearText == None ==> YearOf(item) == ""
    ensures item.ratingText == None ==> RatingOf(item) == ""
    ensures item.image == None ==> PosterOf(item) == Some(Missing)
    ensures HrefOf(item) == None ==> LinkOf(item) == Missing
  {
  }

  // ---------------------------------------------------------------------
  // Per-item record and validity filter

  /** The record for the item at 1-based position `index`, if it passes the
      validity filter. */
  function ExtractItem(item: ListItem, index: nat): (r: Option<MovieRecord>)
    ensures r.Some? <==>
      NameOf(item) != "" && YearOf(item) != "" && RatingOf(item) != ""
      && HrefOf(item).Some? && HrefOf(item).value != ""
    ensures r.Some? ==> r.value.index == index && r.value.poster == PosterOf(item)
    ensures r.Some? ==> r.value.name == NameOf(item) && r.value.year == YearOf(item)
                        && r.value.rating == RatingOf(item) && r.value.link == LinkOf(item)
  {
    var name, year, rating := NameOf(item), YearOf(item), RatingOf(item);
    var link := LinkOf(item);
    if name != "" && year != "" && rating != "" && link != Missing then
      Some(MovieRecord(index, name, year, rating, PosterOf(item), link))
    else
      None
  }

  /** The poster never decides whether an item is kept. */
  lemma PosterDoesNotFilter(item: ListItem, image: Option<Image>, index: nat)
    ensures ExtractItem(item.(image := image), index).Some? == ExtractItem(item, index).Some?
  {
  }

  // ---------------------------------------------------------------------
  // The whole list

  /** What the `forEach` callback decides for each item, in document order:
      `Some` record for an item that passes the filter. */
  function Candidates(items: seq<ListItem>): seq<Option<MovieRecord>>
  {
    seq(|items|, p requires 0 <= p < |items| => ExtractItem(items[p], p + 1))
  }

  /** Candidate p is the `ExtractItem` record of item p, numbered p + 1. */
  lemma CandidatesAt(items: seq<ListItem>)
    ensures |Candidates(items)| == |items|
    ensures forall p :: 0 <= p < |items| ==> Candidates(items)[p] == ExtractItem(items[p], p + 1)
  {
  }

  /** The records of a sequence of candidates, in order: what `list.push`
      accumulates. */
  function Kept(c: seq<Option<MovieRecord>>): seq<MovieRecord>
  {
    if c == [] then []
    else
      var init := Kept(c[..|c| - 1]);
      match c[|c| - 1]
      case None => init
      case Some(rec) => init + [rec]
  }

  /** The output of the extractor for a snapshot of the list items. */
  function Records(items: seq<ListItem>): seq<MovieRecord>
  {
    Kept(Candidates(items))
  }

  /** Every candidate record carries its 1-based position. */
  ghost predicate Numbered(c: seq<Option<MovieRecord>>)
  {
    forall p :: 0 <= p < |c| && c[p].Some? ==> c[p].value.index == p + 1
  }

  lemma CandidatesNumbered(items: seq<ListItem>)
    ensures Numbered(Candidates(items))
  {
  }

  lemma {:induction false} KeptFromCandidates(c: seq<Option<MovieRecord>>)
    requires Numbered(c)
    ensures |Kept(c)| <= |c|
    ensures forall k :: 0 <= k < |Kept(c)| ==>
      1 <= Kept(c)[k].index <= |c| && c[Kept(c)[k].index - 1] == Some(Kept(c)[k])
  {
    if c != [] {
      var init := c[..|c| - 1];
      assert forall p :: 0 <= p < |init| ==> init[p] == c[p];
      KeptFromCandidates(init);
    }
  }

  lemma {:induction false} KeptStrictlyIncreasing(c: seq<Option<MovieRecord>>)
    requires Numbered(c)
    ensures forall j, k :: 0 <= j < k < |Kept(c)| ==> Kept(c)[j].index < Kept(c)[k].index
  {
    if c != [] {
      var init := c[..|c| - 1];
      assert forall p :: 0 <= p < |init| ==> init[p] == c[p];
      KeptStrictlyIncreasing(init);
      KeptFromCandidates(init);
    }
  }

  lemma {:induction false} KeptComplete(c: seq<Option<MovieRecord>>)
    requires Numbered(c)
    ensures forall p :: 0 <= p < |c| ==>
      (c[p].Some? <==> exists k :: 0 <= k < |Kept(c)| && Kept(c)[k].index == p + 1)
  {
    KeptFromCandidates(c);
    forall p | 0 <= p < |c| && c[p].Some?
      ensures exists k :: 0 <= k < |Kept(c)| && Kept(c)[k].index == p + 1
    {
      KeptIncludes(c, p);
      var k :| 0 <= k < |Kept(c)| && Kept(c)[k] == c[p].value;
    }
  }

  lemma {:induction false} KeptAll(c: seq<Option<MovieRecord>>)
    requires Numbered(c)
    requires forall p :: 0 <= p < |c| ==> c[p].Some?
    ensures |Kept(c)| == |c|
    ensures forall k :: 0 <= k < |c| ==> Kept(c)[k].index == k + 1
  {
    if c != [] {
      var init := c[..|c| - 1];
      assert forall p :: 0 <= p < |init| ==> init[p] == c[p];
      KeptAll(init);
    }
  }

  /** Every output record is the candidate, that is the `ExtractItem`
      record, of the item at position `index`; so indices lie in 1..N and
      the output is no longer than the input. */
  lemma RecordsComeFromItems(items: seq<ListItem>)
    ensures |Records(items)| <= |items|
    ensures forall k :: 0 <= k < |Records(items)| ==>
      var rec := Records(items)[k];
      1 <= rec.index <= |items| && Candidates(items)[rec.index - 1] == Some(rec)
  {
    KeptFromCandidates(Candidates(items));
  }

  /** Output order is document order: indices strictly increase. */
  lemma RecordsStrictlyIncreasing(items: seq<ListItem>)
    ensures forall j, k :: 0 <= j < k < |Records(items)| ==>
      Records(items)[j].index < Records(items)[k].index
  {
    KeptStrictlyIncreasing(Candidates(items));
  }

  lemma {:induction false} KeptIncludes(c: seq<Option<MovieRecord>>, p: nat)
    requires p < |c| && c[p].Some?
    ensures c[p].value in Kept(c)
  {
    var init := c[..|c| - 1];
    if p < |c| - 1 {
      assert init[p] == c[p];
      KeptIncludes(init, p);
    }
  }

  /** Every item that passes the filter has its record in the output. */
  lemma RecordsIncludeComplete(items: seq<ListItem>, p: nat)
    requires p < |items| && ExtractItem(items[p], p + 1).Some?
    ensures ExtractItem(items[p], p + 1).value in Records(items)
  {
    CandidatesAt(items);
    KeptIncludes(Candidates(items), p);
  }

  /** A list of items that all pass the filter gives one record per item,
      numbered 1..N in order. */
  lemma AllCompleteItemsKept(items: seq<ListItem>)
    requires forall p :: 0 <= p < |items| ==> ExtractItem(items[p], p + 1).Some?
    ensures |Records(items)| == |items|
    ensures forall k :: 0 <= k < |items| ==> Records(items)[k].index == k + 1
  {
    CandidatesAt(items);
    KeptAll(Candidates(items));
  }

  /** The `page.evaluate` callback: build `list` by pushing the record of
      every item that passes the filter, in document order. */
  method Extract(items: seq<ListItem>) returns (list: seq<MovieRecord>)
    ensures list == Records(items)
    ensures |list| <= |items|
    ensures forall k :: 0 <= k < |list| ==> 1 <= list[k].index <= |items|
    ensures forall j, k :: 0 <= j < k < |list| ==> list[j].index < list[k].index
  {
    ghost var c := Candidates(items);
    list := [];
    var i := 0;
    while i < |items|
      invariant 0 <= i <= |items|
      invariant list == Kept(c[..i])
    {
      var index := i + 1;
      var rec := ExtractItem(items[i], index);
      assert c[..i + 1][..i] == c[..i];
      if rec.Some? {
        list := list + [rec.value];
      }
      i := i + 1;
    }
    assert c[..i] == c;
    RecordsComeFromItems(items);
    RecordsStrictlyIncreasing(items);
  }
}
