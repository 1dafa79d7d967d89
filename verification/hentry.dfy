/** The hentry extractor: locates the single entry root of a page by the
    microformats class names, reads each field through an ordered list of
    fallback CSS selectors, and merges the page-wide id and lead image. */
module Hentry {
  import opened Wrappers
  import opened Strings
  import opened Dom
  import opened Base64

  // ---------------------------------------------------------------------------
  // The selector table, compiled once at load time in the source.

  function Class(c: string): Compound {
    Compound(None, Some(c), None)
  }

  function ClassSelector(c: string): Selector {
    Single(Class(c))
  }

  function TagClass(tag: string, c: string): Compound {
    Compound(Some(tag), Some(c), None)
  }

  function MetaWith(name: string, value: string): Selector {
    Single(Compound(Some("meta"), None, Some(Attribute(name, value))))
  }

  /** `.hentry`, then `.entry`. */
  const EntrySelectors: seq<Selector> := [ClassSelector("hentry"), ClassSelector("entry")]
  /** `.entry-title`, then `.title`. */
  const TitleSelectors: seq<Selector> := [ClassSelector("entry-title"), ClassSelector("title")]
  /** `.entry-content`, then `.content`. */
  const ContentSelectors: seq<Selector> := [ClassSelector("entry-content"), ClassSelector("content")]
  /** `.vcard .fn`, then `.author .fn`, then `.author`. */
  const AuthorSelectors: seq<Selector> :=
    [Descendant(Class("vcard"), Class("fn")), Descendant(Class("author"), Class("fn")), ClassSelector("author")]
  /** `[rel=tag]`, then `.tag`. */
  const TagSelectors: seq<Selector> :=
    [Single(Compound(None, None, Some(Attribute("rel", "tag")))), ClassSelector("tag")]
  /** `time.published`, then `time.updated`, then `time`. */
  const DateSelectors: seq<Selector> :=
    [Single(TagClass("time", "published")), Single(TagClass("time", "updated")), Single(Compound(Some("time"), None, None))]
  /** `meta[property="og:image"]`, then `meta[name="twitter:image"]`. */
  const ImageSelectors: seq<Selector> := [MetaWith("property", "og:image"), MetaWith("name", "twitter:image")]
  /** `.category` (a single selector, no fallback). */
  const CategorySelector: Selector := ClassSelector("category")
  /** `meta[name="entry-id"]`. */
  const IdSelector: Selector := MetaWith("name", "entry-id")

  // ---------------------------------------------------------------------------
  // The entry record.

  /** A dictionary key that may be missing, present with `None`, or present with a value. */
  datatype Slot<T> = Absent | Null | Present(value: T)

  /** A timezone-naive date-time, as the date normaliser produces it. */
  type Timestamp = int

  /** The free-form date grammar (dateutil's parser followed by the UTC-to-naive
      conversion), which this model takes as given. */
  type DateParser = string -> Option<Timestamp>

  /** The dictionary `parse_html` returns; each optional field is a key that may be missing. */
  datatype Entry = Entry(
    title: string,
    content: Slot<string>,
    author: Option<string>,
    pubdate: Slot<Timestamp>,
    tags: Option<seq<string>>,
    categories: Option<seq<string>>,
    id: Option<string>,
    image: Option<string>)

  /** The keys present in the dictionary. */
  function Keys(e: Entry): (ks: set<string>)
    ensures "title" in ks
  {
    {"title"}
    + (if e.content.Absent? then {} else {"content"})
    + (if e.author.Some? then {"author"} else {})
    + (if e.pubdate.Absent? then {} else {"pubdate"})
    + (if e.tags.Some? then {"tags"} else {})
    + (if e.categories.Some? then {"categories"} else {})
    + (if e.id.Some? then {"id"} else {})
    + (if e.image.Some? then {"image"} else {})
  }

  /** What a Python call raises instead of returning. */
  datatype Fault =
    | NetworkError         // `requests.get` raised (timeout, refused connection, ...)
    | RequestError         // `HentryError('Request Error')`: the status was not 200
    | NoContent            // `HentryError('No Content')`: the body was empty
    | NoneItemAssignment   // `TypeError`: an id or image was assigned into the `None` entry
    | ParserError          // lxml's `ParserError`: the body holds no document

  /** The outcome of the HTTP GET that `parse_url` performs. */
  datatype Fetched = Unreachable | Reply(status: int, content: seq<byte>)

  /** The caller asked for serialised markup rather than plain text. */
  predicate WantsMarkup(format: Option<string>) {
    format == Some("html")
  }

  // ---------------------------------------------------------------------------
  // Fallback selection.

  /** `_find`: the match list of the first selector, in order, that matches
      anything inside `el`; none when every selector matches nothing. */
  function Find(el: Element, sels: seq<Selector>): (r: Option<seq<Element>>)
    ensures r.None? <==> forall k :: 0 <= k < |sels| ==> Select(sels[k], el) == []
    ensures r.Some? ==> exists k :: 0 <= k < |sels| && r.value == Select(sels[k], el) && r.value != []
                                    && forall j :: 0 <= j < k ==> Select(sels[j], el) == []
  {
    if |sels| == 0 then None
    else
      var rv := Select(sels[0], el);
      if rv != [] then Some(rv)
      else
        var r := Find(el, sels[1..]);
        assert forall k :: 1 <= k < |sels| ==> sels[k] == sels[1..][k - 1];
        if r.Some? then
          var k :| 0 <= k < |sels[1..]| && r.value == Select(sels[1..][k], el) && r.value != []
                   && forall j :: 0 <= j < k ==> Select(sels[1..][j], el) == [];
          assert forall j :: 0 <= j < k + 1 ==> Select(sels[j], el) == [] by {
            forall j | 0 <= j < k + 1
              ensures Select(sels[j], el) == []
            {
              if j > 0 {
                assert sels[j] == sels[1..][j - 1];
              }
            }
          }
          r
        else r
  }

  /** `_text`: the stripped text content of the first element `Find` returns. */
  function FindText(el: Element, sels: seq<Selector>): (r: Option<string>)
    ensures r.None? <==> forall k :: 0 <= k < |sels| ==> Select(sels[k], el) == []
    ensures r.Some? ==> IsStripped(r.value)
    ensures r.Some? ==> exists k :: 0 <= k < |sels| && Select(sels[k], el) != []
                                    && (forall j :: 0 <= j < k ==> Select(sels[j], el) == [])
                                    && r.value == Strip(TextContent(Select(sels[k], el)[0]))
  {
    match Find(el, sels)
    case Some(rv) => Some(Strip(TextContent(rv[0])))
    case None => None
  }

  /** The text content of every element, unstripped, in order. */
  function TextContents(els: seq<Element>): (ts: seq<string>)
    ensures |ts| == |els|
    ensures forall i :: 0 <= i < |els| ==> ts[i] == TextContent(els[i])
  {
    if |els| == 0 then [] else [TextContent(els[0])] + TextContents(els[1..])
  }

  // ---------------------------------------------------------------------------
  // Date normalisation.

  /** `to_datetime`: no date for a missing or empty value; otherwise the
      grammar's reading of the value with surrounding whitespace removed. */
  function ToDatetime(value: Option<string>, parseDate: DateParser): (r: Option<Timestamp>)
    ensures value.None? || value == Some("") ==> r.None?
    ensures value.Some? && value.value != "" ==> r == parseDate(Strip(value.value))
  {
    if value.None? || value.value == "" then None
    else parseDate(Strip(value.value))
  }

  // ---------------------------------------------------------------------------
  // Field extraction.

  /** `_parse_entry`: builds the entry from the entry root `el`; none when the
      title is missing or blank. */
  function ParseEntry(el: Element, format: Option<string>, parseDate: DateParser): (r: Option<Entry>)
    ensures r.None? <==> Find(el, TitleSelectors).None? || AllSpace(TextContent(Find(el, TitleSelectors).value[0]))
    ensures r.Some? ==> r.value.title != [] && IsStripped(r.value.title)
    ensures r.Some? ==> r.value.id.None? && r.value.image.None?
  {
    var title := FindText(el, TitleSelectors);
    if title.None? || title.value == "" then None
    else
      var content :=
        if WantsMarkup(format) then
          match Find(el, ContentSelectors)
          case Some(rv) => Present(Markup(rv[0]))
          case None => Absent
        else
          match FindText(el, ContentSelectors)
          case Some(t) => Present(t)
          case None => Null;
      var author := FindText(el, AuthorSelectors);
      var pubdate :=
        match Find(el, DateSelectors)
        case Some(rv) =>
          (match ToDatetime(Get(rv[0], "datetime"), parseDate)
           case Some(t) => Present(t)
           case None => Null)
        case None => Absent;
      var tags :=
        match Find(el, TagSelectors)
        case Some(rv) => Some(TextContents(rv))
        case None => None;
      var cats := Select(CategorySelector, el);
      Some(Entry(
        title := title.value,
        content := content,
        author := if author.Some? && author.value != "" then author else None,
        pubdate := pubdate,
        tags := tags,
        categories := if cats != [] then Some(TextContents(cats)) else None,
        id := None,
        image := None))
  }

  /** The stripped `content` attribute of a `<meta>` element, or `''` when it has none. */
  function MetaContent(e: Element): (r: string)
    ensures IsStripped(r)
    ensures Get(e, "content").None? ==> r == ""
    ensures Get(e, "content").Some? ==> r == Strip(Get(e, "content").value)
  {
    Strip(Get(e, "content").GetOr(""))
  }

  /** `parse_html`: the entry of the document whose entry-root fallback finds
      exactly one element, with the document-wide id and lead image merged in.
      A missing title with an id or image marker present makes the source
      assign an item into `None`, which is the `NoneItemAssignment` failure here. */
  function ParseHtml(doc: Element, format: Option<string>, parseDate: DateParser): (r: Result<Option<Entry>, Fault>)
    ensures Find(doc, EntrySelectors).None? || |Find(doc, EntrySelectors).value| != 1 ==> r == Success(None)
    ensures Find(doc, EntrySelectors).Some? && |Find(doc, EntrySelectors).value| == 1
            && ParseEntry(Find(doc, EntrySelectors).value[0], format, parseDate).Some? ==>
              r.Success? && r.value.Some?
              && r.value.value.(id := None, image := None)
                 == ParseEntry(Find(doc, EntrySelectors).value[0], format, parseDate).value
    ensures r.Failure? ==> r.error == NoneItemAssignment
    ensures r.Success? && r.value.Some? ==> r.value.value.title != [] && IsStripped(r.value.value.title)
    ensures r.Success? && r.value.Some? ==>
              (r.value.value.id.Some? <==> Select(IdSelector, doc) != [])
              && (r.value.value.id.Some? ==> r.value.value.id.value == MetaContent(Select(IdSelector, doc)[0]))
    ensures r.Success? && r.value.Some? ==>
              (r.value.value.image.Some? <==> exists k :: 0 <= k < |ImageSelectors| && Select(ImageSelectors[k], doc) != [])
  {
    var roots := Find(doc, EntrySelectors);
    if roots.Some? && |roots.value| == 1 then
      var entry := ParseEntry(roots.value[0], format, parseDate);
      var ids := Select(IdSelector, doc);
      var images := Find(doc, ImageSelectors);
      if entry.None? then
        if ids != [] || images.Some? then Failure(NoneItemAssignment) else Success(None)
      else
        var withId := if ids != [] then entry.value.(id := Some(MetaContent(ids[0]))) else entry.value;
        var withImage := if images.Some? then withId.(image := Some(MetaContent(images.value[0]))) else withId;
        Success(Some(withImage))
    else Success(None)
  }

  // ---------------------------------------------------------------------------
  // Identifiers derived from the URL.

  const Slash: byte := 47

  /** `path.lstrip('/')`: the path with every leading slash removed. */
  function LStripSlash(path: seq<byte>): (r: seq<byte>)
    ensures |r| <= |path| && r == path[|path| - |r|..]
    ensures forall i :: 0 <= i < |path| - |r| ==> path[i] == Slash
    ensures r == [] || r[0] != Slash
  {
    if |path| > 0 && path[0] == Slash then LStripSlash(path[1..]) else path
  }

  /** `uri_id`: the URL-safe Base64 encoding of the URL path without its
      leading slashes, with the trailing `=` padding removed. Its length is the
      ceiling of 4n/3 for n path bytes, it uses only the URL-safe alphabet, and
      restoring the padding and decoding gives the stripped path back. */
  function UriId(path: seq<byte>): (id: string)
    ensures |id| == DataLength(|LStripSlash(path)|)
    ensures forall i :: 0 <= i < |id| ==> IsUrlSafeChar(id[i])
    ensures Pad !in id
    ensures DecodePadded(Repad(id)) == Some(LStripSlash(path))
  {
    var stripped := LStripSlash(path);
    StrippedEncoding(stripped);
    var id := RStrip(EncodePadded(stripped), Pad);
    assert forall i :: 0 <= i < |id| ==> id[i] != Pad;
    id
  }

  // ---------------------------------------------------------------------------
  // The URL entry point.

  /** `parse_url` after the HTTP GET: a failed request, a status other than 200
      or an empty body raise, and so does a body the HTML parser rejects;
      otherwise the page's entry, given an id derived from the URL path when
      the page carried none. `parseDoc` stands for lxml's `fromstring`, with
      none for a body it rejects. Each fault has exactly one cause. */
  function ParseUrl(path: seq<byte>, fetched: Fetched, parseDoc: seq<byte> -> Option<Element>,
                    format: Option<string>, parseDate: DateParser): (r: Result<Option<Entry>, Fault>)
    ensures r == Failure(NetworkError) <==> fetched.Unreachable?
    ensures r == Failure(RequestError) <==> fetched.Reply? && fetched.status != 200
    ensures r == Failure(NoContent) <==> fetched.Reply? && fetched.status == 200 && fetched.content == []
    ensures r == Failure(ParserError) <==>
              fetched.Reply? && fetched.status == 200 && fetched.content != [] && parseDoc(fetched.content).None?
    ensures r == Failure(NoneItemAssignment) <==>
              && fetched.Reply? && fetched.status == 200 && fetched.content != [] && parseDoc(fetched.content).Some?
              && ParseHtml(parseDoc(fetched.content).value, format, parseDate).Failure?
    ensures r.Success? && r.value.Some? ==> r.value.value.id.Some?
  {
    match fetched
    case Unreachable => Failure(NetworkError)
    case Reply(status, content) =>
      if status != 200 then Failure(RequestError)
      else if content == [] then Failure(NoContent)
      else if parseDoc(content).None? then Failure(ParserError)
      else
        var entry :- ParseHtml(parseDoc(content).value, format, parseDate);
        if entry.None? then Success(None)
        else if entry.value.id.None? then Success(Some(entry.value.(id := Some(UriId(path)))))
        else Success(entry)
  }
}
