/** Properties of the extractor that relate several calls, or a call to the
    selections it is built from. */
module HentryLemmas {
  import opened Wrappers
  import opened Strings
  import opened Dom
  import opened Base64
  import opened Hentry

  // ---------------------------------------------------------------------------
  // Fallback selection.

  /** Selectors after the winning one are never consulted: appending more
      selectors changes nothing once an earlier one matched, and when none of
      the earlier ones matched the later ones decide alone. */
  lemma {:induction false} FindAppend(el: Element, first: seq<Selector>, later: seq<Selector>)
    ensures Find(el, first).Some? ==> Find(el, first + later) == Find(el, first)
    ensures Find(el, first).None? ==> Find(el, first + later) == Find(el, later)
  {
    if |first| > 0 {
      assert (first + later)[0] == first[0];
      assert (first + later)[1..] == first[1..] + later;
      FindAppend(el, first[1..], later);
    } else {
      assert first + later == later;
    }
  }

  /** `_text` reads the first element of the list `_find` picks. */
  lemma FindTextReadsFirstMatch(el: Element, sels: seq<Selector>)
    ensures FindText(el, sels).Some? <==> Find(el, sels).Some?
    ensures Find(el, sels).Some? ==> FindText(el, sels).value == Strip(TextContent(Find(el, sels).value[0]))
  {
  }

  // ---------------------------------------------------------------------------
  // The selector table.

  /** The date fallbacks only narrow the bare `time` selector: some date
      selector matches exactly when the scope holds a `time` element at all,
      and a `time.published` element wins over every `time.updated` one. */
  lemma {:induction false} DateSelectorsFindAnyTime(el: Element)
    ensures Find(el, DateSelectors).Some? <==> Select(DateSelectors[2], el) != []
    ensures Select(DateSelectors[0], el) != [] ==> Find(el, DateSelectors) == Some(Select(DateSelectors[0], el))
  {
    var time := DateSelectors[2];
    forall k | 0 <= k < 2 && Select(DateSelectors[k], el) != []
      ensures Select(time, el) != []
    {
      var x := Select(DateSelectors[k], el)[0];
      assert x in Select(DateSelectors[k], el);
      var v :| v in Walk(el, []) && Applies(DateSelectors[k], v) && v.node == x;
      assert Applies(time, v);
    }
  }

  // ---------------------------------------------------------------------------
  // The entry root.

  /** Two or more `.hentry` elements end the search: `.entry` is never tried,
      and no entry comes back however many `.entry` elements there are. */
  lemma SeveralHentryRootsGiveNothing(doc: Element, format: Option<string>, parseDate: DateParser)
    requires |Select(ClassSelector("hentry"), doc)| >= 2
    ensures ParseHtml(doc, format, parseDate) == Success(None)
  {
    assert Find(doc, EntrySelectors) == Some(Select(ClassSelector("hentry"), doc));
  }

  /** With no `.hentry` at all, a single `.entry` element is the entry root. */
  lemma EntryClassIsTheFallbackRoot(doc: Element, root: Element)
    requires Select(ClassSelector("hentry"), doc) == []
    requires Select(ClassSelector("entry"), doc) == [root]
    ensures Find(doc, EntrySelectors) == Some([root])
  {
    assert EntrySelectors[0] == ClassSelector("hentry") && EntrySelectors[1] == ClassSelector("entry");
  }

  /** An entry comes back exactly when the root fallback finds a unique root
      whose title is usable, and then its fields other than the id and image
      are the ones that root yields. */
  lemma EntryComesFromTheUniqueRoot(doc: Element, format: Option<string>, parseDate: DateParser)
    ensures var r := ParseHtml(doc, format, parseDate);
            r.Success? && r.value.Some? <==>
            && Find(doc, EntrySelectors).Some? && |Find(doc, EntrySelectors).value| == 1
            && ParseEntry(Find(doc, EntrySelectors).value[0], format, parseDate).Some?
    ensures var r := ParseHtml(doc, format, parseDate);
            r.Success? && r.value.Some? ==>
            && Find(doc, EntrySelectors).Some? && |Find(doc, EntrySelectors).value| == 1
            && ParseEntry(Find(doc, EntrySelectors).value[0], format, parseDate)
                 == Some(r.value.value.(id := None, image := None))
  {
  }

  /** `parse_html` raises exactly when the unique root has no usable title and
      the page still carries an entry-id or lead-image marker. */
  lemma ParseHtmlRaisesIff(doc: Element, format: Option<string>, parseDate: DateParser)
    ensures ParseHtml(doc, format, parseDate).Failure? <==>
              && Find(doc, EntrySelectors).Some?
              && |Find(doc, EntrySelectors).value| == 1
              && ParseEntry(Find(doc, EntrySelectors).value[0], format, parseDate).None?
              && (Select(IdSelector, doc) != [] || Find(doc, ImageSelectors).Some?)
  {
  }

  /** The lead image is the stripped `content` of the first match of the first
      image selector that matches anywhere in the document. */
  lemma ImageFromDocument(doc: Element, format: Option<string>, parseDate: DateParser)
    ensures var r := ParseHtml(doc, format, parseDate);
            r.Success? && r.value.Some? && Find(doc, ImageSelectors).Some? ==>
            r.value.value.image == Some(MetaContent(Find(doc, ImageSelectors).value[0]))
  {
  }

  // ---------------------------------------------------------------------------
  // Field extraction.

  /** No entry without a title; a returned title is never blank. */
  lemma TitleIsMandatory(el: Element, format: Option<string>, parseDate: DateParser)
    ensures ParseEntry(el, format, parseDate).None? <==>
              FindText(el, TitleSelectors).None? || FindText(el, TitleSelectors) == Some("")
    ensures ParseEntry(el, format, parseDate).Some? ==>
              Some(ParseEntry(el, format, parseDate).value.title) == FindText(el, TitleSelectors)
  {
  }

  /** In text mode the `content` key is always there: the stripped text of the
      first content match, or `None` when no content selector matches. */
  lemma TextModeContentAlwaysPresent(el: Element, format: Option<string>, parseDate: DateParser)
    ensures var r := ParseEntry(el, format, parseDate);
            r.Some? && !WantsMarkup(format) ==>
            var c := r.value.content;
            && "content" in Keys(r.value)
            && (c.Null? <==> forall k :: 0 <= k < |ContentSelectors| ==> Select(ContentSelectors[k], el) == [])
            && (c.Present? ==> Some(c.value) == FindText(el, ContentSelectors))
  {
  }

  /** In markup mode the `content` key is there only when a content element
      matched, and then holds the serialisation of the first match. */
  lemma MarkupModeContent(el: Element, format: Option<string>, parseDate: DateParser)
    ensures var r := ParseEntry(el, format, parseDate);
            r.Some? && WantsMarkup(format) ==>
            var c := r.value.content;
            && !c.Null?
            && (c.Absent? <==> forall k :: 0 <= k < |ContentSelectors| ==> Select(ContentSelectors[k], el) == [])
            && (c.Present? ==> c.value == Markup(Find(el, ContentSelectors).value[0]))
  {
    var r := ParseEntry(el, format, parseDate);
    if r.Some? && WantsMarkup(format) {
      var found := Find(el, ContentSelectors);
      assert r.value.content == if found.Some? then Present(Markup(found.value[0])) else Absent;
    }
  }

  /** `author` is there only when the author text is not blank. */
  lemma AuthorOnlyWhenNonBlank(el: Element, format: Option<string>, parseDate: DateParser)
    ensures var r := ParseEntry(el, format, parseDate);
            r.Some? ==>
            var a := r.value.author;
            && (a.Some? <==> FindText(el, AuthorSelectors).Some? && FindText(el, AuthorSelectors).value != "")
            && (a.Some? ==> a == FindText(el, AuthorSelectors) && IsStripped(a.value))
  {
  }

  /** `pubdate` is there whenever a time element matched, holding `None` when
      its `datetime` attribute is missing, empty or not understood. */
  lemma PubdateKeyFollowsTheTimeElement(el: Element, format: Option<string>, parseDate: DateParser)
    ensures var r := ParseEntry(el, format, parseDate);
            r.Some? ==>
            var d := r.value.pubdate;
            && (d.Absent? <==> forall k :: 0 <= k < |DateSelectors| ==> Select(DateSelectors[k], el) == [])
            && (!d.Absent? ==>
                  var when := ToDatetime(Get(Find(el, DateSelectors).value[0], "datetime"), parseDate);
                  (d.Null? <==> when.None?) && (d.Present? ==> Some(d.value) == when))
  {
  }

  /** `tags` is there only when a tag selector matched, and then holds the
      unstripped text of every element of the winning match list, in order. */
  lemma TagsCollectEveryMatch(el: Element, format: Option<string>, parseDate: DateParser)
    ensures var r := ParseEntry(el, format, parseDate);
            r.Some? ==>
            var t := r.value.tags;
            && (t.Some? <==> exists k :: 0 <= k < |TagSelectors| && Select(TagSelectors[k], el) != [])
            && (t.Some? ==>
                  var matched := Find(el, TagSelectors).value;
                  |t.value| == |matched| > 0
                  && forall i :: 0 <= i < |matched| ==> t.value[i] == TextContent(matched[i]))
  {
  }

  /** `categories` is there only when `.category` matched, and then holds the
      unstripped text of every match, in order. */
  lemma CategoriesCollectEveryMatch(el: Element, format: Option<string>, parseDate: DateParser)
    ensures var r := ParseEntry(el, format, parseDate);
            r.Some? ==>
            var c := r.value.categories;
            var matched := Select(CategorySelector, el);
            && (c.Some? <==> matched != [])
            && (c.Some? ==> |c.value| == |matched| && forall i :: 0 <= i < |matched| ==> c.value[i] == TextContent(matched[i]))
  {
  }

  // ---------------------------------------------------------------------------
  // The URL entry point.

  /** `parse_url` keeps the page's own id (an entry-id marker always wins),
      derives one from the URL path otherwise, and returns nothing, without
      deriving an id, when the page has no entry. */
  lemma UrlIdFallback(path: seq<byte>, status: int, content: seq<byte>, parseDoc: seq<byte> -> Option<Element>,
                      format: Option<string>, parseDate: DateParser)
    requires status == 200 && content != [] && parseDoc(content).Some?
    ensures var page := ParseHtml(parseDoc(content).value, format, parseDate);
            var r := ParseUrl(path, Reply(status, content), parseDoc, format, parseDate);
            && (page.Failure? ==> r == page.PropagateFailure())
            && (page.Success? && page.value.None? ==> r == Success(None))
            && (page.Success? && page.value.Some? && page.value.value.id.Some? ==> r == page)
            && (page.Success? && page.value.Some? && page.value.value.id.None? ==>
                  r == Success(Some(page.value.value.(id := Some(UriId(path))))))
  {
  }

  /** A page's entry-id marker overrides the id the URL would give. */
  lemma MetaIdOverridesUrlId(path: seq<byte>, content: seq<byte>, parseDoc: seq<byte> -> Option<Element>,
                             format: Option<string>, parseDate: DateParser)
    requires content != [] && parseDoc(content).Some?
    requires Select(IdSelector, parseDoc(content).value) != []
    ensures var r := ParseUrl(path, Reply(200, content), parseDoc, format, parseDate);
            r.Success? && r.value.Some? ==>
              r.value.value.id == Some(MetaContent(Select(IdSelector, parseDoc(content).value)[0]))
  {
  }

  // ---------------------------------------------------------------------------
  // Identifiers.

  /** Two paths get the same id exactly when they agree once their leading
      slashes are removed. */
  lemma UriIdInjective(p: seq<byte>, q: seq<byte>)
    ensures UriId(p) == UriId(q) <==> LStripSlash(p) == LStripSlash(q)
  {
    if UriId(p) == UriId(q) {
      assert Some(LStripSlash(p)) == DecodePadded(Repad(UriId(q)));
    }
  }

  /** Every leading slash is removed, not just one: `/a` and `//a` share an id. */
  lemma {:induction false} LeadingSlashesShareAnId(path: seq<byte>)
    ensures UriId([Slash] + path) == UriId(path)
  {
    assert ([Slash] + path)[1..] == path;
  }

  // ---------------------------------------------------------------------------
  // Whitespace.

  /** `to_datetime` reads the value with its surrounding whitespace removed. */
  lemma ToDatetimeStrips(v: string, parseDate: DateParser)
    requires Strip(v) != ""
    ensures ToDatetime(Some(v), parseDate) == ToDatetime(Some(Strip(v)), parseDate)
  {
    StripIdempotent(v);
  }

  /** Stripping twice is stripping once. */
  lemma StripIdempotent(s: string)
    ensures Strip(Strip(s)) == Strip(s)
  {
    var r := Strip(s);
    if r != [] {
      assert !IsSpace(r[0]) && !IsSpace(r[|r| - 1]);
      assert LeadingSpace(r) == 0;
      assert TrailingSpace(r[0..]) == 0;
      assert r[0..|r|] == r;
    } else {
      assert AllSpace(r);
    }
  }
}
