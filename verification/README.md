# hentry, modelled in Dafny

`hentry` extracts one blog entry from an HTML page that follows the
microformats hentry convention. It finds the entry root (`.hentry`, else
`.entry`), reads each field through an ordered list of fallback CSS
selectors, and returns a dictionary: `title`, `content`, `author`,
`pubdate`, `tags`, `categories`, `id` and `image`. A page without a unique
entry root or without a title yields `None`. `parse_url` fetches the page
first. When the page carries no `entry-id` marker, `parse_url` derives an id
from the URL path with URL-safe Base64 (section 5 of RFC 4648).

The model is split into these files:

- `wrappers.dfy` (`Wrappers`): `Option` stands for Python's `None`, and
  `Result` stands for a raised exception.
- `strings.dfy` (`Strings`): Python's `str.strip()` and `rstrip(c)`.
- `dom.dfy` (`Dom`): the tree that lxml builds.
  - Each element has a tag, attributes in source order, `text`, children and
    `tail`.
  - `TextContent` models lxml's `text_content()` and `Markup` models
    `tostring()`.
  - The selector matcher covers the selector forms that the source compiles:
    tag, class, attribute-equals and the descendant combinator.
  - Like lxml's compiled selectors, it searches `descendant-or-self`, so the
    scope element itself can match. Results come in document order.
- `base64.dfy` (`Base64`): the padded URL-safe encoder, its decoder, and the
  lemmas about alphabet, length, padding and round trip.
- `hentry.dfy` (`Hentry`): the selector table of hentry.py:33-52 (the
  constants `EntrySelectors` to `IdSelector`), the entry record, and
  `_find`, `_text`, `to_datetime`, `_parse_entry`, `parse_html`, `uri_id`
  and `parse_url` after its HTTP request.
- `hentry_lemmas.dfy` (`HentryLemmas`): properties that relate several calls.

The entry is a record with one field per dictionary key. Some keys can be
present with the value `None`, so two fields use
`Slot = Absent | Null | Present(v)`:

- `content`: text mode always stores `_text(...)`, even when that is `None`.
- `pubdate`: it is stored whenever a time element matched, even when the date
  could not be read.

The model keeps these behaviours of the code:

- Tag and category texts are not stripped.
- In `parse_html`, a missing title together with an `entry-id` or image
  `<meta>` makes the code assign an item into `None` (a `TypeError`). The
  model returns this as `Failure(NoneItemAssignment)`, not as a null result.
- `uri_id` removes every leading `/` (it uses `lstrip('/')`), so `/a` and
  `//a` get the same id.
- The id from a `meta[name="entry-id"]` element is stored even when its
  `content` is empty. `parse_url` tests only whether the `id` key exists, so
  such a page keeps the empty id instead of getting one derived from the URL.
- `uri_id` works on the path as a byte string. The code relies on Python 2
  here: under Python 3, `urlsafe_b64encode` would be given a `str` and raise.

## Model

| member | source | states |
|---|---|---|
| Hentry.Find | hentry.py:162-167 | `_find` returns none exactly when every selector matches nothing. Otherwise it returns the non-empty match list of the first selector that matches, and every earlier selector matched nothing. |
| HentryLemmas.FindAppend | hentry.py:162-167 | Later selectors are consulted only when all earlier ones matched nothing. Appending selectors after a winning one changes nothing. |
| Hentry.FindText | hentry.py:170-174 | `_text` is none exactly when nothing matches. Otherwise it is the stripped text content of the first element matched by the first matching selector, so it has no surrounding whitespace. |
| HentryLemmas.FindTextReadsFirstMatch | hentry.py:170-174 | `_text` succeeds exactly when `_find` does, and reads the first element of the list `_find` returns. |
| Hentry.ToDatetime | hentry.py:60-71 | A missing or empty value gives no date. Any other value is handed to the date grammar with its surrounding whitespace removed. |
| HentryLemmas.ToDatetimeStrips | hentry.py:62-66 | A value and its stripped form give the same date, unless the value is only whitespace. |
| Hentry.ParseEntry | hentry.py:127-159 | No entry exactly when no title selector matches or the first title match has only whitespace. A returned entry has a non-empty, stripped title and no id or image yet. |
| HentryLemmas.TitleIsMandatory | hentry.py:128-133 | The entry is absent exactly when `_text` over the title selectors is none or empty. Otherwise the title is that text. |
| HentryLemmas.TextModeContentAlwaysPresent | hentry.py:139-140 | In text mode the `content` key is always present. It is `None` exactly when no content selector matches, and otherwise `_text` over the content selectors. |
| HentryLemmas.MarkupModeContent | hentry.py:135-138 | In html mode `content` is never `None`. It is missing exactly when no content selector matches, and otherwise it is the serialisation of the first match. |
| HentryLemmas.AuthorOnlyWhenNonBlank | hentry.py:142-144 | `author` is present exactly when the author text is non-empty, and it is then that stripped text. |
| HentryLemmas.PubdateKeyFollowsTheTimeElement | hentry.py:146-149 | `pubdate` is present exactly when a time selector matched. It is `None` exactly when `to_datetime` of the first match's `datetime` attribute gives nothing. |
| HentryLemmas.TagsCollectEveryMatch | hentry.py:151-154 | `tags` is present exactly when a tag selector matched. It then lists the unstripped text of every element of the winning match list, in order, one per match. |
| HentryLemmas.CategoriesCollectEveryMatch | hentry.py:156-158 | `categories` is present exactly when `.category` matched. It then lists the unstripped text of every match, in order. |
| Hentry.MetaContent | hentry.py:119 | The value read from a `<meta>` element is its `content` attribute with surrounding whitespace removed, and `''` when that attribute is missing. |
| Hentry.ParseHtml | hentry.py:107-124 | Without exactly one entry root the result is `None`. With one root whose `_parse_entry` succeeds, an entry always comes back, holding that root's fields apart from `id` and `image`. The only failure is the item assignment into `None`. A returned entry has a non-empty stripped title. Its `id` is present exactly when the document has an `entry-id` meta, and it holds that element's stripped content. Its `image` is present exactly when an image selector matches anywhere in the document. |
| HentryLemmas.DateSelectorsFindAnyTime | hentry.py:42-46 | The date fallbacks only narrow the bare `time` selector. Some date selector matches exactly when the scope holds a `time` element, and `time.published` wins whenever it matches. |
| HentryLemmas.SeveralHentryRootsGiveNothing | hentry.py:113-115 | Two or more `.hentry` elements give `None`, and `.entry` is never tried. |
| HentryLemmas.EntryClassIsTheFallbackRoot | hentry.py:114 | With no `.hentry`, a single `.entry` element becomes the entry root. |
| HentryLemmas.EntryComesFromTheUniqueRoot | hentry.py:113-123 | An entry comes back exactly when the root fallback finds one root and `_parse_entry` succeeds on it. Apart from `id` and `image`, its fields are the ones that `_parse_entry` finds on that root. |
| HentryLemmas.ParseHtmlRaisesIff | hentry.py:115-122 | `parse_html` raises exactly when the unique root has no usable title and the document has an `entry-id` or image meta. |
| HentryLemmas.ImageFromDocument | hentry.py:120-122 | `image` is the stripped `content` of the first match of the first image selector that matches the whole document. |
| Hentry.LStripSlash | hentry.py:77 | Only leading `/` bytes are removed, all of them, and the rest of the path is kept. |
| Hentry.UriId | hentry.py:74-78 | The id has ceil(4n/3) characters for n stripped path bytes. It uses only `A-Z a-z 0-9 - _` and never `=`. Restoring the padding and decoding gives back the stripped path. |
| HentryLemmas.UriIdInjective | hentry.py:74-78 | Two paths share an id exactly when they agree after their leading slashes are removed. |
| HentryLemmas.LeadingSlashesShareAnId | hentry.py:77 | Adding a leading `/` does not change the id. |
| Hentry.ParseUrl | hentry.py:94-104 | A failed request raises. A status other than 200 raises `Request Error`, and an empty body raises `No Content`. A body the HTML parser rejects raises `ParserError`, and a failure inside `parse_html` propagates. Each fault has exactly one cause, so the kinds are told apart. A returned entry always has an id. |
| HentryLemmas.UrlIdFallback | hentry.py:99-104 | A failure from `parse_html` propagates and a missing entry stays `None`. An entry with an `id` key is returned unchanged, and one without gets `uri_id` of the path. |
| HentryLemmas.MetaIdOverridesUrlId | hentry.py:117-119 | When the page has an `entry-id` meta, the returned id is that meta's content, never the id derived from the URL. |
| Base64.IndexOf | hentry.py:77 | Reading a character of the URL-safe alphabet back gives the 6-bit value whose character it is. |
| Base64.EncodePaddedLength | hentry.py:77 | The padded encoding of n bytes has ceil(4n/3) data characters plus the padding that completes the last quantum. |
| Base64.EncodePaddedShape | hentry.py:77 | `urlsafe_b64encode` of n bytes gives ceil(4n/3) alphabet characters followed only by `=` padding. |
| Base64.DecodeEncodePadded | hentry.py:77 | Decoding the padded encoding gives back the bytes. |
| Base64.StripPadding | hentry.py:78 | `rstrip('=')` of the padded encoding leaves exactly its ceil(4n/3) data characters. |
| Base64.RepadStripped | hentry.py:78 | Adding back the `=` that `rstrip` removed restores the padded encoding. |
| Base64.StrippedEncoding | hentry.py:77-78 | The encoding with its `=` stripped has ceil(4n/3) alphabet characters, and repadding then decoding gives back the bytes. |
| Base64.RfcVectors | hentry.py:77 | The encoder gives the test vectors of section 10 of RFC 4648 (`f`, `fo`, `foo`, `foobar`), and it writes `-` and `_` where standard Base64 writes `+` and `/`. |
| Strings.Strip | hentry.py:173 | `strip()` returns the slice between the leading and trailing whitespace runs, with no whitespace at either end. The result is empty exactly when the text is all whitespace. |
| HentryLemmas.StripIdempotent | hentry.py:173 | Stripping twice is the same as stripping once. |
| Strings.RStrip | hentry.py:78 | `rstrip(c)` removes a suffix made only of `c`, and what remains does not end in `c`. |
| Dom.Lookup | hentry.py:119 | `get(name)` is none exactly when no attribute has that name. Otherwise it is the value of the first attribute with that name. |
| Dom.Select | hentry.py:164 | A compiled selector returns exactly the elements of the scope, the scope itself included, to which the selector applies. For the descendant combinator this includes the ancestor test. |

## Left out

- The HTTP request of `parse_url` (hentry.py:88-93) is network I/O: the user-agent default, the timeout and `requests.get`. `ParseUrl` receives the request's outcome instead, as a failure or a status with a body.
- `fromstring` (HTML parsing) is lxml's. `ParseUrl` takes the parser as a parameter that either gives a tree or none. None, as when lxml raises `ParserError` for a body of only whitespace, becomes `Failure(ParserError)`. Which bodies lxml rejects is not modelled.
- ParseHtml: takes the parsed tree, so the parser error that `parse_html` raises when it is called directly with such a string (hentry.py:113) is not part of its contract. `ParseUrl` carries that error path.
- `urlparse` is left out: `UriId` and `ParseUrl` take the URL's path as bytes.
- The body of `to_datetime` (hentry.py:65-71) is left out. It calls dateutil's grammar, `time.mktime` and the local timezone, and it turns UTC fields into a naive local time. It is the parameter `parseDate`. Only the guard against missing or empty values and the strip are modelled.
- The `if not date` test (hentry.py:67) is left out: a parsed `datetime` is always truthy, so it only matters inside the date grammar.
- `Markup` serialises every element as `<tag attrs>…</tag>` followed by its tail. It leaves out lxml's escaping, void elements, comments and processing instructions.
- The matcher covers only the selector forms in the source's table. The rest of CSS is left out.
- Tag names are compared exactly, because lxml's HTML parser has already lower-cased them.
- Dom.Select: its contract states soundness and completeness but not document order. Order follows from its definition as a filter over the pre-order walk, not from a separate lemma.
- Strings.IsSpace uses the whitespace of Python's `str.isspace`. For Python 2 byte strings, `strip()` removes only the six ASCII whitespace characters.
- The module constants `UA` and `__version__`, setup.py and the test runner hold no logic to model.
- The fixture pages of the test suite are not replayed as concrete lemmas. Class matching on literal strings is too costly to evaluate in proofs. Instead, `EntryComesFromTheUniqueRoot` and the field lemmas state, for every page, when an entry comes back and what each field then holds.
