# cluetrain: language negotiation and thesis navigation

A Dafny model of the request-independent logic of `cluetrain.py`, a small
web application that serves the numbered theses of the Cluetrain Manifesto in
several languages. A request for `/<n>` does three things this model covers:

- **Accept-Language parsing** (`http_accept_header`). The header is split on `,`
  into pieces and each piece on `;` into a tag and `name=value` parameters.
  The weight is the `q` parameter read as a float. It is 1.0 when there is no
  `q`, 0 when `float()` raises, and the last `q` wins when there are several.
  The entries are then stably sorted by descending weight and their tags
  returned. This is a simplified reading of section 5.3.5 of RFC 7231, with
  quality values as in section 5.3.1. Nothing is trimmed or case-folded, and
  `*` gets no special treatment.
- **Language choice**. The first sorted tag whose first two characters name a
  supported language is used. Otherwise the page is in English (`for … else`).
- **Navigation context**. From the index `n` and the chosen language's theses,
  the handler computes the index and text shown and the targets of the
  first/previous/next/last links, where 0 means "no link". An index outside
  the collection gives the not-found page: index 404, text `not found`, first 1,
  last the collection's length.

Modules:

- `PyStr` (pystr.dfy) gives Python's `str.split`, `str.split(c, 1)` and `s[:k]` on `seq<char>`.
- `AcceptLanguage` (accept_language.dfy) is the parser. Its spec functions are
  `AcceptedTags` and the stable sort `SortByWeight`. The method
  `HttpAcceptHeader` is the source's loop, proved equal to `AcceptedTags`.
- `Negotiation` (negotiation.dfy) is the language choice. `ChooseLanguage` is the loop
  with its `break`, and `Chosen` is its specification.
- `Navigation` (navigation.dfy) holds the context computation, `Nav`.
- `Cluetrain` (handler.dfy) is the `/<n>` handler without the template.

The parse of the `q` value, Python's `float()`, is a parameter
`parse: string -> Option<real>` (None where `float()` raises). Weights are
`real`. The dataset (`theses`, `languages`) is passed in as a `map` and a `set`.

Two behaviours of the code are worth spelling out:

- A parameter without `=` (as in `en;x`) makes `dict(...)` raise outside the
  `try` around `float()`, so the whole call fails, and the request with it.
  The entry does not just get weight 0. `AcceptedTagsFailure` and
  `MalformedParameterFails` state this.
- For an empty collection, the not-found page still has `first = 1`, a link to
  a thesis that does not exist. `EmptyCollectionFirstLink` states this.

## Model

| member | source | states |
|---|---|---|
| `PyStr.Split` | cluetrain.py:123 | `str.split` on one separator always gives at least one piece, so `lq[0]` exists |
| `PyStr.SplitLength` | cluetrain.py:123 | there is one more piece than there are separators |
| `PyStr.SplitPiecesFree` | cluetrain.py:123 | no piece contains the separator |
| `PyStr.JoinSplit` | cluetrain.py:123 | joining the pieces with the separator gives back the string |
| `PyStr.SplitJoin` | cluetrain.py:123 | splitting a join of separator-free pieces gives back the pieces |
| `PyStr.SplitTwo` | cluetrain.py:123 | two separator-free pieces joined by the separator split back into those two |
| `PyStr.Partition` | cluetrain.py:124 | `split('=', 1)` fails exactly when there is no `=`; otherwise it gives the text before the first `=` (which holds none) and the rest, and the two rebuild the string |
| `PyStr.Take` | cluetrain.py:143 | `tag[:2]` is a prefix of the tag, of length two or the tag's whole length if shorter |
| `AcceptLanguage.Pairs` | cluetrain.py:124 | the pairs exist exactly when every parameter holds a `=`; each pair rebuilds its parameter; otherwise the error names the first parameter without `=` |
| `AcceptLanguage.Dict` | cluetrain.py:124 | `dict(pairs)` built pair by pair; the last pair's name maps to its value; key set and last-wins for every name are `DictKeys` and `DictLastWins` |
| `AcceptLanguage.DictKeys` | cluetrain.py:124 | the dictionary's keys are exactly the names of the pairs |
| `AcceptLanguage.DictLastWins` | cluetrain.py:124 | a name maps to the value of its last occurrence |
| `AcceptLanguage.ParseEntry` | cluetrain.py:123-129 | one pass of the loop body; a failure names a parameter of the piece that has no `=`; the full statement is `ParseEntrySpec` |
| `AcceptLanguage.ParseEntrySpec` | cluetrain.py:123-129 | a piece parses exactly when all its parameters hold a `=`; its tag is its first `;`-field, verbatim; a failure names one of its parameters without `=` |
| `AcceptLanguage.Weight` | cluetrain.py:126-128 | `float(attrs.get('q', '1.0'))` with its `except`: 1.0 without `q`, the parsed value of `q`, or 0 when `float()` raises; per piece in `WeightDefault` and `WeightLastQ` |
| `AcceptLanguage.QValue` | cluetrain.py:126-128 | the weight of a `q` value: the parsed number, or 0 when `float()` raises |
| `AcceptLanguage.WeightDefault` | cluetrain.py:126 | without a `q` parameter the weight is 1.0 |
| `AcceptLanguage.WeightLastQ` | cluetrain.py:124-128 | with `q` parameters the weight is the last one's value read by `float()`, or 0 when that raises |
| `AcceptLanguage.Collect` | cluetrain.py:123-129 | the appending loop that stops at the first raise; on success it holds one value per piece; its properties are `CollectSuccess`, `CollectValues`, `CollectFailure`, `CollectSnoc` and `CollectPrefixFailure` |
| `AcceptLanguage.CollectSuccess` | cluetrain.py:123-129 | the appending loop yields a list exactly when every piece parses, one entry per piece, in order |
| `AcceptLanguage.CollectValues` | cluetrain.py:123-129 | when every piece parses, the loop yields exactly their entries |
| `AcceptLanguage.CollectFailure` | cluetrain.py:123-129 | a failing loop reports the error of the first piece that fails |
| `AcceptLanguage.CollectSnoc` | cluetrain.py:123-129 | one more pass of the loop stops at a failure or appends the entry |
| `AcceptLanguage.CollectPrefixFailure` | cluetrain.py:123-129 | once a piece fails, the pieces after it do not change the outcome |
| `AcceptLanguage.Insert` | cluetrain.py:130 | the insertion step of the sort: one entry more; it keeps a list descending and each weight's order (`InsertDescending`, `InsertOfWeight`) |
| `AcceptLanguage.SortByWeight` | cluetrain.py:130 | `accepted.sort(reverse=True, key=itemgetter(1))` as an insertion sort of the same length; stability, order and permutation are `SortByWeightStable` and `StablySortedUnique` |
| `AcceptLanguage.SortByWeightStable` | cluetrain.py:130 | the sort gives a descending list in which the entries of each weight keep their header order, and a permutation of the entries |
| `AcceptLanguage.StablySortedUnique` | cluetrain.py:130 | a stable descending sort is unique, so any stable sort gives `SortByWeight`'s result |
| `AcceptLanguage.SortTwo` | cluetrain.py:130 | two entries swap exactly when the second is strictly heavier |
| `AcceptLanguage.TagsSortByWeight` | cluetrain.py:130-131 | sorting only reorders the tags |
| `AcceptLanguage.AcceptedTags` | cluetrain.py:118-131 | the value of `http_accept_header`; only a non-empty header can fail; its properties are `AcceptedTagsEmpty`, `AcceptedTagsLength`, `AcceptedTagsPermutation`, `AcceptedTagsOrder` and `AcceptedTagsFailure` |
| `AcceptLanguage.AcceptedTagsEmpty` | cluetrain.py:120-122 | an absent or empty header gives the empty list |
| `AcceptLanguage.AcceptedTagsLength` | cluetrain.py:123-131 | a non-empty header that parses gives one tag per piece: the number of commas plus one |
| `AcceptLanguage.AcceptedTagsPermutation` | cluetrain.py:123-131 | the tags are a permutation of the pieces' first `;`-fields, verbatim |
| `AcceptLanguage.AcceptedTagsOrder` | cluetrain.py:123-131 | the entries are those of the pieces in order, and the tags are those of any stable sort of them by descending weight |
| `AcceptLanguage.AcceptedTagsFailure` | cluetrain.py:124-125 | a non-empty header fails exactly when some parameter has no `=`; the error is that of the first failing piece |
| `AcceptLanguage.HttpAcceptHeader` | cluetrain.py:118-131 | the loop that appends one entry per piece, followed by the sort, returns `AcceptedTags` |
| `Negotiation.Primary` | cluetrain.py:143 | `lang[:2]`: a prefix of the tag of length two, or the whole tag when shorter |
| `Negotiation.Chosen` | cluetrain.py:142-147 | the choice is supported or English; English when no tag's first two characters are supported; otherwise the first such tag's first two characters |
| `Negotiation.ChooseLanguage` | cluetrain.py:142-147 | the loop with `break` and `for … else` returns `Chosen` of the tags |
| `Negotiation.Negotiate` | cluetrain.py:142-147 | a readable header yields a supported language or English; it fails exactly when the header does |
| `Negotiation.NegotiateAbsent` | cluetrain.py:120-122 | without the header the page is in English |
| `Negotiation.EntryWithQ` | cluetrain.py:123-129 | a piece `tag;q=v` gives the tag with the weight of `v` |
| `Negotiation.EntryPlain` | cluetrain.py:123-129 | a piece without parameters gives its tag with weight 1.0 |
| `Negotiation.TwoPieces` | cluetrain.py:123-131 | of two pieces, the second comes first exactly when it is strictly heavier |
| `Negotiation.HeavierPreferred` | cluetrain.py:130-145 | a heavier supported tag is chosen even when written second |
| `Negotiation.UnsupportedSkipped` | cluetrain.py:142-145 | an unsupported tag is passed over for a supported one after it, whatever their weights |
| `Negotiation.SecondChosen` | cluetrain.py:142-145 | of two tags whose first is unsupported, the supported second is chosen in either order |
| `Negotiation.ExampleFallback` | cluetrain.py:142-147 | `xx-XX` with only English supported falls back to English |
| `Negotiation.SpaceKept` | cluetrain.py:123 | in `a, b` the second tag is ` b`, space included: tags are not trimmed |
| `Negotiation.MalformedParameterFails` | cluetrain.py:124-125 | `a,b;x` fails as a whole, naming the parameter `x`, although the piece `a` is well formed |
| `Navigation.Nav` | cluetrain.py:149-157 | for a thesis, the index and text are shown, first/previous are 1 and n-1 exactly when n > 1, and next/last are n+1 and the length exactly when n is below the length; otherwise it is the not-found page with first 1, last the length and no previous or next link |
| `Navigation.LinksInRange` | cluetrain.py:149-157 | in a non-empty collection every link leads to a thesis |
| `Navigation.EmptyCollectionFirstLink` | cluetrain.py:157 | in an empty collection the not-found page links to thesis 1, which does not exist |
| `Navigation.PrevNextInverse` | cluetrain.py:152-155 | following next and then previous, or previous and then next, returns to the same thesis |
| `Navigation.EndsHaveNoOuterLinks` | cluetrain.py:152-155 | the pages the first and last links lead to have no link further out |
| `Navigation.ExampleFirstOfFive` | cluetrain.py:149-155 | thesis 1 of 5 has no first or previous link, and its next and last links lead to 2 and 5 |
| `Cluetrain.Thesis` | cluetrain.py:140-158 | the handler fails when the header does; otherwise it uses the negotiated language's theses, or fails when that language has none; with a dataset that covers every supported language and English, only the header can make it fail |

## Left out

- Routing (`@route`), the HTML templates and their rendering (cluetrain.py:33-115, 158) are presentation glue. The handler returns the context record a template would receive.
- `request.get_header` (cluetrain.py:120) is replaced by the header value, passed as an `Option<string>`.
- The random redirect of `GET /` (cluetrain.py:134-137) is left out because `randint` is nondeterministic and `redirect` is a framework call.
- The about page (cluetrain.py:161-163) and server startup `run(...)` (cluetrain.py:166-167) are a constant page and I/O.
- The `theses` module (cluetrain.py:30) is not part of this model. Its `theses` and `languages` are parameters.
- `float()` is an abstract partial parser, so IEEE semantics are not modelled. That covers rounding, NaN, infinities and how NaN would order in the sort. Weights are not bounded to [0, 1], and the source does not bound them either.
- HTTP status codes are not modelled: the 200 for a not-found page, and the server error a raised exception turns into. A raise is a `Failure` value.
- `AcceptLanguage.HttpAcceptHeader`: the in-place `accepted.sort(...)` is modelled as reassigning the local list to its sorted value. Python's built-in sort algorithm is replaced by an insertion sort. `StablySortedUnique` shows any stable descending sort gives the same list.
