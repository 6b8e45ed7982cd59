# artlaasya core in Dafny

artlaasya is a Django application for an art gallery's catalogue. It holds artists,
genres, artworks and events. This project models the part of it that decides what a save
or a delete writes, and proves properties of that model:

- **Save and delete hooks** (module `Signals`):
  - the slug *ratchets*, which are per-key counters that give artists, artworks and
    events numbered slugs such as `jane-doe-001`;
  - the genre slug;
  - mirroring an artwork's dimensions into the other unit system;
  - the rule that an artist has at most one representative artwork;
  - deactivating an artist's artworks in cascade;
  - the choice of the uploaded file that a save or a delete removes.
- **Query layer** (module `Managers`): every queryset method (`active`, `recent`,
  `representative`, `contemporary`, `traditional`, `orderly`, `distinctly`).
- **Model declarations** (module `Models`): the records, their length limits and
  defaults, and the upload file names and paths.
- **Search helpers of the views** (module `Views`): the query tokenizer, the query
  compiler and the list merge.
- **Django version test** (module `Utils`).
- **`hexencode` template filter** (module `HexencodeTags`).

Modules `Wrappers` (Option, Result and the Python exceptions that a hook can raise) and
`Text` (Python's whitespace set, ASCII `lower`, `str(n)`, `zfill` and `strip`) hold the
shared pieces.

The hooks follow the source's own form:
- The store is the class `Signals.Gallery`. It has three ratchet tables (`map`s that
  `Reserve` updates in place) and the persisted artwork rows (an `array` that the two
  post-save loops rewrite element by element).
- Each loop method is proved equal to a function on the old rows
  (`ClearOtherRepresentatives`, `DeactivateArtworks`). The rules themselves are proved
  about those functions.
- The instance being saved is a value that the pre-save hooks take and return.

Three sources of behaviour are taken as inputs:
- `changed_fields`, from the diff mixin, is a `set<string>`.
- `get_field_diff(...)[0]` is the previous value, passed in.
- Django's `slugify` is a function parameter. The source itself takes it as the keyword
  argument `slugify=slugify`. The lemma about distinct slugs assumes only that it
  keeps different digit suffixes after one key apart.

Dimensions are integers in hundredths, which is the columns' `decimal_places=2`.
`Decimal(2.54)` and `Decimal(0.394)` are built from binary doubles that lie slightly above
2.54 and 0.394. The exact product is therefore never halfway between two hundredths. The
model rounds the product with the decimal constant to the nearest hundredth, with halfway
cases away from zero. This gives the same hundredths as the source: 10 in gives 25.40 cm,
0.75 in gives 1.91 cm and 10 cm gives 3.94 in.

## Model

| member | source | states |
|---|---|---|
| Text.StripLeft | artlaasya/views.py:88 | stripping the front keeps a suffix of the text that does not start with whitespace |
| Text.StripLeftSpaces | artlaasya/views.py:88 | every character stripped from the front is whitespace |
| Text.StripRight | artlaasya/views.py:88 | stripping the back keeps a prefix of the text that does not end with whitespace |
| Text.StripRightSpaces | artlaasya/views.py:88 | every character stripped from the back is whitespace |
| Text.Strip | artlaasya/views.py:88 | `strip()` leaves no whitespace at either end |
| Text.StripBlank | artlaasya/views.py:88 | `strip()` of all-whitespace text is "" |
| Text.StripTrimmed | artlaasya/views.py:88 | text that neither starts nor ends with whitespace is left unchanged by `strip()` |
| Signals.Suffix | artlaasya/signals.py:48 | the suffix is all digits, has at least 3 of them, is never truncated, and reads back as the counter |
| Signals.SuffixOrder | artlaasya/signals.py:45-48 | a larger counter gives a different suffix with a larger value |
| Signals.FirstSuffix | artlaasya/models.py:40-41 | a fresh ratchet (suffix 0) reserves `"001"` first |
| Signals.SlugSourcesDiffer | artlaasya/signals.py:49 | different counters give different slug texts for the same key |
| Signals.SuccessiveReservations | artlaasya/signals.py:44-49 | two reservations in a row on one key give consecutive counters and, for a slugify that keeps different digit suffixes after one key apart, different slugs |
| Signals.DigitSuffixesWithoutInjectivity | artlaasya/signals.py:49 | that premise does not ask for injectivity: a slugify that maps `A B` and `a-b` to one slug can still meet it |
| Signals.ArtistRatchetKey | artlaasya/signals.py:43 | the artist key is the lower-cased first name, a space, and the lower-cased last name |
| Signals.ArtistBudget | artlaasya/models.py:35 | 61 = 30 + 1 + 30 bounds the artist key, and 65 = 61 + 4 bounds the slug text for counters below 1000 |
| Signals.ArtworkBudget | artlaasya/models.py:172 | a title within 100 characters gives an artwork key within the ratchet's 100 |
| Signals.EventBudget | artlaasya/models.py:413-420 | a title within 128 gives a key within 128 and a slug text within 132 = 128 + 4 for counters below 1000 |
| Signals.SlugifyGenre | artlaasya/signals.py:98-102 | the genre slug becomes `slugify(lower(name))` exactly when the name changed or the slug is empty; nothing else changes and no ratchet is involved |
| Signals.RoundHalfAway | artlaasya/signals.py:139-147 | the result is within half a unit of num/den; halfway cases go away from zero |
| Signals.InchesToCentimetres | artlaasya/signals.py:139-140 | centimetres are within half a hundredth of 2.54 × inches, with ties away from zero |
| Signals.CentimetresToInches | artlaasya/signals.py:146-147 | inches are within half a hundredth of 0.394 × centimetres, with ties away from zero |
| Signals.ConversionExamples | artlaasya/signals.py:139-147 | 10 in → 25.40 cm, 5 in → 12.70 cm, 10 cm → 3.94 in, 5 cm → 1.97 in, 0.25 in → 0.64 cm, ±0.75 in → ±1.91 cm |
| Signals.CalculateArtworkDimensions | artlaasya/signals.py:129-148 | with units `I` the imperial fields copy the inputs and metric = 2.54 × input rounded, unit codes `C`/`I`; with `C` the reverse with 0.394; other units or a hook that is not due change nothing; a NULL dimension gives TypeError |
| Signals.NewArtworkDimensionsDue | artlaasya/signals.py:133-135 | an artwork with its field defaults (no dimensions, units `I`) is due for the dimension hook whatever changed, and takes the inches branch |
| Signals.ClearOtherRepresentatives | artlaasya/signals.py:156-165 | when the saved artwork is representative, no other artwork of its artist (same artist slug, different slug) stays representative; only `is_representative` changes, and only from true to false; otherwise nothing changes |
| Signals.ClearOtherRepresentativesIdempotent | artlaasya/signals.py:156-165 | applying the rule twice is applying it once |
| Signals.AtMostOneRepresentative | artlaasya/signals.py:154-165 | with unique artwork slugs, at most one artwork of the artist remains representative |
| Signals.DeactivateArtworks | artlaasya/signals.py:58-67 | when `is_active` changed and is now false, every artwork of the artist is inactive and nothing else changes; otherwise nothing changes |
| Signals.DeactivateArtworksIdempotent | artlaasya/signals.py:58-67 | running the cascade twice is running it once |
| Signals.ArtistReverseAccessor | artlaasya/models.py:238 | an Artist has exactly the reverse relations its foreign keys declare; other names raise AttributeError |
| Signals.DeactivateArtworksAsWritten | artlaasya/signals.py:58-61 | the cascade as spelt is a no-op when it is not due |
| Signals.CascadeAsWrittenRaises | artlaasya/signals.py:61 | whenever the cascade is due, the spelt accessor raises AttributeError, while `artwork_artist` exists |
| Signals.ReplacedFileToDelete | artlaasya/signals.py:75-80 | a file is deleted exactly when the file field changed and had a previous file, and it is that previous file; `delete__event_image` (artlaasya/signals.py:191-196) is the same rule with the field `image` in place of `biography` |
| Signals.ArtistFileToDelete | artlaasya/signals.py:88-89 | deleting an artist removes its biography file exactly when it has one |
| Signals.EventFileToDelete | artlaasya/signals.py:204 | deleting an event removes its image; with no image the path lookup raises ValueError |
| Signals.Gallery.Reserve | artlaasya/signals.py:44-47 | the key's counter (0 when the row is new) goes up by exactly 1 and is returned; other keys and the other tables are unchanged |
| Signals.Gallery.SlugifyArtist | artlaasya/signals.py:39-49 | when neither name changed and the slug is set, the artist and every ratchet are unchanged; otherwise the key's counter goes up by 1 and slug = slugify(key + "-" + zfill(counter, 3)) |
| Signals.Gallery.NameSlugifyArtwork | artlaasya/signals.py:112-121 | fires exactly when `title` changed or `name` is empty; the key is lower(title), name = title + "-" + suffix keeps the title's case, slug = slugify(name) |
| Signals.Gallery.SlugifyEvent | artlaasya/signals.py:174-183 | fires exactly when `title` changed or the title is empty; slug = slugify(lower(title) + "-" + suffix) |
| Signals.Gallery.EnsureArtworkUniquelyRepresentative | artlaasya/signals.py:156-165 | the artwork rows after the loop are `ClearOtherRepresentatives` of the rows before it |
| Signals.Gallery.DeactivateArtworksOfInactiveArtist | artlaasya/signals.py:58-67 | the artwork rows after the loop are `DeactivateArtworks` of the rows before it, over the relation `artwork_artist` |
| Models.NewArtwork | artlaasya/models.py:224-335 | a new artwork is active, not representative, style `TRAD`, status `AVAL`, price displayed, units `I` with derived codes `C` and `I`, and has no dimensions yet |
| Models.LastIndexOf | artlaasya/models.py:65 | the index of the last occurrence of a character, or -1 |
| Models.LastIndexOfAppend | artlaasya/models.py:65 | appending text without the character keeps its last occurrence |
| Models.Extension | artlaasya/models.py:65 | the extension is "" or a suffix that starts with its only dot and has no `/`; it is non-empty exactly when the final component has a dot preceded by a non-dot, and then it starts at the last dot |
| Models.SluggifiedFilename | artlaasya/models.py:64-66 | the upload name is the slug followed by exactly the extension `splitext` gives for the uploaded name (a `.` and no further `.` or `/`, or nothing); nothing of the base name survives |
| Models.JoinBasename | artlaasya/models.py:71 | joining a root and a name without `/` gives the root and the name, with one `/` between them unless the root is empty or already ends in `/`; the final component is the name |
| Models.UploadFilepath | artlaasya/models.py:69-71 | the upload path is the root followed directly by `slug + extension`, or by one `/` and then `slug + extension`, the first exactly when the root is empty or ends in `/`; `Event.get_event_image_filepath` (artlaasya/models.py:408-410) is the same construction under the event image root |
| Models.LeadingDotIsNoExtension | artlaasya/models.py:404 | a file name whose only dot is its first character has no extension |
| Managers.RecentCutoff | artlaasya/managers.py:12-13 | `DATE` is 30 days before the import-time clock reading |
| Managers.RecentWindow | artlaasya/managers.py:21-22 | with `DATE` taken from the import-time clock, `recent()` keeps exactly the artists and artworks created at most 30 days before that reading; `Artwork.recent()` (artlaasya/managers.py:85-86) is the same rule |
| Managers.Filter | artlaasya/managers.py:18-19 | `filter` keeps exactly the rows satisfying the condition and never more rows than it had |
| Managers.FilterMultiset | artlaasya/managers.py:18-19 | each kept row is kept as often as it occurs |
| Managers.FilterConcat | artlaasya/managers.py:82-101 | filtering distributes over concatenation, so kept rows remain in their order |
| Managers.FilterIdempotent | artlaasya/managers.py:82-101 | filtering twice by one condition is filtering once |
| Managers.FilterCommute | artlaasya/managers.py:82-101 | two filters may be chained in either order |
| Managers.FilterPartition | artlaasya/managers.py:56-60 | a `filter` and the `exclude` of the same condition split the rows between them |
| Managers.ArtistsActive | artlaasya/managers.py:18-19 | exactly the active artists |
| Managers.ArtistsRecent | artlaasya/managers.py:21-22 | exactly the artists created at or after the cutoff |
| Managers.ArtistsOrderly | artlaasya/managers.py:24-25 | a permutation sorted ascending by (last name, first name) |
| Managers.ArtistsDistinctly | artlaasya/managers.py:27-28 | at most one artist per name pair, every input pair kept, only input rows |
| Managers.GenresContemporary | artlaasya/managers.py:56-57 | exactly the genres named `Contemporary` |
| Managers.GenresTraditional | artlaasya/managers.py:59-60 | exactly the genres not named `Contemporary` |
| Managers.GenresPartition | artlaasya/managers.py:56-60 | the two genre sets split the input |
| Managers.ArtworksActive | artlaasya/managers.py:82-83 | exactly the active artworks |
| Managers.ArtworksRecent | artlaasya/managers.py:85-86 | exactly the artworks created at or after the cutoff |
| Managers.ArtworksRepresentative | artlaasya/managers.py:88-89 | exactly the representative artworks |
| Managers.ArtworksOrderly | artlaasya/managers.py:91-92 | a permutation sorted by the artist's (last name, first name) |
| Managers.ArtworksDistinctly | artlaasya/managers.py:94-95 | at most one artwork per artist name pair, every input pair kept, only input rows |
| Managers.ArtworksContemporary | artlaasya/managers.py:97-98 | exactly the artworks whose genre is named `Contemporary` |
| Managers.ArtworksTraditional | artlaasya/managers.py:100-101 | exactly the artworks whose genre is not named `Contemporary` |
| Managers.ArtworksPartition | artlaasya/managers.py:97-101 | the contemporary and traditional artworks split the input |
| Managers.ArtworkFiltersIdempotent | artlaasya/managers.py:82-101 | every artwork filter is idempotent |
| Managers.ArtworkFiltersCommute | artlaasya/managers.py:82-101 | every pair of artwork filters commutes, and chaining `contemporary()` with `traditional()` in either order leaves no artwork |
| Managers.EventsActive | artlaasya/managers.py:135-136 | exactly the active events |
| Managers.StrLeTotal | artlaasya/managers.py:25 | the string order is total |
| Managers.StrLeAntisymmetric | artlaasya/managers.py:25 | the string order is antisymmetric |
| Managers.StrLeTransitive | artlaasya/managers.py:25 | the string order is transitive |
| Managers.KeyLeTotal | artlaasya/managers.py:25 | the (last, first) order is total |
| Managers.KeyLeTransitive | artlaasya/managers.py:25 | the (last, first) order is transitive |
| Managers.InsertByName | artlaasya/managers.py:25 | inserting into a sorted list keeps it sorted and adds exactly that element |
| Managers.SortByName | artlaasya/managers.py:24-25 | the result is a sorted permutation of the input |
| Managers.DistinctBy | artlaasya/managers.py:27-28 | keys in the result are unique, every input key is present, every element comes from the input |
| Views.SpaceRunBounds | artlaasya/views.py:87 | the whitespace run at the front is all whitespace and stops at a non-whitespace character or the end |
| Views.CollapseSpaces | artlaasya/views.py:87 | `sub(r'\s{2,}', ' ', ...)` is empty exactly when its input is, and keeps a leading non-whitespace character |
| Views.CollapseKeepsNonSpaces | artlaasya/views.py:87 | collapsing keeps every non-whitespace character, in order, and adds none |
| Views.CollapseRun | artlaasya/views.py:87 | a whole run of two or more whitespace characters becomes one space |
| Views.CollapseLoneSpace | artlaasya/views.py:87 | a single whitespace character between non-whitespace text is kept as it is |
| Views.CollapseWordPrefix | artlaasya/views.py:87 | text without whitespace in front of the rest is kept unchanged |
| Views.CollapseWordRun | artlaasya/views.py:87 | a word followed by a run of two or more whitespace characters becomes the word and one space, so `a  b` gives `a b` |
| Views.CollapseNoPairs | artlaasya/views.py:87 | after collapsing, no two whitespace characters are adjacent |
| Views.CollapseLast | artlaasya/views.py:87 | a final non-whitespace character stays final |
| Views.CollapseNoSpace | artlaasya/views.py:87 | text without whitespace is unchanged |
| Views.NormalizeTermFacts | artlaasya/views.py:88 | a normalised match has no whitespace at either end and no two whitespace characters in a row; a non-empty match without whitespace is its own term |
| Views.FindTermsNonEmpty | artlaasya/views.py:86 | every match of the term pattern is non-empty |
| Views.NormalizeQueryTerms | artlaasya/views.py:85-88 | every term `normalize_query` returns is normalised |
| Views.NormalizeBlank | artlaasya/views.py:85-88 | an all-whitespace query has no matches and no terms |
| Views.SkipSpace | artlaasya/views.py:86 | whitespace before a match is skipped |
| Views.PhraseStep | artlaasya/views.py:86 | at a quote closed by a later quote with at least one character between, the match is the inner text and scanning resumes after the closing quote |
| Views.WordStep | artlaasya/views.py:86 | at any other non-whitespace character, the match is the whole run of non-whitespace, quotes included |
| Views.NonSpaceRunOfWord | artlaasya/views.py:86 | an unquoted word followed by a space is the whole non-whitespace run |
| Views.FindTermThenRest | artlaasya/views.py:86 | a well-formed word or quoted phrase followed by a space is matched as exactly its text, and matching continues after it |
| Views.FindRendered | artlaasya/views.py:86 | well-formed terms typed with spaces are matched back as their texts, in order |
| Views.NormalizeRendered | artlaasya/views.py:85-88 | words and quoted phrases typed with spaces come back in order: words unchanged, phrases stripped and collapsed |
| Views.BlankPhraseGivesEmptyTerm | artlaasya/views.py:86-88 | a quoted phrase of whitespace only gives the empty term |
| Views.NormalizeTwoWords | artlaasya/views.py:85-88 | two words typed `a b ` give exactly the terms `a` and `b` |
| Views.FieldsQuery | artlaasya/views.py:98-104 | the OR of one test per field is absent exactly when there are no fields |
| Views.FieldsQueryStep | artlaasya/views.py:100-104 | one more field adds its test as the right operand of an OR; the first field's test stands alone |
| Views.FieldsQueryMatches | artlaasya/views.py:98-104 | a row satisfies a term's OR exactly when some field contains the term, ignoring case |
| Views.GetQuery | artlaasya/views.py:92-108 | None exactly when there are no terms or no fields; otherwise the left-nested OR over the fields for the first term, which a row satisfies exactly when some field contains that term |
| Views.TermsQuery | artlaasya/views.py:96 | the AND over the terms is absent exactly when there are no terms or no fields |
| Views.TermsQueryMatches | artlaasya/views.py:96 | a row satisfies the AND exactly when every term is found in some field |
| Views.GetQueryAllTerms | artlaasya/views.py:96-108 | None exactly when there are no terms or fields; otherwise a row matches exactly when every term is in some field |
| Views.IContainsSelf | artlaasya/views.py:102 | every text contains itself, ignoring case |
| Views.ContainsAB | artlaasya/views.py:106-107 | `a` and `b` are well-formed words, and `a` contains `a` but not `b` |
| Views.GetQueryIgnoresLaterTerms | artlaasya/views.py:106-107 | for a query of two words `a b` where `a` does not contain `b`, an artwork titled `a` satisfies the first term's group over `title`, which is what `get_query` returns, but not the query over every term |
| Views.TwoTermsOneField | artlaasya/views.py:98-104 | over one field, a term's group is that field's test, and two terms give the AND of their tests |
| Views.InterleaveAt | artlaasya/views.py:120-121 | the interleaving holds the first list at even and the second at odd positions |
| Views.InterleaveMultiset | artlaasya/views.py:120-121 | the interleaving holds exactly the elements of both lists |
| Views.MergeLists | artlaasya/views.py:112-123 | length is the sum; `r[2i]` = list1[i] and `r[2i+1]` = list2[i] below the shorter length, then `list1[num:]` and `list2[num:]`, at most one non-empty; the multiset union of the inputs; merging with an empty list gives the other list |
| Utils.Split | artlaasya/utils.py:14 | `split('.')` gives at least one piece, no piece has a dot, and joining them gives the string back |
| Utils.SplitJoin | artlaasya/utils.py:14 | splitting a join of dot-free pieces gives the pieces back |
| Utils.ParseDigits | artlaasya/utils.py:15 | an unsigned literal is read exactly when it is a non-empty run of digits |
| Utils.ParseDigitRun | artlaasya/utils.py:15 | `int` reads a run of digits as its value |
| Utils.ParseMinusDigitRun | artlaasya/utils.py:15 | `int` reads a minus sign and a run of digits as the negated value |
| Utils.ParseDecimalString | artlaasya/utils.py:15 | `int(str(n)) == n` |
| Utils.ParseNegativeDecimalString | artlaasya/utils.py:15 | `int("-" + str(n)) == -n` |
| Utils.ParseRejectsDot | artlaasya/utils.py:15 | a piece with a dot inside, such as `1.5`, is a ValueError for `int` |
| Utils.CompareAsWritten | artlaasya/utils.py:15 | a ValueError exactly when the first piece is not an integer, or it reaches `major` and the second is not (the `and` short-circuits) |
| Utils.IsDjangoVersionGreaterThan | artlaasya/utils.py:9-15 | fewer than two pieces is a ValueError; every failure is a ValueError |
| Utils.RenderedVersion | artlaasya/utils.py:14 | the version `ma.mi[.rest]` splits back into its pieces |
| Utils.CompareRendered | artlaasya/utils.py:15 | for the numbers `ma` and `mi` written out, the result is `ma >= major and mi > minor` |
| Utils.VersionComparedPerComponent | artlaasya/utils.py:14-15 | for `ma.mi[.rest]` the result is `ma >= major and mi > minor` |
| Utils.OnlyFirstTwoComponentsRead | artlaasya/utils.py:14 | pieces after the second do not affect the result |
| Utils.DefaultBoundsExamples | artlaasya/utils.py:9-15 | with (1, 4): `1.5` is true, `1.4` and `2.0` are false |
| Utils.CompareAfter | artlaasya/utils.py:10-11 | the corrected comparison is a ValueError exactly when either piece is not an integer |
| Utils.IsVersionAfter | artlaasya/utils.py:10-11 | the corrected test fails on fewer than two pieces, and only with ValueError |
| Utils.CompareAfterRendered | artlaasya/utils.py:10-11 | for the numbers written out, the corrected comparison is the lexicographic order on (major, minor) |
| Utils.VersionAfterIsLexicographic | artlaasya/utils.py:10-11 | the corrected test on `ma.mi[.rest]` is the lexicographic order on (major, minor) |
| Utils.MajorReleaseAfter | artlaasya/utils.py:10-11 | under the corrected test, version 2.0 is after 1.4 |
| HexencodeTags.Utf8Char | artlaasya/templatetags/hexencode_tags.py:14 | a character has 1 byte below 0x80, 2 below 0x800, 3 below 0x10000 and 4 otherwise; the lead byte is the code itself, or in 0xC0-0xDF, 0xE0-0xEF or 0xF0-0xF7 by length; every later byte is a continuation byte (0x80-0xBF); and the lead byte's payload followed by 6 bits from each continuation byte gives the code back |
| HexencodeTags.Hexlify | artlaasya/templatetags/hexencode_tags.py:14 | two digits per byte, in order: the first is the lowercase hex digit of the byte's high nibble, the second of its low nibble; no digit is `A`-`F` |
| HexencodeTags.HexEncodeChar | artlaasya/templatetags/hexencode_tags.py:14 | one character gives a single `%` followed by, for each of its UTF-8 bytes in order, the lowercase hex digits of its high and low nibble |
| HexencodeTags.HexEncode | artlaasya/templatetags/hexencode_tags.py:13-15 | empty input gives empty output; what the output holds is stated by HexEncodeCons and HexEncodeConcat below |
| HexencodeTags.HexEncodeCons | artlaasya/templatetags/hexencode_tags.py:14-15 | the output for a character followed by more text is that character's block followed by the output for the rest |
| HexencodeTags.HexEncodeConcat | artlaasya/templatetags/hexencode_tags.py:14-15 | the output is the in-order concatenation of the characters' blocks |
| HexencodeTags.HexEncodeAscii | artlaasya/templatetags/hexencode_tags.py:14 | ASCII input of length n gives 3n characters: `%` and the two lowercase hex digits of each code |
| HexencodeTags.AsciiBlock | artlaasya/templatetags/hexencode_tags.py:14 | an ASCII character gives `%` and the two lowercase hex digits of its code |
| HexencodeTags.NonAsciiBlock | artlaasya/templatetags/hexencode_tags.py:14 | a non-ASCII character with k bytes gives one `%` and 2k digits |
| HexencodeTags.HexValueOfDigit | artlaasya/templatetags/hexencode_tags.py:14 | reading a written hex digit gives its value back |
| HexencodeTags.AsciiRoundTrip | artlaasya/templatetags/hexencode_tags.py:14-15 | percent-decoding the output of ASCII input gives back its bytes, one per character |
| HexencodeTags.PercentBytesRoundTrip | artlaasya/templatetags/hexencode_tags.py:14-15 | percent-decoding per-byte encoding gives back the bytes |
| HexencodeTags.HexEncodeBytes | artlaasya/templatetags/hexencode_tags.py:14-15 | the corrected encoder decodes to the UTF-8 of every input and agrees with `hexencode` on ASCII |
| HexencodeTags.AsciiAgree | artlaasya/templatetags/hexencode_tags.py:14-15 | on ASCII input the per-byte and per-character encoders agree |
| HexencodeTags.NonAsciiNotDecodable | artlaasya/templatetags/hexencode_tags.py:14 | `é` is written `%c3a9`, which decodes to C3 `a` `9` instead of C3 A9 |
| HexencodeTags.PercentDecodePlain | artlaasya/templatetags/hexencode_tags.py:14-15 | ASCII text without `%` decodes to one byte per character |
| HexencodeTags.NonAsciiNeverDecodes | artlaasya/templatetags/hexencode_tags.py:14 | for every non-ASCII character c with k UTF-8 bytes, decoding `hexencode(c)` gives the right first byte but 2k-1 bytes in all, so never the UTF-8 of c |

## Left out

- Instances being saved are values that a hook takes and returns. The in-place update of the Python object, aliasing between the instance and other references, and the fields already assigned before a TypeError aborts a save are not modelled.
- Signals.Gallery.DeactivateArtworksOfInactiveArtist and Signals.Gallery.EnsureArtworkUniquelyRepresentative: each row's `save(update_fields=...)` is the array write. The choice between `save(update_fields=...)` and `save()` by `DJANGO_SAVE_UPDATEABLE` is not modelled; both branches write the flag. Each row's `save` also fires the Artwork `pre_save` hooks and the `post_save` representative hook again. Those nested hook runs are not modelled. They may fill in the row's name or dimensions in memory, but with `update_fields` only the named flag is written, and the representative rule does nothing for a row that is not representative. Under the plain `save()` branch the filled-in values would be written too. In either branch, a row that is due dimensions but has none would raise the TypeError stated by Signals.CalculateArtworkDimensions and end the loop early.
- Django's `slugify` is a parameter of the hooks, because it is library code.
- The diff mixin's implementation is provided by another module and is not part of this model. `changed_fields` and the previous value from `get_field_diff` are inputs.
- Removing a file (`delete_uploaded_file`, `os.remove`) is filesystem I/O. The delete hooks return the stored file name to remove. Resolving it to a storage path through `.path` is left out.
- The ratchet's `get_or_create` followed by `save` is not transactional. Concurrent saves are not modelled; reservations are sequential.
- Signals.InchesToCentimetres and Signals.CentimetresToInches use the decimal constants with halfway cases away from zero. This equals rounding the product with the binary-double constants, but that equality is argued in prose, not proved. Python 2's `round`, and the columns' `max_digits=10` overflow check at save time, are left out.
- Managers.ArtistsRecent and Managers.ArtworksRecent take the cutoff as a parameter. `timezone.now()` at import is a clock reading.
- Managers.ArtistsOrderly and Managers.ArtworksOrderly order strings by code point. Database collation is not modelled, and the order of rows with equal names (which the database leaves open) is the input order.
- Managers.ArtistsDistinctly and Managers.ArtworksDistinctly keep the first row of each name pair. PostgreSQL's `DISTINCT ON` keeps the first row in the query's order, which depends on the ordering it is combined with.
- `related_artwork` (artlaasya/managers.py:15-16) is not modelled. It passes the reverse accessor `artwork_artist` to `select_related`, which the Django releases this code targets ignore, so neither the rows nor how they are fetched change. From Django 1.8 on, that name raises FieldError instead, and the manager's `get_query_set()` (artlaasya/managers.py:38) no longer exists. Neither is the managers' delegation to their querysets.
- Signals.SuccessiveReservations: "different slugs" rests on the premise `KeepsDigitSuffixes`, that slugify keeps two different digit runs after the same key and dash apart. Django's `slugify` is not injective, since `A B` and `a-b` give one slug. It does keep the digits after the last dash, but it is library code and that is argued here, not proved.
- Text.Lower, and through it `icontains` and the ratchet keys, lower-cases only ASCII letters. Python's and the database's Unicode case mapping are not modelled.
- Utils.ParseInt accepts ASCII digits only. `int()`'s underscores and non-ASCII decimal digits are not modelled. The version string is a parameter in place of `django.get_version()`.
- Views.Matches reads a row as a map from column name to text. SQL `LIKE` escaping and NULL columns are not modelled.
- Text.IsSpace is Python 3's whitespace set, which `strip()` also uses. Under Python 2, `\S` and `\s{2,}` in the query patterns (artlaasya/views.py:84-88) match only ASCII whitespace unless the pattern is compiled with `re.UNICODE`, so a non-ASCII space such as U+00A0 counts as part of a term there; that difference is not modelled.
- Views.MergeLists requires an element type with a default value, because the result is preallocated as the source's `[None] * (num * 2)` is.
- Models.NewArtwork states the Artwork defaults only. Defaults of the other records (for example the event dates taken from `date.today()` at import) are not modelled.
- The page handlers, sitemaps and template rendering in `views.py`, including `shuffle`, which is randomness, are not modelled. Neither are `menu_tags.py`, which composes the manager queries above, or `admin.py`, `urls.py` and `apps.py`, which are framework wiring. The same goes for `get_absolute_url`, `__str__` beyond the artist key, and the deepzoom base model of Artwork.
- The Event hook's guard is modelled as written: it tests the title, not the slug. An event whose title is unchanged and whose slug is empty therefore gets no slug.

## Findings

| source | as written | input that shows it | evidently intended | confidence | as-written member | corrected member |
|---|---|---|---|---|---|---|
| artlaasya/signals.py:61 | the cascade reads `instance.artworks_authored`, but the foreign key declares the reverse relation `artwork_artist` (artlaasya/models.py:238) | any artist saved with `is_active` changed to false | deactivate every artwork of the artist through `artwork_artist` | high, not executed | Signals.CascadeAsWrittenRaises | Signals.DeactivateArtworks |
| artlaasya/views.py:106-107 | only the first term's OR group becomes the query | query `a b` over `title`: an artwork titled `a` matches | AND of every term's OR group, as "every search term" says (artlaasya/views.py:96) | medium, not executed | Views.GetQueryIgnoresLaterTerms | Views.GetQueryAllTerms |
| artlaasya/utils.py:15 | the major and minor numbers are each compared with their own bound | version `2.0` with bounds (1, 4) gives false | lexicographic comparison of (major, minor), as "greater than" says | high, not executed | Utils.DefaultBoundsExamples | Utils.IsVersionAfter |
| artlaasya/templatetags/hexencode_tags.py:14 | one `%` per character, followed by the hex of all its UTF-8 bytes | `é` gives `%c3a9`, which percent-decodes to C3 `a` `9` | one `%` per UTF-8 byte (`%c3%a9`) | medium, not executed | HexencodeTags.NonAsciiNeverDecodes | HexencodeTags.HexEncodeBytes |
