# mtg card store and deck importer, modelled in Dafny

This project models the sequential core of the Go repository `broady/mtg`:

- **The card query language** of package `cards`. `ParseQuery` routes each
  white-space separated token of a query to the name, rule, type or colour
  group. `Query.Match` tests a card against the groups. `Cards.Query`
  collects the matching cards of a catalog, one per name.
- **The normalized-name index** of package `cards`. `normalizeCardName`
  rewrites "Æ" and "’". `generateNormalized` files every card under its
  normalized name and, for split cards, under its joined component names.
  `LookupNormalized` reads that index.
- **The `Store` life cycle** as a state machine. It covers `NewStore`,
  `Close`, the outcomes of `maybeUpdate`, the `watch` loop, the `Cards`
  ready gate and the `WaitForUpdate` handles.
- **The deck importer** `tappedout.DeckFromURL`, without the network. It
  covers the URL check, `csvToMapSlice`, the header and empty-deck checks,
  the conversion of rows into board entries, the scan of the markdown
  "Commander" section, and the marking of commanders.

Modules:

| module | file | models |
|---|---|---|
| `Wrappers` | wrappers.dfy | `Option` and `Result` |
| `Strings` | strings.dfy | the parts of Go's `strings` and `unicode` the core uses: `Fields`, `ToLower`, `Contains`, `HasPrefix`, `Join`, `Replace` |
| `Decimal` | decimal.dfy | `strconv.Atoi` on a 64-bit platform |
| `Cards` | cards.dfy | `Card`, the `Cards` catalog, name normalization and lookup, `truncate` |
| `CardQuery` | query.dfy | cards/query.go |
| `CardStore` | store.dfy | the `Store` state machine |
| `Tappedout` | tappedout.dfy | tappedout/tappedout.go, `DeckFromURL` |

Go's map iteration order is not fixed. Every loop over a map is therefore
modelled as a walk over a given key sequence `order`. The lemmas assume only
that `order` lists every key once (`Cards.Enumerates`). Which card wins a
collision in the normalized index is deliberately left open.

Two behaviours of the code are worth stating up front:

- `maybeUpdate` returns early on 304 and then treats every status other
  than 200 as a failed refresh (cards/cards.go:194-198), so a 204 fails
  too (`CardStore.OtherSuccessStatusFails`).
- The `WaitForUpdate` doc comment and its sample loop
  (cards/cards.go:125-135) promise that the handle fires at the next
  successful refresh. The code closes the newly made channel instead; see
  "Findings". The rest of the model uses the corrected `CardStore.Publish`.

## Model

| member | source | states |
|---|---|---|
| Strings.ReplaceCharRemoves | cards/cards.go:91-92 | after replacing every occurrence of a character by a text that lacks it, the character no longer occurs |
| Strings.ReplaceKeepsAbsent | cards/cards.go:91-92 | a replacement does not introduce a character that neither the input nor the replacement holds |
| Strings.ReplaceAbsentIdentity | cards/cards.go:91-92 | replacing a character that does not occur returns the input unchanged |
| Strings.ReplaceCharAppend | cards/cards.go:91-92 | replacing a one-character pattern in a concatenation is replacing it in each piece, so no match is lost or invented at the seam |
| Strings.ReplaceCharSingle | cards/cards.go:91-92 | the pattern character alone becomes the replacement text, and any other character stays; with `Strings.ReplaceCharAppend` this pins every output character |
| Strings.ReplaceAll | cards/cards.go:91-92 | `strings.Replace` with n = -1, left to right and non-overlapping; `Strings.ReplaceCharSingle` and `Strings.ReplaceCharAppend` state what each match becomes, and the lemmas above state what it removes and keeps |
| Strings.TokenLength | cards/query.go:94 | the leading run measured for a field is free of white space and ends at white space or at the end of the string |
| Strings.Fields | cards/query.go:94 | `strings.Fields` with the white-space set of `unicode.IsSpace`; its properties are the three lemmas below |
| Strings.FieldsAreTokens | cards/query.go:94 | every field that `strings.Fields` returns is non-empty and free of white space |
| Strings.FieldsEmptyIffBlank | cards/query.go:94 | a string has no fields exactly when it is entirely white space |
| Strings.FieldsOfJoin | cards/query.go:94 | splitting space-joined tokens gives back exactly those tokens, in order |
| Strings.Lower | cards/query.go:98-116 | `strings.ToLower` on ASCII letters; what the lowercasing means for queries is stated by the CardQuery lemmas |
| Strings.Contains | cards/query.go:17-37 | `strings.Contains`: some position where the pattern occurs; used by `CardQuery.Satisfies` |
| Strings.HasPrefix | cards/query.go:95 | `strings.HasPrefix`: the pattern is the leading part; used by `CardQuery.Classify` and `Tappedout.CheckDeckUrl` |
| Strings.Join | cards/cards.go:82-84 | `strings.Join`; `Strings.FieldsOfJoin` and `Cards.LookupBeckCall` state what it produces |
| Decimal.Atoi | tappedout/tappedout.go:161-164 | a parsed quantity lies in the 64-bit range; the empty string and strings without a digit are rejected |
| Decimal.AtoiShowNat | tappedout/tappedout.go:161-164 | the decimal rendering of any n up to 2^63-1 parses back to n |
| Decimal.AtoiShowNegative | tappedout/tappedout.go:161-164 | a minus sign before a rendering of n up to 2^63 parses to -n |
| Decimal.AtoiPlusSign | tappedout/tappedout.go:161-164 | a leading plus sign is accepted and ignored |
| Decimal.AtoiOverflow | tappedout/tappedout.go:161-164 | 2^63 is rejected as out of range |
| Cards.NormalizeCardName | cards/cards.go:90-93 | the normalized name contains neither "Æ" nor "’"; what replaces them is stated by `Cards.NormalizeChar` and `Cards.NormalizeAppend` |
| Cards.NormalizePlainName | cards/cards.go:90-93 | a name with neither character is its own normalization |
| Cards.NormalizeIdempotent | cards/cards.go:90-93 | normalizing twice gives the same as normalizing once |
| Cards.NormalizeAppend | cards/cards.go:90-93 | normalizing a concatenation normalizes each piece |
| Cards.NormalizeChar | cards/cards.go:90-93 | "Æ" becomes "Ae", "’" becomes "'", and every other character is kept |
| Cards.NormalizeAround | cards/cards.go:90-93 | a name split into three pieces is normalized piece by piece |
| Cards.NameKeySpellings | cards/cards.go:90-93 | a name typed with "Ae" for "Æ", or "'" for "’", gets the same index key |
| Cards.IndexCard | cards/cards.go:81-86 | one loop iteration adds exactly the card's keys, files the card under each, and leaves every other key's card alone |
| Cards.IndexKey | cards/cards.go:80-87 | the index after visiting one catalog key holds the earlier keys plus that card's keys, with that card winning its own keys |
| Cards.GenerateNormalized | cards/cards.go:79-88 | `generateNormalized` over the catalog keys in a given order; its contract is `Cards.GenerateNormalizedAt` and `Cards.GenerateNormalizedSpec` |
| Cards.GenerateNormalizedAt | cards/cards.go:79-88 | a key is in the index exactly when some visited card claims it, and its value is a catalog card that claims it |
| Cards.GenerateNormalizedSpec | cards/cards.go:79-88 | the same, for every key at once |
| Cards.NewCatalog | cards/cards.go:207-215 | the catalog a successful refresh builds: the decoded map plus its normalized index; `Cards.LookupInCatalog` states what lookups in it return |
| Cards.NameKey | cards/cards.go:74 | the lookup key: the normalized name, lowercased; `Cards.BeckCallNameKeys` computes it for the doc-comment example |
| Cards.LookupNormalized | cards/cards.go:73-77 | `LookupNormalized`, with `None` for nil; its contract is `Cards.LookupInCatalog` and the lookup lemmas below |
| Cards.LookupSpellings | cards/cards.go:73-77 | looking up a name typed with "Ae" or "'" finds what the spelling with "Æ" or "’" finds |
| Cards.LookupInCatalog | cards/cards.go:73-77 | a lookup finds nothing exactly when no card claims the name's key; otherwise it finds a catalog card that claims the key |
| Cards.LookupSoleClaimant | cards/cards.go:73-88 | a card whose key no other card claims is found under any name with that key |
| Cards.LookupOwnName | cards/cards.go:73-88 | a card is found under its own name unless another card claims the same key |
| Cards.LookupBeckCall | cards/cards.go:73-77 | for the split card "Beck"/"Call", both "Beck // Call" and "beck & CALL" find that card, provided no other card claims those keys |
| Cards.Truncate | cards/cards.go:235-240 | the result is the prefix of length min(len(b), n), and b itself when len(b) <= n |
| CardQuery.ColorEntriesSpec | cards/query.go:101-114 | a colour token adds one entry per valid letter of its suffix, in order, with a "!" prefix when negated |
| CardQuery.Classify | cards/query.go:95-116 | the case-sensitive prefix switch of `ParseQuery`; `CardQuery.SelectPartition` and `CardQuery.UpperCasePrefixIsName` state its effect |
| CardQuery.ValidColor | cards/query.go:122-128 | `validColor`: the letters w, u, b, r, g and m; `CardQuery.ValidLettersKeepsValid` states its use |
| CardQuery.AddToken | cards/query.go:95-117 | one iteration of the token loop; `CardQuery.AddColorSuffix` and `CardQuery.AddTypeToken` state its effect |
| CardQuery.ParseTokens | cards/query.go:94-118 | the token loop; its contract is the four group lemmas `ParseNameGroup`, `ParseRuleGroup`, `ParseTypeGroup` and `ParseColorGroup` |
| CardQuery.ParseQuery | cards/query.go:92-120 | `ParseQuery`: the fields of the query, routed in order; `CardQuery.BlankQueryMatchesAll` and the query examples below state its results |
| CardQuery.ValidLetters | cards/query.go:122-128 | the letters kept from a colour suffix are all valid colour letters |
| CardQuery.ValidLettersKeepsValid | cards/query.go:102-107 | every valid colour letter of the suffix is kept, as often as it occurs, and every other character is dropped |
| CardQuery.SelectPartition | cards/query.go:94-117 | the five prefix cases together hold as many tokens as the query has, so each token is routed to exactly one case |
| CardQuery.ParseNameGroup | cards/query.go:115-116 | the name group is the lowercased name tokens, in query order |
| CardQuery.ParseRuleGroup | cards/query.go:97-98 | the rule group is the lowercased remainders of the "o:" tokens, in query order |
| CardQuery.ParseTypeGroup | cards/query.go:99-100 | the type group is the lowercased remainders of the "t:" tokens, in query order |
| CardQuery.ParseColorGroup | cards/query.go:101-114 | the colour group is the entries of the "c:" and "c!" tokens, each token's lowercased suffix read as colour letters, negated for "c!", in query order; other tokens add none |
| CardQuery.ParsedColorsWellFormed | cards/query.go:101-114 | every colour entry is one valid letter, possibly preceded by "!" |
| CardQuery.ShortColor | cards/query.go:76-90 | the short form is never "m", and it is empty exactly for names outside the five colours |
| CardQuery.ShortColorInverse | cards/query.go:76-90 | the short form of a name is letter x exactly when the name is x's colour |
| CardQuery.ColorHolds | cards/query.go:38-71 | one colour entry against a card; `CardQuery.ColorLetterSemantics` and `CardQuery.MulticolorSemantics` state what it means |
| CardQuery.Satisfies | cards/query.go:17-73 | the declarative meaning of `Match`: every name, rule and type token is a substring of the lowercased field and every colour entry holds; `CardQuery.Match` is proved equal to it |
| CardQuery.Match | cards/query.go:17-74 | the match succeeds exactly when every name, rule and type token occurs in the lowercased field and every colour predicate holds |
| CardQuery.ColorLetterSemantics | cards/query.go:57-70 | for a letter other than "m", "x" holds exactly when the card has that colour, and "!x" exactly when it lacks it, so colourless cards pass "!x" |
| CardQuery.MulticolorSemantics | cards/query.go:48-70 | "m" holds exactly for cards with more than one colour, and "!m" exactly for cards with at most one |
| CardQuery.ColorTokenRequiresAll | cards/query.go:101-107 | the entries of one "c:" token are separate requirements: the card needs every listed colour |
| CardQuery.BlankQueryMatchesAll | cards/query.go:92-119 | a blank query parses to four empty groups and matches every card |
| CardQuery.UpperCasePrefixIsName | cards/query.go:95-116 | "T:" followed by text is a name token: it asks for "t:" and the lowercased text in the card's name and nothing of the type line |
| CardQuery.ColorTypeQuery | cards/query.go:92-120 | "c:<letters> t:<text>" holds exactly for cards with every listed colour whose lowercased type line contains the lowercased text |
| CardQuery.NegatedColorQuery | cards/query.go:108-114 | "c!x" parses to the single entry "!x" and matches exactly the cards without x's colour |
| CardQuery.SingleNameToken | cards/query.go:115-116 | a query of one plain word matches exactly the cards whose lowercased name contains the lowercased word |
| CardQuery.ShockMatches | cards/query.go:17-24 | the query "shock" matches a card named "Shock" |
| CardQuery.QueryScan | cards/query.go:133-139 | the scan keeps only catalog cards that match and whose names are new, and keeps no two cards with the same name |
| CardQuery.QueryScanComplete | cards/query.go:134-138 | every matching card in the walk whose name was not already seen has its name among the results |
| CardQuery.QueryCards | cards/query.go:130-141 | the error is always nil |
| CardQuery.QueryCardsSpec | cards/query.go:130-141 | the results are matching catalog cards with distinct names, and every matching name has a card among them |
| CardStore.NewStore | cards/cards.go:50-60 | a new store is not ready, not closed, has no etag and no cards, and refreshes hourly |
| CardStore.Close | cards/cards.go:114-123 | the first close succeeds and closes the store; every later close reports "already closed" and changes nothing |
| CardStore.CardsOf | cards/cards.go:242-249 | `Cards` returns a catalog exactly when the store is ready and holds one |
| CardStore.CardsReadyGate | cards/cards.go:242-249 | on a consistent store, `Cards` returns exactly when the store is ready, and then never returns nil |
| CardStore.RequestFor | cards/cards.go:179-181 | the request is the fixed GET of the catalog URL, revalidating with the stored etag |
| CardStore.MaybeUpdate | cards/cards.go:174-233 | only a 200 response with a readable, decodable body updates; every other outcome leaves the store unchanged; an update installs the new catalog and etag, advances the generation and makes the store ready |
| CardStore.OtherSuccessStatusFails | cards/cards.go:194-201 | a 2xx status other than 200 is an HTTP failure, even with a good body |
| CardStore.StatusCheckedBeforeRead | cards/cards.go:197-205 | a bad status is reported as an HTTP failure even when reading the body failed |
| CardStore.MaybeUpdatePreservesValid | cards/cards.go:207-231 | every outcome keeps readiness, generation, catalog and signalled channels consistent, and a ready store stays ready (corrected) |
| CardStore.NextRequestRevalidates | cards/cards.go:176-180 | after an update, the next request carries the etag that update received |
| CardStore.UpdateIsVisible | cards/cards.go:215-218 | after an update, `Cards` returns the catalog built from the response |
| CardStore.Publish | cards/cards.go:216-224 | a successful update closes the notify channel waiters hold (corrected) |
| CardStore.WaitForUpdate | cards/cards.go:136-147 | a handle taken from a consistent store is not yet released (corrected) |
| CardStore.Resolve | cards/cards.go:141-145 | a handle delivers a catalog only once its channel is closed and the store is ready |
| CardStore.WaiterResolvesOnNextUpdate | cards/cards.go:125-147 | a handle stays pending until the next successful update and then delivers that update's catalog (corrected) |
| CardStore.WaitersShareUpdate | cards/cards.go:136-147 | a failed refresh hands out no new channel: handles taken before and after it stay pending and both deliver the catalog of the next successful update (corrected) |
| CardStore.PublishAsWritten | cards/cards.go:216-224 | the update as written closes the freshly made channel instead of the one waiters hold |
| CardStore.PublishAsWrittenMissesWaiters | cards/cards.go:136-147 | as written, a handle taken on a new store is never released by the first update, while a handle taken after it is released at once |
| CardStore.StartWatch | cards/cards.go:50-60 | the watcher starts before its first attempt, on a new store |
| CardStore.Step | cards/cards.go:149-162 | a stopped loop stays stopped, and no step changes the refresh period |
| CardStore.Run | cards/cards.go:149-162 | the loop over a sequence of events; `CardStore.RunPreserves`, `ClosedWatcherIsInert` and `StoppedKeepsGeneration` state its properties |
| CardStore.StepPreserves | cards/cards.go:149-162 | a loop step keeps the invariants, never undoes readiness or closing, and never lowers the generation |
| CardStore.RunPreserves | cards/cards.go:149-162 | the same holds over any sequence of events |
| CardStore.ClosedWatcherIsInert | cards/cards.go:155-158 | once the store is closed and the first attempt is done, no event changes the store and the loop stays stopped |
| CardStore.ZeroFrequencyAttemptsOnce | cards/cards.go:150-154 | with a zero period the loop makes one attempt, stops, and no later event updates the store |
| CardStore.StoppedKeepsGeneration | cards/cards.go:151-159 | a returned loop never updates the store again |
| CardStore.CloseBeforeFirstAttempt | cards/cards.go:149-158 | a close that comes before the first attempt does not prevent that attempt |
| Tappedout.CheckDeckUrl | tappedout/tappedout.go:126-131 | a URL passes exactly when its host is tappedout.net or www.tappedout.net and its path starts with "/mtg-decks/" |
| Tappedout.ExportUrls | tappedout/tappedout.go:134-189 | the two URLs the import requests, from the same deck path on tappedout.net, are distinct and differ in the format parameter |
| Tappedout.RowMap | tappedout/tappedout.go:250-253 | a row map's keys are exactly the headers of the row's columns |
| Tappedout.RowMapValue | tappedout/tappedout.go:251-253 | a header that is not repeated later maps to its own column's cell |
| Tappedout.RowMapLastColumn | tappedout/tappedout.go:251-253 | a header maps to the cell of the last column carrying it |
| Tappedout.HeaderRowIdentity | tappedout/tappedout.go:249-255 | the map of the header row sends every header to itself |
| Tappedout.CsvToMapSlice | tappedout/tappedout.go:232-257 | conversion succeeds exactly for readable, rectangular CSV; it gives one map per record, map i sends the header of each column to record i's cell there (the last such column for a repeated header), and the first map is the identity |
| Tappedout.Get | tappedout/tappedout.go:153-175 | a missing column reads as the empty string |
| Tappedout.MissingHeaderIn | tappedout/tappedout.go:152-156 | the check passes exactly when every required header maps to itself, and otherwise reports the first one that does not |
| Tappedout.CompleteHeaderPasses | tappedout/tappedout.go:152-156 | a header row that contains all nine headers, including "Languange", passes in any order |
| Tappedout.EntryOf | tappedout/tappedout.go:161-173 | the entry takes its quantity, name and printing from the row; each flag is set exactly when its cell is non-empty; it starts unmarked |
| Tappedout.RowOn | tappedout/tappedout.go:175-186 | a row puts one entry on its own board when its quantity parses |
| Tappedout.AddRow | tappedout/tappedout.go:160-186 | a row converts exactly when its quantity parses and its board is one of the four; a bad quantity is reported before a bad board |
| Tappedout.BuildBoards | tappedout/tappedout.go:160-187 | the board loop; its contract is `BuildBoardsSucceeds`, `BuildBoardsSpec` and `BuildBoardsFirstError` |
| Tappedout.BuildBoardsSucceeds | tappedout/tappedout.go:160-187 | the rows convert exactly when each row does |
| Tappedout.BuildBoardsSpec | tappedout/tappedout.go:175-186 | each board holds the entries of the rows that name it, in row order |
| Tappedout.BuildBoardsFirstError | tappedout/tappedout.go:160-187 | a failed conversion reports the first row that fails, with the right reason |
| Tappedout.RowOnOneBoard | tappedout/tappedout.go:175-186 | a converted row lands on exactly one board |
| Tappedout.OnBoardCounts | tappedout/tappedout.go:175-186 | the four boards together hold one entry per data row |
| Tappedout.FirstBracket | tappedout/tappedout.go:36 | the first submatch of the bracket pattern; its contract is `Tappedout.FirstBracketSpec` |
| Tappedout.FirstBracketSpec | tappedout/tappedout.go:36 | the bracket pattern matches exactly when some '[' is followed by a ']', and captures the text between the first '[' and the next ']' |
| Tappedout.Bracket | tappedout/tappedout.go:207-210 | a line contributes at most its first bracket text |
| Tappedout.CommanderNames | tappedout/tappedout.go:199-217 | the names the commander scan collects; `Tappedout.ScanCommanders` computes it and `CommanderNamesSkip` and `FirstSectionOnly` state its properties |
| Tappedout.ScanSection | tappedout/tappedout.go:205-215 | the inner loop of the scan; its contract is `Tappedout.ScanSectionSpec` |
| Tappedout.ScanCommanders | tappedout/tappedout.go:199-217 | the outer scanner loop, which skips to the first commander heading and then runs the inner loop, collects exactly the commander names of the markdown text |
| Tappedout.ScanSectionFrom | tappedout/tappedout.go:205-215 | the inner scanner loop, ended by a heading line (the `break outer`) or by the end of the text, collects exactly the section's names |
| Tappedout.ScanSectionSpec | tappedout/tappedout.go:205-215 | the section's names are the bracket texts of its lines, up to and including the next heading line |
| Tappedout.CommanderNamesSkip | tappedout/tappedout.go:202-205 | lines before the first heading that mentions "Commander" contribute nothing |
| Tappedout.FirstSectionOnly | tappedout/tappedout.go:201-217 | text after the end of the first commander section does not change the names |
| Tappedout.MarkCommanders | tappedout/tappedout.go:222-227 | exactly the mainboard entries named in the section get marked; other boards are untouched; the named entries are appended to the commanders |
| Tappedout.NamedInIsMarked | tappedout/tappedout.go:222-227 | on an unmarked board, the entries appended to the commanders are exactly the marked entries, in board order |
| Tappedout.MarkFreshDeck | tappedout/tappedout.go:222-227 | after marking a fresh deck, the commanders are the marked mainboard entries and no other board holds a marked entry |
| Tappedout.DeckFromRows | tappedout/tappedout.go:149-187 | fewer than two rows is an empty deck; otherwise the first missing header is reported; with all headers present the result is the board loop over the data rows, which succeeds when every data row converts; success implies all of these |
| Tappedout.BoardsFromRows | tappedout/tappedout.go:149-187 | a deck built from rows is unmarked, with one entry per data row |
| Tappedout.DeckFromUrl | tappedout/tappedout.go:121-230 | an unparsable URL and a URL that fails the host or path test are reported as such; success needs a valid deck URL, a CSV export and a markdown export fetched from that deck's path with status at most 299, and a markdown scan without error |
| Tappedout.DeckFromUrlSucceeds | tappedout/tappedout.go:121-230 | conversely, a valid deck URL whose exports answer with status at most 299, a well-formed deck and a clean scan imports as that deck marked by the commander section |
| Tappedout.DeckFromCsvExport | tappedout/tappedout.go:136-187 | the CSV half of the import succeeds exactly when the export was fetched with status at most 299, converts to maps and builds a deck, and then yields the deck built from those rows |
| Tappedout.MarkFromMarkdownExport | tappedout/tappedout.go:191-229 | the markdown half succeeds exactly when the export was fetched with status at most 299 and scans cleanly, and then yields the deck marked by its commander section |
| Tappedout.DeckFromUrlSpec | tappedout/tappedout.go:121-230 | on success the boards hold one entry per data row, the commanders are exactly the marked mainboard entries, in order, each named in the commander section, and no other board is marked |

## Left out

- Unicode case folding: `strings.ToLower` is modelled on ASCII letters only, the same way for queries, card fields and index keys.
- HTTP requests and responses are a parameter: `Tappedout.DeckFromUrl` takes the network as two maps from the requested URL to the response it got; a URL with no entry fails in transport (`Tappedout.FetchPage`). `url.Parse`, `encoding/json`, `encoding/csv`, `bufio.Scanner` and `regexp` are foreign library code. The model receives their results already decoded: a response outcome, a decoded card map, CSV records, markdown lines and the parsed host and path.
- The CSV reader's own syntax rules (quoting, carriage returns) are not modelled. Only its field-count rule is: a record whose length differs from the first record's fails the read.
- `Scanner.Err` is an input flag. When the scanner fails relative to the lines it has already returned is not modelled.
- Goroutines, channels and the `RWMutex` are replaced by a sequential state record. Blocking is the value `None`, and memory ordering is not modelled.
- A refresh still in flight while `Close` is called is not modelled.
- Timers and durations are not modelled. The refresh period matters only as zero or non-zero.
- When the timer and `Close` are ready at the same moment, Go's `select` may pick either. The model always lets the close win.
- Logging, `debugf` and the text of error messages are not modelled. Errors are datatype constructors. The body excerpt in `csvToMapSlice`'s error (`b[:99]`) is not modelled.
- The `Logger` and `Client` fields of `Store` are not modelled.
- Card fields that neither the query language nor the index reads, such as `CMC`, mana cost and rulings, are not modelled.
- A JSON `null` card in the decoded map is not modelled. `generateNormalized` would dereference it.
- `deckFromURLWithAPIKey` is not modelled: its own comment says the endpoint always answers 401, and nothing calls it.
- The telegram bot (telegram/bot.go) is not modelled: it is the chat transport.
- The tests are not modelled: they read live network data.
- Tappedout.DeckFromUrl: its contract names the URL errors and the conditions for success, with `DeckFromUrlSucceeds` as the converse. Which error a failed fetch, a bad status, a CSV error or a failed scan reports is fixed only by its body.
- CardStore.Valid, CardStore.WaitForUpdate, CardStore.MaybeUpdatePreservesValid, CardStore.WaiterResolvesOnNextUpdate, CardStore.WaitersShareUpdate: the notify-channel clauses hold for the corrected `Publish`. With the order `maybeUpdate` uses (cards/cards.go:216-224), every handle taken after the first update is already released (see "Findings").
- Decimal.Atoi: its contract states only the range and the rejected inputs. Its values are pinned by the lemmas `AtoiShowNat`, `AtoiShowNegative`, `AtoiPlusSign` and `AtoiOverflow`, not by a closed formula.

## Findings

| source | as written | input that shows it | evidently intended | confidence | as-written member | corrected member |
|---|---|---|---|---|---|---|
| cards/cards.go:219-224 | a successful update replaces `notifyCh` with a new channel and then closes that new channel | call `WaitForUpdate` on a new store, then let one update succeed: the handle's channel is never closed, so it never delivers; a handle taken after the update is released at once, without any further update | close the channel waiters already hold, then hand out a fresh one, so that every handle resolves at the next successful update | high (not executed) | CardStore.PublishAsWrittenMissesWaiters | CardStore.WaiterResolvesOnNextUpdate |
