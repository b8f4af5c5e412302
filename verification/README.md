# Reality: entities, scaled numbers, value conversion, redirect parameters and coercions

Reality describes real-world entities from Wikipedia infoboxes. This project models three pieces of its Ruby core in Dafny and proves what they promise:

- **The entity** (`lib/reality/entity.rb`).
  - The lifecycle: an entity holds a name, and once loaded it holds its Wikipedia page, which is checked against the infobox its class declares.
  - The extraction helpers:
    - the short-scale table (million … septillion);
    - `parse_scaled` and `parse_maybe_scaled`, which read an amount and an optional scale word;
    - `fetch_scale`;
    - the blank check of `fetch_named_measure`;
    - the recursive converter `to_simple_type`.
- **The `GRedirects` generator module** of the Wikidata API client (`lib/reality/describers/wikidata/modules/g-redirects.rb`).
  - `namespace` and `show` check each argument against a fixed list, after asking an inherited validator, and append it to the action's parameters.
  - `limit` and `continue` replace one parameter.
- **`Reality::Coerce`** (`lib/reality/coerce.rb`).
  - `geo_coord` turns an array, a coordinate or a "lat,lng" string into a coordinate.
  - `media_wiki_category` turns a string into a `Category:` title.
  - Anything else raises "Can't coerce … to …".

Files, one module per concern:

| file | modules | what |
|---|---|---|
| `outcome.dfy` | `Outcome` | `Option` and `Result` |
| `text.dfy` | `Text` | decimal digits, Ruby's `Integer#to_s` and `String#strip`, the line anchors `^` and `$`, ASCII case folding |
| `scaled.dfy` | `Scaled`, `ScaledProperties` | the scale table and the two parsers |
| `simple_type.dfy` | `SimpleType`, `SimpleTypeProperties` | `to_simple_type` |
| `entity.dfy` | `Entities`, `EntityProperties` | the classes `EntityKind` (the class-level `infobox_name` and `Entity.load`) and `Entity` (`name`, `loaded?`, `load!`, `wikipedia_page`) |
| `g_redirects.dfy` | `ParamStore`, `GRedirects`, `GRedirectsProperties` | the action's parameter store and the module's methods |
| `coerce.dfy` | `Coerce`, `CoerceProperties` | `geo_coord`, `media_wiki_category`, `uncoercible` |

Modelling choices:

- **The wiki is a parameter.**
  - A `Wiki` maps a title to the page found, if any.
  - A page is reduced to what the lifecycle reads from it: its title and its infobox name.
  - Reading the infobox name of a missing page, or of a page without an infobox, raises `NoMethodError` in Ruby. Here these are the errors `NoPage` and `NoInfobox`.
- **Ruby's `^` and `$` match at every line start and line end.**
  - The regexps are modelled over the whole text, and a match is searched for at each line start.
  - `StrictMatchUnique` shows that a match can be read only one way, so the regexp engine's backtracking order does not matter.
- **`to_f * scale).to_i` is computed on exact decimals.**
  - An amount is its digits over a power of ten (`Decimal`).
  - The product is truncated, and `TruncateIsFloor` proves that this is the floor of the exact real product.
- **`merge` is defined in the action base class, which is not part of this model.**
  - It is modelled as the module uses it: an immutable map from a parameter to its list of values.
  - `replace: false` appends a value the list does not hold yet.
  - The default (replace) makes the value the only one.
- **`Geo::Coord.new` belongs to another library.** A coordinate is the list of arguments it was built from.

## Model

| member | source | states |
|---|---|---|
| Scaled.ScalesAreShortScale | lib/reality/entity.rb:106-114 | the table has seven words, and word i multiplies by 10^(3i+6) |
| Scaled.NoWordIsPrefixOfAnother | lib/reality/entity.rb:106-115 | no scale word is a prefix of another one |
| Scaled.Detect | lib/reality/entity.rb:138 | `SCALES.detect`: the index found is of a word the text starts with, and no earlier word matches; nothing is found only when no word matches |
| Scaled.FetchScale | lib/reality/entity.rb:137-141 | a failure is "Scale not found" for the text and the owner |
| Scaled.FetchScaleSpec | lib/reality/entity.rb:137-141 | `fetch_scale` succeeds exactly when the text starts with a table word, and then gives that word's multiplier, whichever matching word is meant |
| Scaled.FetchScaleOfWord | lib/reality/entity.rb:137-141 | each table word, with anything after it, resolves to its own multiplier |
| Scaled.AmountEnd | lib/reality/entity.rb:118 | `[0-9.,]+` taken greedily: everything up to the result is an amount character, and the next one is not |
| Scaled.SpaceEnd | lib/reality/entity.rb:118 | `[[:space:]]*` taken greedily, in the same sense |
| Scaled.MatchAt | lib/reality/entity.rb:118 | a match starts with an amount character; the strict regexp always captures a table word |
| Scaled.Search | lib/reality/entity.rb:118 | `Regexp#match`: a strict match carries a scale word, and a captured word is a table index |
| Scaled.RemoveCommas | lib/reality/entity.rb:122 | `gsub(/[,]/, '')`: no comma is left, a text without commas is unchanged, and a single character is dropped exactly when it is a comma |
| ScaledProperties.RemoveCommasAppend | lib/reality/entity.rb:122 | `gsub` works character by character: removing commas from `a + b` is removing them from `a`, then from `b`; with the one-character case this determines the result for every text |
| Scaled.DigitEnd | lib/reality/entity.rb:133 | the run of digits that `to_i` reads ends at the result |
| Scaled.ToI | lib/reality/entity.rb:133 | `to_i` of a string of digits is its decimal value |
| Scaled.ToF | lib/reality/entity.rb:122 | `to_f` reads no more fraction digits than the text has, and a string of digits is read as that whole number |
| Scaled.ScaledValue | lib/reality/entity.rb:122 | a scale word the regexp captured always resolves through `fetch_scale`, so the value is the amount, commas removed, read by `to_f`, times the word's multiplier, truncated |
| Scaled.ParseScaled | lib/reality/entity.rb:117-123 | a failure is `Unparseable` for the given text and owner |
| Scaled.ParseMaybeScaled | lib/reality/entity.rb:125-135 | a failure is `Unparseable` for the given text and owner |
| Scaled.NamedMeasure | lib/reality/entity.rb:82-85 | nil exactly when the field is blank after `strip`; otherwise a measure in the given unit whose amount is what `parse_maybe_scaled` gives for the stripped text, or the error it raises on that text |
| ScaledProperties.AmountEndUnique | lib/reality/entity.rb:118 | a maximal run of amount characters is the one `AmountEnd` finds |
| ScaledProperties.SpaceEndUnique | lib/reality/entity.rb:118 | a maximal run of spaces is the one `SpaceEnd` finds |
| ScaledProperties.StrictMatchUnique | lib/reality/entity.rb:118 | any reading of amount, spaces and scale word has the longest amount and the longest run of spaces, and is the match both regexps return |
| ScaledProperties.StrictMatchHasReading | lib/reality/entity.rb:118 | the strict regexp matches at a position exactly when it has a reading there |
| ScaledProperties.SearchFindsFirst | lib/reality/entity.rb:118 | the search returns the match at the first line start where the regexp matches |
| ScaledProperties.SearchFailsIff | lib/reality/entity.rb:118-120 | the search fails exactly when the regexp matches at no line start |
| ScaledProperties.ParseScaledFailsIff | lib/reality/entity.rb:118-120 | `parse_scaled` fails, with the text, exactly when no line starts with an amount followed by a scale word |
| ScaledProperties.ParseScaledValue | lib/reality/entity.rb:117-123 | on the first readable line, the result is the amount, commas removed, times the word's multiplier, truncated |
| ScaledProperties.ParseMaybeScaledFailsIff | lib/reality/entity.rb:126-128 | `parse_maybe_scaled` fails, with the text, exactly when no line starts with one of `0-9 . ,` |
| ScaledProperties.ParseMaybeScaledUnscaled | lib/reality/entity.rb:130-134 | with no scale word after the leading amount, the result is the amount with commas removed, read by `to_i` |
| ScaledProperties.ParseMaybeScaledUnscaledAt | lib/reality/entity.rb:125-135 | at the first line start holding an amount character, with no scale word after the amount, the result is that amount with commas removed, read by `to_i` |
| ScaledProperties.StrictAndLenientAgree | lib/reality/entity.rb:117-135 | on one line, whenever `parse_scaled` succeeds, `parse_maybe_scaled` gives the same number |
| ScaledProperties.ParseMaybeScaledOfNumber | lib/reality/entity.rb:125-135 | round trip: a rendered natural number, then spaces and a tail that is neither an amount nor a scale word, parses back to the number |
| ScaledProperties.ParseScaledOfNumber | lib/reality/entity.rb:117-135 | round trip: a rendered number, spaces and a scale word parse to the number times the multiplier, strictly and leniently |
| ScaledProperties.ParseScaledOfDecimal | lib/reality/entity.rb:117-123 | `w.fr`, spaces and a scale word parse to the exact decimal times the multiplier, truncated |
| ScaledProperties.DecimalIsAmount | lib/reality/entity.rb:118 | every character of `w.fr` is one the `[0-9.,]+` group accepts |
| ScaledProperties.AmountThenScale | lib/reality/entity.rb:118 | an amount, spaces and a table word form a reading of the strict regexp, with the amount as the captured group |
| ScaledProperties.TruncateWhole | lib/reality/entity.rb:133 | a whole number times a multiplier is not truncated at all |
| ScaledProperties.ToFOfDecimal | lib/reality/entity.rb:122 | `to_f` reads the digits of `w.fr` with `fr` as the fraction, and stops there when a non-digit such as a second dot follows |
| ScaledProperties.ToFAt | lib/reality/entity.rb:122 | `to_f` reads the digits before the first dot and the run of digits after it |
| ScaledProperties.DecimalHasNoCommas | lib/reality/entity.rb:122 | `gsub(/[,]/, '')` leaves `w.fr` as it is |
| ScaledProperties.ExampleSecondDot | lib/reality/entity.rb:122 | the amount "1.2.3" is read by `to_f` as 1.2 |
| ScaledProperties.DecimalOfParts | lib/reality/entity.rb:122 | the exact decimal `w.fr` is w plus fr over ten to the length of fr |
| ScaledProperties.TruncateIsFloor | lib/reality/entity.rb:122 | the truncated product is the floor of the exact real product, which is what `to_i` does to a non-negative number |
| ScaledProperties.ToIIsTruncatedToF | lib/reality/entity.rb:133 | `to_i` of an amount is its `to_f` truncated: reading stops at the first dot |
| ScaledProperties.ExampleMillion | lib/reality/entity.rb:117-123 | "1.5 million" gives 1 500 000 |
| ScaledProperties.ExampleSeparated | lib/reality/entity.rb:125-135 | "2,300" gives 2300 |
| ScaledProperties.ExampleUnparseable | lib/reality/entity.rb:126-128 | "abc" raises the unparseable error |
| ScaledProperties.ExampleNumber | lib/reality/entity.rb:125-135 | "42" gives 42 |
| ScaledProperties.ExampleLaterLine | lib/reality/entity.rb:125-135 | "abc\n42" gives 42: the amount may start a later line |
| Text.Strip | lib/reality/entity.rb:83 | `strip`: a slice of the text with only whitespace cut off either end, which is empty exactly when the text is all whitespace |
| Text.NatToString | lib/reality/describers/wikidata/modules/g-redirects.rb:31 | `Integer#to_s` of a natural number: digits only, never with a leading zero |
| Text.IntToString | lib/reality/describers/wikidata/modules/g-redirects.rb:31 | `Integer#to_s`: a minus sign exactly for a negative number, then digits that read back to its absolute value |
| Text.NatToStringRoundTrip | lib/reality/describers/wikidata/modules/g-redirects.rb:31 | reading back the digits of `Integer#to_s` gives the number |
| Text.IntToStringInjective | lib/reality/describers/wikidata/modules/g-redirects.rb:31 | distinct integers have distinct `to_s` |
| SimpleType.TruncateTowardZero | lib/reality/entity.rb:155-156 | `amount.to_i` truncates toward zero, with the bounds this gives for each sign |
| SimpleType.Store | lib/reality/entity.rb:150 | `Hash#[]=`: the new pair is present, every other pair was already there, and the hash grows by at most one entry |
| SimpleType.BuildHash | lib/reality/entity.rb:150 | `to_h`: no more entries than pairs, and each entry is one of the pairs |
| SimpleType.ToSimple | lib/reality/entity.rb:143-160 | an object of an unknown class raises "Non-coercible value" with its class; a link gives its target, a node its text, a measure its amount truncated by `to_i`; a converted array keeps its length; a converted hash is a hash with no more entries |
| SimpleType.Collect | lib/reality/entity.rb:147-150 | `map` with raising elements: success exactly when every element succeeds, the values in order; otherwise the first error |
| SimpleTypeProperties.ToSimpleOkIff | lib/reality/entity.rb:143-160 | `to_simple_type` succeeds exactly when no object of an unknown class occurs anywhere in the value |
| SimpleTypeProperties.ErrorNamesOccurringClass | lib/reality/entity.rb:157-158 | the "Non-coercible value" error names the class of an object that occurs in the value |
| SimpleTypeProperties.ArrayConvertsElementwise | lib/reality/entity.rb:147-148 | an array converts element by element, in order, to an array of the same length |
| SimpleTypeProperties.StoreLookup | lib/reality/entity.rb:150 | `Hash#[]=`: the stored key maps to the new value, and every other key keeps its value |
| SimpleTypeProperties.StoreKeys | lib/reality/entity.rb:150 | a stored key keeps its place if present, and is added at the end otherwise |
| SimpleTypeProperties.StoreKeepsKeysDistinct | lib/reality/entity.rb:150 | storing never puts a key in twice |
| SimpleTypeProperties.BuildHashSpec | lib/reality/entity.rb:150 | `to_h`: no key twice, and the keys in order of first appearance |
| SimpleTypeProperties.BuildHashLookup | lib/reality/entity.rb:150 | `to_h`: each key maps to the value of its last pair |
| SimpleTypeProperties.HashConversion | lib/reality/entity.rb:149-150 | a converted hash is `to_h` of the converted pairs: distinct keys, first-appearance order, last value wins |
| SimpleTypeProperties.BuildHashOfDistinct | lib/reality/entity.rb:150 | `to_h` leaves pairs with distinct keys as they are |
| SimpleTypeProperties.ToSimpleOfSimple | lib/reality/entity.rb:143-160 | idempotence: converting a converted value gives it back unchanged |
| Entities.LoadStep | lib/reality/entity.rb:33-42 | `load!`: a held page is returned and kept; a success holds exactly the page returned; a failure happens only with no page held, and leaves none held |
| Entities.ClassLoad | lib/reality/entity.rb:55-64 | `Entity.load`: an entity only for the page the wiki returns, which has an infobox, the declared one if any; the only error is the missing infobox of a fetched page, naming its title |
| Entities.CheckPage | lib/reality/entity.rb:34-41 | a page passes only when it was fetched and has an infobox that is the declared one, if one is declared; `TypeMismatch` exactly when a declared name differs from the page's |
| Entities.EntityKind.constructor | lib/reality/entity.rb:49-53 | a new entity class declares no infobox name |
| Entities.EntityKind.InfoboxName | lib/reality/entity.rb:50-53 | with no argument, reads the declared name and changes nothing; with one, declares it and returns it |
| Entities.EntityKind.Load | lib/reality/entity.rb:55-64 | `Entity.load` agrees with `ClassLoad`: nil, a fresh and loaded entity of that name holding the page, or the error a page without an infobox raises |
| Entities.Entity.constructor | lib/reality/entity.rb:5-8 | the entity holds the given name and the page, if one is given |
| Entities.Entity.Name | lib/reality/entity.rb:10-12 | the page title once loaded, the given name before |
| Entities.Entity.Load | lib/reality/entity.rb:29-42 | the new page and result are `LoadStep` of the old state; afterwards `loaded?` holds exactly when the result is a success, and the entity is then named by the page title |
| Entities.Entity.WikipediaPage | lib/reality/entity.rb:44-47 | loads, then gives the page now held |
| EntityProperties.LoadIsIdempotent | lib/reality/entity.rb:33-34 | once a page is held, loading again returns it and keeps it, whatever the wiki would now return |
| EntityProperties.MismatchLeavesUnloaded | lib/reality/entity.rb:34-41 | `EntityTypeError` exactly when a declared infobox name differs from the fetched page's; any failure leaves the entity unloaded |
| EntityProperties.LoadKeepsFetchedPage | lib/reality/entity.rb:33-42 | a successful load holds exactly the fetched page, with the declared infobox when one is declared |
| EntityProperties.ClassLoadAgreesWithLoad | lib/reality/entity.rb:55-64 | `Entity.load` gives an entity exactly when `load!` on a new entity of that name would succeed, holding the same page |
| EntityProperties.ClassLoadNothingIff | lib/reality/entity.rb:55-64 | `Entity.load` gives nil exactly for a missing page or a mismatching infobox, and raises only for a page without an infobox |
| ParamStore.Merge | lib/reality/describers/wikidata/modules/g-redirects.rb:31 | `merge`: the value is listed under the key afterwards, and appending keeps the earlier values in front |
| ParamStore.AppendAll | lib/reality/describers/wikidata/modules/g-redirects.rb:31 | appending several values keeps the earlier ones in front and lists every new one |
| ParamStore.MergeSpec | lib/reality/describers/wikidata/modules/g-redirects.rb:31 | `merge` touches no other parameter; replace leaves the value as the only one; append adds it at the end unless present; no value is ever listed twice |
| GRedirects.ToS | lib/reality/describers/wikidata/modules/g-redirects.rb:31 | `to_s` of an integer argument: a minus sign exactly for a negative one, and a non-negative one reads back to the number |
| GRedirects.Validate | lib/reality/describers/wikidata/modules/g-redirects.rb:31 | `_namespace` and `_show` refuse exactly when the inherited validator is missing or refuses and the argument's `to_s` is not in the list |
| GRedirects.Fold | lib/reality/describers/wikidata/modules/g-redirects.rb:25-27 | the error of a refused argument names the method's parameter and a value that is not in the list |
| GRedirects.Namespace | lib/reality/describers/wikidata/modules/g-redirects.rb:25-27 | `namespace()` returns the receiver; a refusal names `namespace` and a value that is not a listed ID |
| GRedirects.Show | lib/reality/describers/wikidata/modules/g-redirects.rb:38-40 | `show()` returns the receiver; a refusal names `show` and a value other than `fragment` and `!fragment` |
| GRedirects.SetParam | lib/reality/describers/wikidata/modules/g-redirects.rb:51-61 | `limit` and `continue`: the parameter becomes exactly the argument's `to_s`, with no validation, and nothing else changes |
| GRedirects.Limit | lib/reality/describers/wikidata/modules/g-redirects.rb:51-53 | `limit(v)`: `grdlimit` holds exactly `v.to_s`, and no other parameter changes |
| GRedirects.Continue | lib/reality/describers/wikidata/modules/g-redirects.rb:59-61 | `continue(v)`: `grdcontinue` holds exactly `v.to_s`, and no other parameter changes |
| GRedirectsProperties.InheritedAcceptanceWins | lib/reality/describers/wikidata/modules/g-redirects.rb:31 | when the inherited validator accepts, its action is the answer and the local list is not consulted |
| GRedirectsProperties.OwnListDecides | lib/reality/describers/wikidata/modules/g-redirects.rb:44 | otherwise an argument is accepted exactly when its `to_s` is in the allowed list, and is then appended under the module's parameter |
| GRedirectsProperties.FoldSplit | lib/reality/describers/wikidata/modules/g-redirects.rb:26 | the fold runs left to right: `xs + ys` is `ys` applied to the result of `xs`, and a failure in `xs` stops it |
| GRedirectsProperties.FoldErrorNamesArgument | lib/reality/describers/wikidata/modules/g-redirects.rb:25-32 | a failure names, with the method's parameter and its `to_s`, an argument before which every argument was accepted and which neither validator accepted on the action built so far |
| GRedirectsProperties.FoldWithOwnList | lib/reality/describers/wikidata/modules/g-redirects.rb:38-40 | without an inherited validator, the call succeeds exactly when every argument is allowed, and then appends them all in order |
| GRedirectsProperties.FoldErrorIsFirstRefused | lib/reality/describers/wikidata/modules/g-redirects.rb:25-27 | without an inherited validator, the error names the first argument that is not allowed |
| GRedirectsProperties.AppendAllSpec | lib/reality/describers/wikidata/modules/g-redirects.rb:31 | appending keeps the old values in front, the parameter holds exactly the old and new values, no other parameter changes, and no value is listed twice |
| GRedirectsProperties.AppendAllPresent | lib/reality/describers/wikidata/modules/g-redirects.rb:31 | appending values that are all present changes nothing |
| GRedirectsProperties.AppendAllIdempotent | lib/reality/describers/wikidata/modules/g-redirects.rb:31 | appending the same values twice is the same as once |
| GRedirectsProperties.AppendsToDifferentKeysCommute | lib/reality/describers/wikidata/modules/g-redirects.rb:31 | appends to different parameters commute |
| GRedirectsProperties.LastWriteWins | lib/reality/describers/wikidata/modules/g-redirects.rb:51-61 | `limit` and `continue`: the last write wins |
| GRedirectsProperties.NamespaceIdsAreDecimals | lib/reality/describers/wikidata/modules/g-redirects.rb:31 | the 29 listed IDs are exactly the decimal renderings of the namespace numbers |
| GRedirectsProperties.IntegerNamespaces | lib/reality/describers/wikidata/modules/g-redirects.rb:31 | an integer argument, compared through `ToS`, is accepted exactly when it is one of the namespace numbers |
| GRedirectsProperties.TwoNamespaces | lib/reality/describers/wikidata/modules/g-redirects.rb:25-27 | `namespace(n1, n2)` with two listed numbers appends both, in order |
| GRedirectsProperties.NamespaceExample | lib/reality/describers/wikidata/modules/g-redirects.rb:25-32 | `namespace(0, 1).namespace(1, 2)` sets `grdnamespace` to 0, 1, 2, each once |
| GRedirectsProperties.ShowRefusesUnknown | lib/reality/describers/wikidata/modules/g-redirects.rb:38-45 | `show("fragment", "redirect")` raises "Unknown value for show: redirect" |
| Coerce.Seps | lib/reality/coerce.rb:14 | every character listed is one of `[,\| ;]` |
| Coerce.Fields | lib/reality/coerce.rb:14 | the pieces between separators: one more than the separators, none holding a separator, and joined again with the separators they give back the string |
| Coerce.DropTrailingEmpty | lib/reality/coerce.rb:14 | the fields kept are a prefix of the fields, the last one kept is not empty, and every field dropped is empty |
| Coerce.Split | lib/reality/coerce.rb:14 | `split`: the fields of the string with the empty ones at the end dropped, and only those; no part holds a separator |
| CoerceProperties.FieldsOfJoin | lib/reality/coerce.rb:14 | round trip: fields without separators, joined with separators, split back into the same fields |
| CoerceProperties.SplitOfJoin | lib/reality/coerce.rb:14 | `split` gives back the fields a text was joined from when the last one is not empty |
| CoerceProperties.SplitAcrossLines | lib/reality/coerce.rb:14 | `split` runs across line breaks: "abc\n1,2" gives "abc\n1" and "2" |
| Coerce.Fail | lib/reality/coerce.rb:39-41 | `uncoercible` always raises "Can't coerce <value> to <target>", with the value and target it is given; `GeoCoordRefusesOthers` and `MediaWikiCategory` state it at its call sites |
| Coerce.GeoCoord | lib/reality/coerce.rb:5-18 | every failure is "Can't coerce … to Geo::Coord" |
| Coerce.GeoCoordWholeString | lib/reality/coerce.rb:13-14 | the corrected coercion (see Findings) fails only with "Can't coerce … to Geo::Coord" |
| Coerce.CategoryAt | lib/reality/coerce.rb:31 | a position found is a line start followed by "category:" in any ASCII case |
| Coerce.RemoveCategoryPrefix | lib/reality/coerce.rb:31 | `sub` removes nine characters or none, and a string starting with "category:" in any case loses exactly that |
| Coerce.MediaWikiCategory | lib/reality/coerce.rb:20-35 | a result always starts with "Category:"; it succeeds exactly for a string; any other object raises "Can't coerce … to Category of …" before the prefix is added |
| CoerceProperties.GeoCoordKeepsCoord | lib/reality/coerce.rb:9-10 | an existing coordinate is returned unchanged |
| CoerceProperties.GeoCoordSpreadsArray | lib/reality/coerce.rb:7-8 | an array is spread, in order and whatever its length, into the constructor |
| CoerceProperties.GeoCoordRefusesOthers | lib/reality/coerce.rb:15-16 | any other object raises "Can't coerce <it> to Geo::Coord" |
| CoerceProperties.SingleLineMatch | lib/reality/coerce.rb:13 | on a single line the pattern matches exactly when the whole line is decimal, separator, decimal |
| CoerceProperties.SplitCoordLine | lib/reality/coerce.rb:14 | splitting "a<sep>b" gives a and b |
| CoerceProperties.GeoCoordOfLine | lib/reality/coerce.rb:13-14 | round trip: "lat<sep>lng" builds the coordinate from the two decimals, in order |
| CoerceProperties.GeoCoordSingleLine | lib/reality/coerce.rb:13-16 | on a single line, a string is accepted exactly when it is decimal, one separator, decimal; otherwise it raises |
| CoerceProperties.DecimalChars | lib/reality/coerce.rb:13 | a decimal of the pattern holds only digits and dots |
| CoerceProperties.CoordLineChars | lib/reality/coerce.rb:13 | a line of the pattern holds only digits, dots and separators |
| CoerceProperties.GeoCoordRefusesSigned | lib/reality/coerce.rb:13-16 | a single-line string with a `-` or `+` anywhere raises |
| CoerceProperties.GeoCoordRefusesWesternLongitude | lib/reality/coerce.rb:13-16 | "51.5,-0.12" raises: the pattern has no sign, so a western longitude is refused |
| CoerceProperties.GeoCoordAcceptsOtherLines | lib/reality/coerce.rb:13-14 | as written, "abc\n1,2" is accepted and builds a coordinate from "abc\n1" and "2" |
| CoerceProperties.WholeStringOfLine | lib/reality/coerce.rb:13-14 | round trip for the corrected coercion |
| CoerceProperties.WholeStringAcceptsIff | lib/reality/coerce.rb:13-16 | the corrected coercion accepts a string exactly when the whole string is decimal, separator, decimal; otherwise it raises |
| CoerceProperties.WholeStringRefusesOtherLines | lib/reality/coerce.rb:13-16 | the corrected coercion refuses "abc\n1,2" |
| CoerceProperties.CategoryAtIsFirst | lib/reality/coerce.rb:31 | `sub` finds the first match: none before it, and none at all when nothing is found |
| CoerceProperties.CategoryAtFinds | lib/reality/coerce.rb:31 | the first matching position is the one found |
| CoerceProperties.CategoryOfPrefixed | lib/reality/coerce.rb:30-34 | a string starting with "category:" in any case loses it and gets "Category:" instead |
| CoerceProperties.CategoryOfPlain | lib/reality/coerce.rb:30-34 | a string with no line starting with "category:" is prefixed as it is |
| CoerceProperties.CategoryIdempotent | lib/reality/coerce.rb:30-34 | normalising a category name twice gives what normalising once gives |
| CoerceProperties.CategoryOfLowerPrefix | lib/reality/coerce.rb:30-34 | "category:x" gives "Category:x" |
| CoerceProperties.CategoryOfUpperPrefix | lib/reality/coerce.rb:30-34 | "CATEGORY:x" gives "Category:x" |
| CoerceProperties.CategoryOfBareName | lib/reality/coerce.rb:30-34 | "Cities" gives "Category:Cities" |
| CoerceProperties.CategoryOnLaterLine | lib/reality/coerce.rb:31 | `^` matches at a later line start too: the prefix of the second line is removed |
| CoerceProperties.CategoryOfLinkRaises | lib/reality/coerce.rb:25-26 | a link raises NameError on the undefined `prefix` |

## Left out

- The Infoboxer client and its tree are not part of this model. This covers `Infoboxer.wikipedia.get`, `infobox`, `infobox_links` with its list-template unwrapping, and the `infobox.fetch(varname).text` that `fetch_named_measure` reads. The fetch is the `Wiki` parameter, and the field's text is the `fieldText` parameter of `NamedMeasure`.
- `fetch_coord_dms`: floating-point degree, minute and second conversion inside `Geo::Coord.from_dms`, which is not part of this model.
- `Geo::Coord` and `Reality::Measure` are not part of this model. A coordinate is its constructor arguments, and `Geo::Coord.new` validation (for example the arity of a spread array) is not modelled. A measure is an amount and a unit.
- `ScaledProperties.ParseScaledValue`: does not model floating-point rounding, because amounts and products are exact decimals. For large amounts or scales, Ruby's `to_f * scale` can round to a different integer than the exact product truncated. An amount beyond the range of a double (more than 308 digits) makes `to_f` Infinity, and `.to_i` then raises `FloatDomainError`; the model has no such error and gives the exact product.
- `SimpleType.ToSimple`: the Numeric branch covers Integer and Float only. Rational, Complex and BigDecimal are not represented, so the model has no value on which Ruby passes them through. Floats are kept as exact reals, without NaN or Infinity. Hash keys are compared structurally, where Ruby's `Hash#[]=` compares them with `eql?`.
- `Scaled.Truncate` carries no contract of its own: `ScaledProperties.TruncateIsFloor` states what it computes.
- `SimpleType.TruncateTowardZero`: a measure amount is an exact real, not a float or rational, because `Reality::Measure` is not part of this model.
- `to_h`, `to_s` and `inspect` on `Entity`: reflective formatting over `PROPERTIES`, which is defined by subclasses outside these files.
- The `Entity` branch of `geo_coord`: it reads `value['coordinates']`, an entity API that is not part of this model.
- `geo_coord` on a Symbol: `when /regexp/` also matches symbols, whose `split` does not exist. Only strings are modelled.
- The `Link` branch of `media_wiki_category`: only its behaviour as written is modelled, which is a NameError on the undefined `prefix`. What it was meant to do, checking the link source and reading the name after "category:", depends on a `Link` class that is not part of this model.
- `merge` lives in the action base class, which is not part of this model. Its append mode is modelled as adding a value that is not yet listed.
- `lib/reality.rb` (require wiring) and `test/wikidata.rb` (a command-line script that calls the network and prints).
- Pagination: no pager that drives `continue` appears in these files.

## Findings

| source | as written | input that shows it | evidently intended | confidence | as-written member | corrected member |
|---|---|---|---|---|---|---|
| lib/reality/coerce.rb:13-14 | `^` and `$` are line anchors, so one line of the coordinate form makes the whole string acceptable, and the whole string is then split | "abc\n1,2" is accepted and gives a coordinate built from "abc\n1" and "2" | only a string that is, as a whole, decimal, separator, decimal is accepted (`\A` … `\z`) | medium, not executed | CoerceProperties.GeoCoordAcceptsOtherLines | Coerce.GeoCoordWholeString (CoerceProperties.WholeStringAcceptsIff, CoerceProperties.WholeStringRefusesOtherLines) |
