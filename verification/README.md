# Dog-friendly places: open-now evaluators, place cards and media scripts in Dafny

This project models the deterministic core of a small web app that lists dog-friendly venues:

- **The two "open now" evaluators.**
  - The daily one (`lib/isOpenNow.ts`) takes one "HH:MM" opening time and one closing time.
  - The weekly one (`lib/openNow.ts`) takes a map from day names to `[open, close]`. It builds today's and yesterday's windows and reports the closing time.
- **Category normalisation** (`lib/categories.ts`).
- **The two list components' pure logic.**
  - `components/PlaceCardRow.tsx`: the fallback-image hash, the image choice, the city/state parser and the search-link builders.
  - `components/PlaceRow.tsx`: the `??` chains and the guarded open badge.
- **The two media scripts.**
  - `scripts/reindexMedia.cjs` groups a venue folder by file stem, picks the hero and the thumbnails, and rewrites the venue's record.
  - `scripts/importMedia.cjs` covers argument parsing, the extension filter, stem naming, output names, hero and gallery, and the merge into the media map.
- **The venues page** (`restored/pages/venues.tsx`): the projection from the media map to cards.
- **The category chips** (`components/CategoryChips.tsx`): the chip list, its total and the active/selection rule.

Modelling choices:

- **Time.** The clock is a parameter. `Clock.Instant` is a weekday plus milliseconds since local midnight.
- **Numbers.** JavaScript `Number(text)` is modelled as `JsNumber.Num`, which is either `NaN` or an integer. Only the digit strings the evaluators see are modelled.
- **External functions.** `encodeURIComponent` and `localeCompare` are function parameters. So are the directory walks and the timestamp.
- **Default sort.** The default `Array.prototype.sort` compares UTF-16 code units (`Lists.CodeUnitBefore`).
- **Media map.** It is a Dafny `map` from slug to `MediaDb.MediaRecord`.
- **Exits.** A script's `process.exit(1)` is a `MediaDb.Failure`.

Where the two evaluators disagree, as the code has them:

- **Equal opening and closing times.** The daily evaluator says closed. The weekly evaluator moves a close that is not after the open to the next day, so it says open all day, unless the close is "23:59": that close is the last millisecond of the day, later than the 23:59 opening, so nothing moves and the weekly evaluator is open only during that last minute. `Evaluators.DailyVersusWeekly` states how the two answers relate for times both read as numbers.
- **A part that is not a number.** The daily evaluator reads "9:xx" as NaN and is always closed. The weekly evaluator reads the bad part as 0 through `|| 0`, so "9:xx" opens at 9:00. `Evaluators.UnparsableMinute` states this.
- **No time zone and no override.** Neither evaluator takes a time zone or a force-open flag; only the weekly one has the `always_open` field (`alwaysOpen` here).

## Model

| member | source | states |
|---|---|---|
| Clock.MinuteOfDay | lib/isOpenNow.ts:17 | the minute of the day lies in 0..1439 and is the whole minute containing the instant (seconds dropped) |
| JsNumber.DecimalValue | lib/openNow.ts:50-51 | the decimal text `String(n)` reads back as `n` |
| JsNumber.Pad2RoundTrip | lib/openNow.ts:50-51 | a number padded to two digits parses back with `Number` to the same number |
| DailyHours.IsOpenNow | lib/isOpenNow.ts:7-24 | a missing, empty or unparsable time is closed; equal times are closed; a same-day window is open on [open, close); an overnight window is open from the open or before the close |
| DailyHours.ElapsedSinceOpening | lib/isOpenNow.ts:19-24 | for times within one day, open exactly when the minutes since opening, round the clock, are fewer than the window's length round the clock |
| DailyHours.SameMinuteSameAnswer | lib/isOpenNow.ts:16-17 | the answer depends only on the minute of the day: not on seconds and not on the weekday |
| DailyHours.MissingMinuteIsZero | lib/isOpenNow.ts:10-11 | a time without a colon reads as that hour on the hour ("9" as "9:00") |
| DailyHours.PaddedClockText | lib/isOpenNow.ts:10-14 | "HH:MM" made of two padded numbers reads as `h * 60 + m` minutes |
| WeeklyHours.DayBefore | lib/openNow.ts:23 | yesterday of Sunday (0) is Saturday (6), otherwise the previous day |
| WeeklyHours.Window | lib/openNow.ts:27-43 | a window exists iff the day is listed with exactly two entries, neither "Closed"; it opens at the base plus the opening offset and closes at the closing instant, moved a day later when not after the open; "23:59" means the last millisecond |
| WeeklyHours.WindowOfPair | lib/openNow.ts:28-42 | a day listed as `[open, close]` gets exactly that window |
| WeeklyHours.FirstHolding | lib/openNow.ts:48-53 | the chosen interval holds the instant (both ends included) and no earlier interval does; none is chosen only when none holds |
| WeeklyHours.ClosesAtText | lib/openNow.ts:50-52 | the reported closing time is two digits, a colon and two digits |
| WeeklyHours.IsOpenNow | lib/openNow.ts:19-55 | always-open places are open "24/7"; otherwise open iff today's or yesterday's window holds now; the closing time comes from today's window first; a closed answer has no closing time |
| WeeklyHours.LastMinuteReportedAs2359 | lib/openNow.ts:38 | a "23:59" close, on any of the three days involved, is reported as "23:59" |
| WeeklyHours.ClosesAtOfTimeOfDay | lib/openNow.ts:39 | any other closing time of day is reported as its own hours and minutes |
| WeeklyHours.YesterdayOnlyPastMidnight | lib/openNow.ts:41 | yesterday's window can hold now only through an overnight tail that ends at or after now today |
| Evaluators.OffsetAgrees | lib/openNow.ts:34-36 | where the daily parser reads a time, `setHours(h || 0, m || 0)` lands on the same minute |
| Evaluators.ClosedIsNotATime | lib/openNow.ts:31 | "Closed" does not parse as a time, so the daily evaluator also treats it as closed |
| Evaluators.LastMinuteIs1439 | lib/openNow.ts:38 | "23:59" is minute 1439 |
| Evaluators.DailyVersusWeekly | lib/openNow.ts:45-53 | with the same hours every day and times both evaluators read as numbers, the weekly answer is the daily one, plus the first millisecond of the closing minute (all of that minute for "23:59"), plus all day when the two times are equal and the close is not "23:59" |
| Evaluators.UnparsableMinute | lib/openNow.ts:34-36 | a minute part that is not a number makes the daily reading NaN and the daily answer closed, while the weekly reading is the bare hour |
| Evaluators.NineColonXx | lib/isOpenNow.ts:10-14 | "9:xx" never opens for the daily evaluator and opens at 9:00 for the weekly one |
| Evaluators.ClosesAtReadsBack | lib/openNow.ts:50-52 | the weekly closing time, read by the daily parser, is the listed closing minute |
| Categories.NormalizeCategory | lib/categories.ts:5-10 | Cafe iff the lower-cased text mentions a cafe word; Bar iff it mentions no cafe word but a bar word; Restaurant otherwise, including for missing or empty text |
| Categories.IgnoresCase | lib/categories.ts:6 | the category of a text equals that of its lower-cased form |
| Categories.CafeKeywordAnywhere | lib/categories.ts:7 | a cafe word anywhere in the text, even inside another word, makes it a Cafe |
| Categories.CafeIsStable | lib/categories.ts:7 | text around a Cafe description keeps it a Cafe |
| PlaceCardRow.FallbackIndex | components/PlaceCardRow.tsx:29-34 | the fallback index is always a valid index into the 17 fallback pictures |
| PlaceCardRow.StableIndex | components/PlaceCardRow.tsx:29-34 | the 32-bit wrapping loop over the UTF-16 code units computes the same index as the unbounded polynomial hash reduced modulo 2^32 |
| PlaceCardRow.PickImage | components/PlaceCardRow.tsx:37-52 | a custom picture is used unless its lower-cased text contains "fallback"; else the remote one if non-empty; else the fallback picked by the id, or by the name when there is no id |
| PlaceCardRow.PickImageNonEmpty | components/PlaceCardRow.tsx:49-51 | the chosen picture is never empty |
| PlaceCardRow.IdOverridesName | components/PlaceCardRow.tsx:51 | with an id present, the name does not influence the picture |
| PlaceCardRow.StateOf | components/PlaceCardRow.tsx:63 | the state is two capitals: the first standalone pair in the last part, or "MI" when there is none |
| PlaceCardRow.CityStateOfParts | components/PlaceCardRow.tsx:61-63 | the city is the second-to-last part, or "Detroit" with fewer than two parts; the state comes from the last part |
| PlaceCardRow.ParseCityState | components/PlaceCardRow.tsx:59-65 | a missing or empty address gives Detroit, MI; otherwise the comma parts, trimmed, decide |
| PlaceCardRow.CityStateRoundTrip | components/PlaceCardRow.tsx:59-65 | "street, city, ST" parses back to the city and the state |
| PlaceCardRow.MapsLinkReadsBack | components/PlaceCardRow.tsx:55-58 | with an injective encoder, two Maps links are equal exactly when their trimmed "name address" texts are |
| PlaceCardRow.YelpLinkReadsBack | components/PlaceCardRow.tsx:66-71 | with an injective encoder that never writes "&", two Yelp links are equal exactly when their names and locations are |
| PlaceCardRow.YelpOfFormattedAddress | components/PlaceCardRow.tsx:66-71 | for "street, city, ST" the Yelp link searches the name around "city, ST", whatever the street |
| PlaceCardRow.TikTokOfFormattedAddress | components/PlaceCardRow.tsx:73-77 | for "street, city, ST" the TikTok link searches "name city ST", whatever the street |
| PlaceCardRow.SearchWithoutAddress | components/PlaceCardRow.tsx:59-77 | with no address both the Yelp and the TikTok search are around "Detroit, MI" |
| PlaceCardRow.SearchLinksAreWebLinks | components/PlaceCardRow.tsx:55-77 | every built search link starts with "http" |
| PlaceCardRow.MapsHref | components/PlaceCardRow.tsx:115 | the supplied maps link is used iff it is non-empty and starts with "http"; otherwise the built one; either way the link starts with "http" |
| PlaceCardRow.YelpHref | components/PlaceCardRow.tsx:116 | the same rule for the Yelp link |
| PlaceRow.YelpUrlReadsBack | components/PlaceRow.tsx:13-17 | with an injective encoder that never writes "&", two row Yelp links are equal exactly when their names and city/state texts are |
| PlaceRow.YelpDefaultIsDetroit | components/PlaceRow.tsx:13 | with the default city/state text, the row's Yelp link equals the card's for an unknown address |
| PlaceRow.TikTokAgrees | components/PlaceRow.tsx:19-25 | the row's inline TikTok builder produces the card's TikTok link for every address |
| PlaceRow.OpenNow | components/PlaceRow.tsx:29-35 | open only when both times are present, and then exactly as the daily evaluator says |
| PlaceRow.GuardIsRedundant | components/PlaceRow.tsx:31-33 | the type guard never changes the answer: the daily evaluator is already closed for a missing time |
| PlaceRow.RowOf | components/PlaceRow.tsx:38-45 | picture, Google, Yelp and TikTok links each take the first present value of their `??` chain, falling back to the placeholder or the built links |
| PlaceRow.EmptyImageUrlKept | components/PlaceRow.tsx:38-39 | an empty legacy `image_url` is kept, since `??` only skips missing values |
| ReindexMedia.StripSizeSuffixMeaning | scripts/reindexMedia.cjs:7-10 | exactly a trailing "_1200" or "_800" is removed, and nothing else |
| ReindexMedia.StripSizeSuffixUndoesSize | scripts/reindexMedia.cjs:9 | removing the size suffix from `stem + "_1200"` or `stem + "_800"` gives back the stem |
| ReindexMedia.PickHero | scripts/reindexMedia.cjs:12-20 | the hero is the first file of the best class: `_1200.jp(e)g`, then `_1200.webp`, then any `_1200.`, then the first file |
| ReindexMedia.PickThumb | scripts/reindexMedia.cjs:22-29 | the thumbnail is the first file of the best class: `_800.jp(e)g`, then `_800.webp`, then the first file |
| ReindexMedia.OnlyBestIsChosen | scripts/reindexMedia.cjs:12-29 | a file alone in the best class is chosen wherever it stands |
| ReindexMedia.Images | scripts/reindexMedia.cjs:44 | exactly the `.jpg`, `.jpeg` and `.webp` files, in any case, are indexed |
| ReindexMedia.ImagesKeepOrder | scripts/reindexMedia.cjs:44 | the kept pictures stay in listing order: a listing filters part by part, and one file is kept exactly when it is a picture |
| ReindexMedia.GroupByStem | scripts/reindexMedia.cjs:52-58 | the keys are the distinct stems in order of first appearance, and each group holds exactly the files with that stem, in listing order |
| ReindexMedia.SortedStems | scripts/reindexMedia.cjs:61 | the stems are distinct, are exactly the stems of the pictures, and are sorted when the comparator is a strict order |
| ReindexMedia.SortedGroup | scripts/reindexMedia.cjs:69 | a stem's group, sorted by code units, holds exactly that stem's pictures |
| ReindexMedia.Hero | scripts/reindexMedia.cjs:64-65 | the hero URL is that of the first best-ranked hero file of the first stem's group in listing order, so a picture of that stem |
| ReindexMedia.Gallery | scripts/reindexMedia.cjs:68-72 | one gallery URL per stem, in stem order: the first best-ranked thumbnail of that stem's group in code-unit order |
| ReindexMedia.Replaced | scripts/reindexMedia.cjs:60-84 | only the slug's entry changes, and it is replaced whole: the chosen hero of the first stem, the chosen thumbnail of each stem and the timestamp, with no other field kept |
| ReindexMedia.Reindex | scripts/reindexMedia.cjs:33-84 | a missing slug is a usage error; no indexed picture is an error; otherwise the map with the slug's record rebuilt |
| Lists.SortBySorted | scripts/reindexMedia.cjs:61 | the stable insertion sort is sorted under a strict order |
| Lists.CodeUnitOrderIsStrict | scripts/reindexMedia.cjs:69 | comparing UTF-16 code units is a strict order |
| MediaDb.MediaUrlFile | scripts/reindexMedia.cjs:65 | the file name is what follows the last slash of a media URL |
| ImportMedia.FlagTakesNextToken | scripts/importMedia.cjs:12-14 | a flag takes the next token as its value, even when that token looks like a flag |
| ImportMedia.LaterOverrides | scripts/importMedia.cjs:11-15 | a later flag with a value overrides the earlier one and changes no other field |
| ImportMedia.DanglingFlag | scripts/importMedia.cjs:12-14 | a flag as the last token sets its field to undefined |
| ImportMedia.IgnoresOther | scripts/importMedia.cjs:11-15 | a token that is not a flag, read where a flag could stand, is ignored |
| ImportMedia.ParseSplit | scripts/importMedia.cjs:11-15 | reading a prefix that ends on a token boundary, then the rest, is reading the whole line |
| ImportMedia.Collected | scripts/importMedia.cjs:35 | exactly the walked paths ending in `.jpg`, `.jpeg`, `.png` or `.webp`, in any case, are collected |
| ImportMedia.CollapseRun | scripts/importMedia.cjs:51 | a white-space run between two words becomes exactly one underscore |
| ImportMedia.CollapseKeepsSpaceFree | scripts/importMedia.cjs:51 | a name without white space is not changed by the replacement |
| ImportMedia.StemShape | scripts/importMedia.cjs:50-51 | a stem has no white space and no capital letter |
| ImportMedia.StemOfFile | scripts/importMedia.cjs:50-51 | the stem of "dir/name.ext" is the name with its white-space runs collapsed and lower-cased; the directory and extension play no part |
| ImportMedia.Outputs | scripts/importMedia.cjs:53-55 | four outputs per source: `_1200` and `_800`, each as `.jpg` and `.webp` |
| ImportMedia.OutputsIndexedUnderStem | scripts/importMedia.cjs:53-55 | the reindex script indexes every output and files it under the stem it was written for |
| ImportMedia.ReindexPicksImported | scripts/importMedia.cjs:53-55 | reindexing one source's outputs, in any order, picks its `_1200.jpg` as hero and its `_800.jpg` as thumbnail |
| ImportMedia.ChosenSource | scripts/importMedia.cjs:86-97 | the zip archive is used when given, else the folder; with neither there is no source |
| ImportMedia.OptimizeAndCopy | scripts/importMedia.cjs:46-69 | the loop sets the hero on the first source only: no sources leave it null, otherwise it is the first source's `_1200.jpg`; the gallery gets one `_800.jpg` per source, in order |
| ImportMedia.HeroPairsFirstThumb | scripts/importMedia.cjs:63-66 | the hero and the first gallery picture are two widths of the same stem |
| ImportMedia.Merged | scripts/importMedia.cjs:110-113 | only the venue's entry changes; its hero, gallery and timestamp are set and its other fields are kept |
| ImportMedia.Import | scripts/importMedia.cjs:72-113 | a missing venue, then a missing source, then no collected picture are errors, in that order; otherwise only the venue changes, with the hero of the first source in sorted order, one thumbnail per source and the old extra fields |
| VenuesPage.CardImage | restored/pages/venues.tsx:14 | the card picture is the hero, else the first gallery picture, else null; null exactly when there is no hero and no gallery picture |
| VenuesPage.CardOf | restored/pages/venues.tsx:11-17 | the slug is the key; the title is the slug with every underscore replaced by a space; the category is null and there are no tags |
| VenuesPage.TitleGivesBackSlug | restored/pages/venues.tsx:13 | a slug without spaces can be recovered from its title |
| VenuesPage.OneCardPerEntry | restored/pages/venues.tsx:11-12 | as many cards as entries; every entry has a card with its key as slug; no two cards share a slug |
| CategoryChips.Chips | components/CategoryChips.tsx:13-14 | "All" with the sum of the counts comes first, then one chip per category in order: n+1 chips |
| CategoryChips.TotalIsSum | components/CategoryChips.tsx:13 | the left fold over the counts equals their sum |
| CategoryChips.TotalAppend | components/CategoryChips.tsx:13 | the total of two lists joined is the sum of their totals |
| CategoryChips.Selected | components/CategoryChips.tsx:25-43 | pressing a chip reports its own name, and "All" reports "All" |
| CategoryChips.AtMostOneActive | components/CategoryChips.tsx:20 | with distinct categories, at most one chip is active for any value |
| CategoryChips.AllActiveIff | components/CategoryChips.tsx:20 | the "All" chip is active exactly when the value is "All" |

## Left out

- **The clock, the time zone and daylight saving.** "Now" is a weekday plus a time of day. `setDate` and `setHours` are exact day and hour arithmetic, so a day always has 24 hours.
- JsNumber.ParseNumber: only part of `Number(text)`. It reads ASCII-trimmed, optionally signed decimal digit runs as exact integers, with empty text read as 0. Fractions, exponents, hexadecimal and "Infinity" read as NaN here. Double rounding is not modelled: `Number` rounds a digit run above 2^53 to the nearest double and gives Infinity past about 1.8e308, while here every digit run keeps its exact value.
- DailyHours.IsOpenNow: numbers are exact integers here. In the source, `Number` rounds digit runs above 2^53, so two different long runs such as "9007199254740993" and "9007199254740992" become equal and the daily evaluator says closed, where this model compares them exactly and can say open. A run past about 1.8e308 is Infinity in the source, and its minutes are Infinity or NaN; here it is a large integer.
- WeeklyHours.IsOpenNow: `setHours` is exact day-and-hour arithmetic here, with no bound. In the source, an hour or minute that carries the date past the ±8.64e15 ms range of `Date` gives an Invalid Date, and every comparison with it is false, so such a window never holds (for instance `["09", "3000000000"]`). The model builds the window as if the range were unbounded and can say open. Hours past 2^53 also round in the source, as for `DailyHours.IsOpenNow`.
- **Unicode.** Case folding (`toLowerCase`) and white space (`\s`, `trim`) are restricted to ASCII.
- **`encodeURIComponent` and `localeCompare`.** They are uninterpreted parameters. Where sortedness is proved, the comparator is assumed to be a strict order.
- **Numeric ids.** `String(id)` for a numeric id is not modelled. Ids are strings.
- **Rendering.** JSX markup, Tailwind classes and `CATEGORY_THEME` are not modelled.
- **Script I/O.** Left out: reading and writing `data/venues_media.json` and its parse-failure fallback to an empty map; `fs.readdir`; the recursive directory walk and its order; `unzip`; `sharp` resizing; console output.
  - The walk and the folder listing are parameters.
  - The timestamp is a parameter.
- **Path normalisation.** `path.join`, `path.posix.join` and `path.basename` are modelled for plain segments only. A venue or slug containing `.` or `..` segments, or a trailing slash, is not normalised.
- ImportMedia.ParsedName: the degenerate base name "..". `path.parse("..")` gives an empty extension; this model strips at the last dot instead. No collected picture has that name.
- **JSON types.** A map entry that is not an object, where the import's `??=` would throw in strict mode, is not modelled. Records are always objects here.
- **Object key order.** `Object.entries` lists integer-like keys first. Here the entry order is a parameter: a duplicate-free list of the map's keys.
- Evaluators.DailyVersusWeekly: only times both evaluators read as numbers within one day. A part that is not a number is covered separately by `Evaluators.UnparsableMinute`.
- ImportMedia.Merged: inherited object keys. For a venue named like an `Object.prototype` member ("constructor", "toString", "__proto__"), `db[venue] ??= {}` finds the inherited value and the saved JSON has no entry for the venue. The model creates the entry.
- ReindexMedia.Replaced: the key "__proto__". `db["__proto__"] = {...}` replaces the prototype, and nothing is saved under that slug. The model stores the record.
- **The encoder in the read-back lemmas.** `PlaceCardRow.MapsLinkReadsBack`, `PlaceCardRow.YelpLinkReadsBack` and `PlaceRow.YelpUrlReadsBack` assume the encoder is injective; the Yelp ones also assume it never writes "&". `encodeURIComponent` has both properties.
- **Category counts.** They are unbounded integers. Floating-point addition is not modelled.
