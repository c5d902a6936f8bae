# AG-Remisión: a verified model of the guide logic

AG-Remisión is a multiplatform app for reviewing *guías de remisión*
(delivery guides). A guide is uploaded as a document and read by an
extraction backend. The user checks it, approves it and keeps it in a
per-user Firestore collection. This project models in Dafny the small
layer of app-owned logic under the screens, and proves what that code
promises:

- `GuideModel` (`remission_guide.dfy`): the guide record, the status
  constants and `RemissionGuide.isValid()`. A valid guide has an
  eleven-digit RUC and a non-blank name and date. An approved guide must
  also carry a usable product list.
- `Formatters` (`formatters.dfy`): `formatFileSize` (bytes and KB),
  `formatIsoWithSplit`, `formatTiempoAtras` with the current instant
  passed in, `truncarNombre`, `toReadableTime`, `parseGuideDate` and
  `filterGuidesByDate`.
- `HistoryTabs` (`history_tabs.dfy`): the split of the filtered list into
  the "Pendientes" and "Procesadas" tabs.
- `ErrorTranslator` (`error_translator.dfy`): `translateError`, an ordered
  first-match table over the lower-cased message.
- `DateRangeSelector` (`date_range_selector.dfy`): `startOfDayMillis`,
  `endOfDayMillis`, `millisToDmy` and `pad`.
- `GuideRepository` (`guide_repository.dfy`): the store rules of
  `addGuide` and `deleteGuide`, over a class holding a map of per-user
  collections. It also holds the document-to-guide normalisation of
  `getGuides` and the answer-to-guide mapping of `extractDataFromGuide`.
- `GeminiResponseModels` (`gemini_response_models.dfy`): the decoded
  backend answer, and the JSON text a product list is stored as.

Support modules give the library behaviour the code relies on:

- `KotlinText` (`kotlin_text.dfy`): Kotlin string and integer semantics.
  It covers `isDigit`, `isBlank`, `toInt`, `padStart`, `split` with a
  limit, `lowercase`, truncating `/` and `%`, and 32/64-bit narrowing.
- `Calendar` (`calendar.dfy`): kotlinx-datetime's `LocalDate` on the
  proleptic Gregorian calendar, the UTC date of an epoch instant, and
  `LocalDate.parse`.
- `Seqs` (`seqs.dfy`): `filter` and the subsequence order.
- `Wrappers` (`wrappers.dfy`): `Option` and `Result`.

The date of an instant is defined by search, against the closed-form day
count `EpochDay`. It is proved to be the inverse of that count, and
comparing dates is proved equal to comparing day counts.

Two definitions of the guide exist in the app. `domain/RemissionGuide.kt`
is used by the repository and has a non-null status. `domain/model/RemissionGuide.kt`
has `isValid` and a nullable status. One datatype with `status: Option<string>`
stands for both.

## Model

| member | source | states |
|---|---|---|
| GuideModel.IsValid | composeApp/src/commonMain/kotlin/domain/model/RemissionGuide.kt:22-33 | a valid guide has an 11-character RUC and a non-blank name and date, and when APROBADO a stored product list other than `[]` |
| GuideModel.RucOfWrongLengthIsInvalid | composeApp/src/commonMain/kotlin/domain/model/RemissionGuide.kt:23 | a RUC whose length is not 11 makes the guide invalid |
| GuideModel.RucWithNonDigitIsInvalid | composeApp/src/commonMain/kotlin/domain/model/RemissionGuide.kt:23 | a RUC holding any character that is not a Unicode decimal digit makes the guide invalid |
| GuideModel.BlankNameOrDateIsInvalid | composeApp/src/commonMain/kotlin/domain/model/RemissionGuide.kt:24 | an empty or all-whitespace name or date makes the guide invalid |
| GuideModel.ApprovedWithoutProductsIsInvalid | composeApp/src/commonMain/kotlin/domain/model/RemissionGuide.kt:25-28 | an APROBADO guide whose `productosJson` is absent, blank or exactly `[]` is invalid |
| GuideModel.SpacedEmptyListPassesApproval | composeApp/src/commonMain/kotlin/domain/model/RemissionGuide.kt:28 | only the exact text `[]` counts as empty: `[ ]` satisfies the approval check |
| GuideModel.UnapprovedValidity | composeApp/src/commonMain/kotlin/domain/model/RemissionGuide.kt:25-32 | for any status but APROBADO (null included) validity is exactly RUC and basic data, and `extractedData` has no effect |
| GuideModel.CompleteGuideIsValid | composeApp/src/commonMain/kotlin/domain/model/RemissionGuide.kt:22-33 | an 11-digit RUC, non-blank name and date, and (when approved) a usable product list together make the guide valid |
| GuideModel.BusinessLogicExamples | composeApp/src/commonTest/kotlin/domain/BusinessLogicTest.kt:12-52 | the three unit-test guides: the 4-digit RUC and the approved guide with `[]` are invalid, the complete guide is valid |
| Formatters.FormatFileSize | composeApp/src/commonMain/kotlin/utils/Formatters.kt:12-15 | below 1024 bytes the size is printed in bytes; below 1 MiB it is printed as the whole number n of KiB with n·1024 ≤ bytes < (n+1)·1024 |
| Formatters.FormatIsoWithSplit | composeApp/src/commonMain/kotlin/utils/Formatters.kt:31-55 | an input whose date, hour or minute cannot be read comes back unchanged (the catch-all); a readable one is shown day first on the twelve-hour clock |
| Formatters.FormatIsoText | composeApp/src/commonMain/kotlin/utils/Formatters.kt:31-51 | a printed `YYYY-MM-DDTHH:mm:ss…` timestamp is shown as `dd/MM/year h:mm` with the twelve-hour value of the hour and AM exactly before noon; the seconds and the trailing text are dropped |
| Formatters.FormatIsoWithoutT | composeApp/src/commonMain/kotlin/utils/Formatters.kt:33-54 | a text without `T` has no time part, the destructuring fails and the text comes back unchanged |
| Formatters.FormatIsoWithoutHour | composeApp/src/commonMain/kotlin/utils/Formatters.kt:38-54 | a time part that does not start with a digit or a colon leaves an empty hour, `toInt` fails and the whole text comes back unchanged |
| Formatters.ReadIsoStamp | composeApp/src/commonMain/kotlin/utils/Formatters.kt:33-41 | a stamp is read only from a text holding `T`, and every field read is a 32-bit value |
| Formatters.TwelveHourClock | composeApp/src/commonMain/kotlin/utils/Formatters.kt:42-47 | for hours 0..23 the 12-hour value is in 1..12, congruent to the hour modulo 12, and AM is used exactly before 12 |
| Formatters.ShowStamp | composeApp/src/commonMain/kotlin/utils/Formatters.kt:42-51 | the shown text ends in AM exactly when the hour is below 12 and in PM otherwise |
| Formatters.ReadIsoText | composeApp/src/commonMain/kotlin/utils/Formatters.kt:33-41 | reading a printed `YYYY-MM-DDTHH:mm:ss…` timestamp recovers its year, month, day, hour and minute |
| Formatters.TiempoAtrasNamesLargestUnit | composeApp/src/commonMain/kotlin/utils/Formatters.kt:71-85 | with now passed in, the text is the one given by the largest whole unit (days, hours, minutes) of the elapsed time, singular for 1, or "Justo ahora" for less than a minute or a future instant |
| Formatters.FormatTiempoAtras | composeApp/src/commonMain/kotlin/utils/Formatters.kt:71-85 | whatever the instants, the text is "Justo ahora" or ends in " atrás" |
| Formatters.TruncarNombre | composeApp/src/commonMain/kotlin/utils/Formatters.kt:87-93 | a negative limit throws (None); otherwise a string no longer than the limit is returned unchanged and a longer one becomes its first n characters plus `...`, length n+3 |
| Formatters.TruncarNombreDefault | composeApp/src/commonMain/kotlin/utils/Formatters.kt:87 | with the default limit of 30 a name is always accepted, at most 33 characters come back, and a name of up to 30 characters comes back whole |
| Formatters.ToReadableTime | composeApp/src/commonMain/kotlin/utils/Formatters.kt:95-103 | the text ends in `s`, and the minutes are left out (the text ends in " s") exactly when the narrowed minute count is not positive |
| Formatters.ReadableTimeShowsMinutesAndSeconds | composeApp/src/commonMain/kotlin/utils/Formatters.kt:95-103 | a non-negative count prints s/60 minutes and s%60 seconds, and leaves the minutes out exactly when s/60 is 0 |
| Formatters.ReadableTimeOfNegative | composeApp/src/commonMain/kotlin/utils/Formatters.kt:95-103 | a negative count prints only its truncated (negative) remainder in seconds |
| Formatters.ParseGuideDate | composeApp/src/commonMain/kotlin/utils/Formatters.kt:109-116 | a date read from a text is valid, has a four-digit year, and its ISO text is exactly that text |
| Formatters.FilterGuidesByDate | composeApp/src/commonMain/kotlin/utils/Formatters.kt:118-140 | no bounds returns the list unchanged; the result is an order-preserving subsequence; with a bound every kept guide is in range; every in-range guide is kept |
| Formatters.FilterGuidesByDateCount | composeApp/src/commonMain/kotlin/utils/Formatters.kt:118-140 | with a bound, a guide in range is kept as many times as it is listed and any other guide not at all |
| Formatters.UnparseableDateExcluded | composeApp/src/commonMain/kotlin/utils/Formatters.kt:135 | once a bound is given, a guide whose date does not parse is dropped |
| Formatters.FilterKeepsDaysInRange | composeApp/src/commonMain/kotlin/utils/Formatters.kt:127-139 | a guide is kept exactly when it is listed, its date parses, and its day lies between the UTC day of the start bound and that of the end bound, inclusive |
| Formatters.FilterGuidesByDateIdempotent | composeApp/src/commonMain/kotlin/utils/Formatters.kt:118-140 | filtering twice with the same bounds equals filtering once |
| Calendar.DateOfEpochDay | composeApp/src/commonMain/kotlin/utils/Formatters.kt:128 | the date of an epoch day is a valid Gregorian date whose epoch day is that day |
| Calendar.DateOfEpochDayInverse | composeApp/src/commonMain/kotlin/utils/Formatters.kt:128 | the date of a valid date's epoch day is that date |
| Calendar.DateOrderIsDayOrder | composeApp/src/commonMain/kotlin/utils/Formatters.kt:136-137 | comparing two valid dates agrees with comparing their epoch days, and equal days mean equal dates |
| Calendar.DateOfMillis | composeApp/src/commonMain/kotlin/utils/Formatters.kt:127-132 | the UTC date of an instant is valid and its day contains the instant |
| Calendar.SameDateOfMillis | composeApp/src/commonMain/kotlin/presentation/components/DateRangeSelector.kt:120 | two instants fall on the same UTC date exactly when they lie in the same whole UTC day |
| Calendar.ParseIsoDate | composeApp/src/commonMain/kotlin/utils/Formatters.kt:109-116 | an accepted `YYYY-MM-DD` text yields a valid date (month 1..12, day within the month, leap years included) |
| Calendar.ParseFormatIsoDate | composeApp/src/commonMain/kotlin/utils/Formatters.kt:109-116 | the ISO text of a valid date with a four-digit year parses back to that date |
| Calendar.FormatParseIsoDate | composeApp/src/commonMain/kotlin/utils/Formatters.kt:109-116 | an accepted text is exactly the ISO text of the date it yields, so each date has one accepted text |
| HistoryTabs.TabsPartitionGuides | composeApp/src/commonMain/kotlin/presentation/guide/HistoryScreen.kt:63-68 | the pending and processed tabs split the list: their multisets add up to it, no guide is in both, and each keeps list order |
| HistoryTabs.PendingGuides | composeApp/src/commonMain/kotlin/presentation/guide/HistoryScreen.kt:63-65 | the pending tab holds listed guides whose status is PENDIENTE_REVISION, and every such guide |
| HistoryTabs.ProcessedGuides | composeApp/src/commonMain/kotlin/presentation/guide/HistoryScreen.kt:66-68 | the processed tab holds listed guides with any other status (null included), and every such guide |
| ErrorTranslator.TranslateError | composeApp/src/commonMain/kotlin/utils/ErrorTranslator.kt:3-43 | null or blank gives the unknown-error text; otherwise the text of the first rule that holds on the lower-cased message, or the message itself |
| ErrorTranslator.FirstMatch | composeApp/src/commonMain/kotlin/utils/ErrorTranslator.kt:8-39 | the picked rule holds and no earlier rule holds; with no pick, no rule holds |
| ErrorTranslator.PickIsNoLaterThanAnyMatch | composeApp/src/commonMain/kotlin/utils/ErrorTranslator.kt:8-39 | a rule that holds is never passed over: the pick is that rule or an earlier one |
| ErrorTranslator.MatchingIgnoresCase | composeApp/src/commonMain/kotlin/utils/ErrorTranslator.kt:6 | two recognised messages that agree once lower-cased get the same text |
| ErrorTranslator.CaseVariantsTranslateAlike | composeApp/src/commonMain/kotlin/utils/ErrorTranslator.kt:6 | messages that differ only in the case of ASCII letters lower-case to the same text, are blank together, and when recognised get the same translation |
| ErrorTranslator.NetworkBeforeFailed | composeApp/src/commonMain/kotlin/utils/ErrorTranslator.kt:21-38 | a message mentioning "network" and "failed" gets the network text, never the "failed" text |
| ErrorTranslator.UnrecognisedMessageVerbatim | composeApp/src/commonMain/kotlin/utils/ErrorTranslator.kt:41 | a non-blank message no rule recognises is returned verbatim, capitals kept |
| ErrorTranslator.InvalidCredentialsRuleUnreachable | composeApp/src/commonMain/kotlin/utils/ErrorTranslator.kt:17-28 | the "invalid credentials" rule never fires: the earlier credential/invalid rule always takes it |
| ErrorTranslator.CollectionRuleUnreachable | composeApp/src/commonMain/kotlin/utils/ErrorTranslator.kt:32-34 | the "collection" and "not found" rule never fires: the plain "not found" rule comes first |
| ErrorTranslator.TranslationNeverEmpty | composeApp/src/commonMain/kotlin/utils/ErrorTranslator.kt:3-43 | the returned text is never empty |
| DateRangeSelector.EpochMillisOf | composeApp/src/commonMain/kotlin/presentation/components/DateRangeSelector.kt:127-128 | the instant lies in the date's UTC day, at the given time of day with the nanoseconds truncated to milliseconds |
| DateRangeSelector.StartOfDayMillis | composeApp/src/commonMain/kotlin/presentation/components/DateRangeSelector.kt:124-129 | the start of the day is the instant rounded down to a multiple of 86 400 000 ms, at or before it and within one day |
| DateRangeSelector.EndOfDayMillis | composeApp/src/commonMain/kotlin/presentation/components/DateRangeSelector.kt:131-136 | the end of the day is the start plus 86 399 999 ms (the nanoseconds truncate to 999 ms), at or after the instant and within one day |
| DateRangeSelector.DayBoundsKeepTheDate | composeApp/src/commonMain/kotlin/presentation/components/DateRangeSelector.kt:124-136 | both bounds fall on the instant's UTC date, and each is idempotent |
| DateRangeSelector.DmyFields | composeApp/src/commonMain/kotlin/presentation/components/DateRangeSelector.kt:118-122 | the text splits at `/` into a two-character day and month that parse back to the date's day and month, then the year |
| DateRangeSelector.MillisToDmy | composeApp/src/commonMain/kotlin/presentation/components/DateRangeSelector.kt:118-122 | the text has a two-character day, `/`, a two-character month, `/`, then the year |
| KotlinText.PadDenotes | composeApp/src/commonMain/kotlin/presentation/components/DateRangeSelector.kt:138 | for n ≥ 0 the padded text has at least two ASCII digits, exactly two below 100, and denotes n |
| KotlinText.Pad | composeApp/src/commonMain/kotlin/presentation/components/DateRangeSelector.kt:138 | the text has at least two characters; a single digit gets a leading 0 and a number from 10 up is printed as it is |
| KotlinText.ParseIntOfIntToString | composeApp/src/commonMain/kotlin/utils/Formatters.kt:35-37 | `toInt` reads back every 32-bit integer from its decimal text |
| KotlinText.ParseInt | composeApp/src/commonMain/kotlin/utils/Formatters.kt:35-37 | a text is accepted exactly when, after an optional `+` or `-`, it is one or more decimal digits whose signed value fits in 32 bits; the value is that signed value |
| KotlinText.ToInt | composeApp/src/commonMain/kotlin/utils/Formatters.kt:74 | narrowing to Int gives the 32-bit value congruent modulo 2^32, and keeps values already in range |
| KotlinText.Quot | composeApp/src/commonMain/kotlin/utils/Formatters.kt:74-77 | division truncates toward zero: for a non-negative dividend the remainder lies in [0, b), for a negative one in (-b, 0], and the quotient has the sign of the dividend |
| KotlinText.Rem | composeApp/src/commonMain/kotlin/utils/Formatters.kt:97 | the remainder pairs with the truncating quotient and takes the sign of the dividend |
| KotlinText.Split | composeApp/src/commonMain/kotlin/utils/Formatters.kt:33-34 | a split with a limit yields between one and `limit` parts |
| KotlinText.SplitJoin | composeApp/src/commonMain/kotlin/utils/Formatters.kt:33-34 | joining the parts of a bounded split gives back the text; no part but the last holds the separator, and the last holds none unless the limit was reached |
| KotlinText.TakeTimeChars | composeApp/src/commonMain/kotlin/utils/Formatters.kt:38 | the kept prefix holds only digits and colons and stops at the first other character |
| KotlinText.PadStart | composeApp/src/commonMain/kotlin/utils/Formatters.kt:48-50 | padding fills to the length with the pad character in front and keeps the text at the end |
| KotlinText.IsDigit | composeApp/src/commonMain/kotlin/domain/model/RemissionGuide.kt:23 | the ASCII digits are digits |
| KotlinText.IsDigitInBlock | composeApp/src/commonMain/kotlin/domain/model/RemissionGuide.kt:23 | a character is a digit exactly when it lies in one of the listed decimal-digit blocks |
| KotlinText.IsBlank | composeApp/src/commonMain/kotlin/domain/model/RemissionGuide.kt:24 | the empty text is blank, and a blank text holds no digit |
| KotlinText.LowerChar | composeApp/src/commonMain/kotlin/utils/ErrorTranslator.kt:6 | a capital ASCII letter becomes its small letter; the result is never a letter that folds, and every character outside the folded letters is kept |
| KotlinText.Lowercase | composeApp/src/commonMain/kotlin/utils/ErrorTranslator.kt:6 | the lower-cased message keeps its length, holds no capital ASCII letter, and keeps every character that is not a Basic Latin or Latin-1 capital |
| KotlinText.LowercaseIdempotent | composeApp/src/commonMain/kotlin/utils/ErrorTranslator.kt:6 | lower-casing twice is lower-casing once |
| GuideRepository.GuideStore.constructor | composeApp/src/commonMain/kotlin/data/FirestoreGuideRepository.kt:29-33 | an empty store for the given signed-in user |
| GuideRepository.GuideStore.AddGuide | composeApp/src/commonMain/kotlin/data/FirestoreGuideRepository.kt:95-118 | no signed-in user: failure, store unchanged; non-blank id: the guide replaces that key of the user's collection; blank id: stored under the fresh key, carrying that key as id, and the collection grows by one; the guide is then found under its key with that id, and every stored guide still sits under its own id |
| GuideRepository.GuideStore.DeleteGuide | composeApp/src/commonMain/kotlin/data/FirestoreGuideRepository.kt:120-140 | no signed-in user or a blank id: the matching failure, store unchanged; otherwise exactly that key is removed from the user's collection |
| GuideRepository.Normalise | composeApp/src/commonMain/kotlin/data/FirestoreGuideRepository.kt:72-80 | a document yields a guide exactly when it decodes and its id is not blank, and the guide carries the document id |
| GuideRepository.GetGuides | composeApp/src/commonMain/kotlin/data/FirestoreGuideRepository.kt:59-91 | no signed-in user or a failed stream gives the empty list; no listed guide has a blank id |
| GuideRepository.NormaliseAll | composeApp/src/commonMain/kotlin/data/FirestoreGuideRepository.kt:71-85 | the listing has at most one guide per document, none with a blank id |
| GuideRepository.ListedGuidesComeFromDocuments | composeApp/src/commonMain/kotlin/data/FirestoreGuideRepository.kt:71-85 | each listed guide is the data of a document, with that document's id, in document order |
| GuideRepository.EveryGoodDocumentIsListed | composeApp/src/commonMain/kotlin/data/FirestoreGuideRepository.kt:71-85 | every document that decodes and has a non-blank id is listed |
| GuideRepository.ListingAValidCollection | composeApp/src/commonMain/kotlin/data/FirestoreGuideRepository.kt:71-85 | a collection whose guides already carry their document ids lists back exactly those guides |
| GuideRepository.ExtractDataFromGuide | composeApp/src/commonMain/kotlin/data/FirestoreGuideRepository.kt:158-203 | transport, decode and error-status cases give the source's failure messages; a decoded answer gives the guide described by the extraction rules |
| GuideRepository.ExtractedData | composeApp/src/commonMain/kotlin/data/FirestoreGuideRepository.kt:163-183 | the three date and cost entries appear exactly when given non-blank; `productosJson` exactly for a non-empty list, as its JSON text; no other key |
| GuideRepository.PutIfGiven | composeApp/src/commonMain/kotlin/data/FirestoreGuideRepository.kt:165-167 | a value is written under its key exactly when present and not blank; other keys untouched |
| GuideRepository.ExtractedGuideIsDetermined | composeApp/src/commonMain/kotlin/data/FirestoreGuideRepository.kt:184-190 | the extraction rules fix the guide completely |
| GuideRepository.ExtractedGuideValidity | composeApp/src/commonMain/kotlin/data/FirestoreGuideRepository.kt:184-190 | a freshly extracted guide is valid exactly when the file name is non-blank and the RUC is eleven digits; a missing RUC makes it invalid |
| GeminiResponseModels.EncodeProductos | composeApp/src/commonMain/kotlin/data/FirestoreGuideRepository.kt:171 | a product list becomes a JSON array text; a non-empty one starts with `[{` |
| GeminiResponseModels.NonEmptyListIsStorable | composeApp/src/commonMain/kotlin/data/FirestoreGuideRepository.kt:168-171 | a non-empty list is stored as text that is neither blank nor `[]` |
| GeminiResponseModels.UnescapeEscape | composeApp/src/commonMain/kotlin/data/FirestoreGuideRepository.kt:171 | a reader of escaped text (a device of this model) recovers the original from its escaped form |
| GeminiResponseModels.EscapeInjective | composeApp/src/commonMain/kotlin/data/FirestoreGuideRepository.kt:171 | two different strings never encode to the same JSON string literal |

## Left out

- The screens and widgets, the Firebase Auth and Firestore SDKs, live snapshot flows and `flatMapLatest`: UI and foreign calls. The store is modelled as an in-memory map per user; a snapshot is passed in as a list of documents.
- The HTTP POST, Base64 encoding and kotlinx.serialization decoding: library calls. `extractDataFromGuide` takes the outcome of the call as a parameter: a decoded answer or the decoder's message, an error status with the shape of its body, or a transport failure.
- The `JsonConvertException` branch of `extractDataFromGuide`: `decodeFromString` reports a `SerializationException`, so a decode failure takes the general branch and fails with the decoder's own message. The model follows the code here, not the catch block's intent.
- The `productosError` entries of `extractDataFromGuide`: encoding a list of `Producto` does not fail, so only the successful `productosJson` entry is modelled.
- GeminiResponseModels.EncodeProductos: escapes only `"` and `\`. Control characters, and the printing of the `cantidad` number, are outside the model. `cantidad` is carried as the JSON text of the number.
- The JSON name of `fechaLlegada` (`fechaLegada`) only matters to the decoder, which is not part of this model.
- `println` logging and `printStackTrace`: output only.
- The clock read in `formatTiempoAtras`: the current instant is a parameter.
- The document id Firestore allocates in `addGuide`: a parameter, required fresh and non-blank.
- SDK exceptions thrown inside `addGuide`, `deleteGuide` and `getGuides`: the model assumes the SDK calls succeed.
- `approveGuide`: declared by the repository interface but not implemented in the files modelled.
- Floating point: the MB and GB branches of `formatFileSize`, plus `roundToTwoDecimals`, `millisecondsToSecondsString`, `toFormattedString` and `millisecondsToSeconds`.
- Formatters.FormatFileSize: requires a size below 1 MiB, because the branches above that are floating point.
- Formatters.TiempoAtrasNamesLargestUnit: requires the elapsed seconds to fit in an Int. Beyond that, the 32-bit narrowing in `FormatTiempoAtras` wraps, and no word form is claimed.
- Formatters.ReadableTimeShowsMinutesAndSeconds: requires a non-negative count whose minutes fit in an Int. Larger counts wrap through the 32-bit narrowing in `ToReadableTime`.
- Formatters.ReadableTimeOfNegative: requires the minutes to fit in an Int, for the same reason.
- Strings are sequences of Unicode scalar values, not UTF-16 units. `length` and `substring` differ for characters outside the Basic Multilingual Plane.
- KotlinText.IsDigit: covers the decimal-digit blocks of the Basic Multilingual Plane as of Unicode 15 only. Digits outside that plane, and blocks added later, are not digits here.
- KotlinText.Lowercase: lower-cases ASCII and Latin-1 letters only. It has no locale and no full Unicode case mapping.
- Calendar.ParseIsoDate: accepts only a four-digit year. Signed and extended years are rejected.
- Instants beyond the range kotlinx-datetime clamps to: the day arithmetic is exact on unbounded integers.
- DateRangeSelector.EpochMillisOf: does not model the Long overflow checks of `toEpochMilliseconds`.
