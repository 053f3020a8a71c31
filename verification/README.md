# FastQue and BarberCue: models and proofs

The six parts of the repository whose correctness depends on more than one function, modelled in Dafny.

- **Release guard** (`Wire`, `WireEdges`, `Manifest`, `ManifestEncoding`, `ManifestFlaws`, `Zip`, `Release`). The hand-written ZIP, wire-format
  and XmlNode readers take arbitrary bytes. The theorems say that reading undoes writing for every archive and
  every element tree (sections 4.3.7, 4.3.12 and 4.3.16 of PKWARE APPNOTE.TXT; "Base 128 Varints" and "Message
  Structure" of the Protocol Buffers Encoding specification), that concatenated messages merge, that unknown fields
  do not matter, and that the guard therefore judges the manifest that was written; and what becomes of damaged
  archives and messages.
- **Importer** (`Retry`, `Grouping`, `TwoTier`, `RegionSlugs`, `CitySlugs`, `Importer`, `ImporterResume`,
  `ImporterProgram`, `ImporterOutcome`, `ImporterSlugs`). Slug disambiguation, the resumable write phase, and both
  together. A run is given a number of durable writes it may still make, so every stopping point is covered; an
  acknowledgement lost after a commit is a stop after it.
- **Seeder** (`Seeder`). One transaction per shop, then the credential file, with crashes before a commit and
  between a commit and the rename.
- **Sign-in** (`ApiClient`, `TokenReuse`, `RefreshOutcome`, `AuthSession`, `SessionOutcome`). Every `await` is a step
  boundary, calls are unbounded, and answers, storage results and failures arrive in any order.
- **Days and zones** (`Calendar`, `DayText`, `AdminAnalytics`, `Zone`, `Campaign`). Date.UTC normalisation (section
  21.4 of ECMA-262) against the Gregorian calendar, and local midnight under any offset function with one change.
- **Announcements and pending navigation** (`VoiceRanking`, `VoiceMerging`, `VoiceAnnounce`, `VoiceDedupe`,
  `QueueNavigation`, `NavigationOutcome`).

Objects the source updates in place are classes whose methods are proved equal to a step or fold function; the
theorems are about those functions, over every run. The `Outcome` modules state what runs come to on the events or
rows alone, without those functions. `Wrappers` holds Option and Result.

Bytes are a sequence of 0 to 255. JavaScript numbers in the wire reader are doubles with rounding, infinity and NaN.
A stored password hash is kept symbolic: it is matched by exactly the password it was made from.

Where the code and its documentation disagree, the model follows the code:

- `startOfZonedDay` is documented as the instant at which the day begins. It is not when local midnight is skipped
  or repeated in certain ways; `Zone.DayStartIff` says exactly which.
- The seeder's closing message calls a re-run safe. After a crash between a commit and the rename, every later run
  that reaches that shop is refused (`Seeder.RetryIsNotAlwaysSafe`). The file is then also behind the database,
  which its comment rules out only for a clean exit.
- `tryRefresh` has no answer to a failed save of the rotated token: unless a login or logout writes first, the next
  refresh sends the spent token again (`TokenReuse.ReusesTokenIff`).
- An earlier login or logout still awaiting can overwrite a later login (`AuthSession.SettlesIffUncontested`).
- The region slugs of a country are distinct within a name with the one exception of `RegionSlugs.SameNameCollideIff`,
  and across names with those of `RegionSlugs.DifferentNamesCollideIff`.
- The missing-voice warning is documented as never coming more than once per throttle. Its stamps do not; the
  warnings come late by different delays, and can come closer (`VoiceAnnounce.DelayBringsWarningsCloser`).
- The slug stages are there so that no source city disappears without a word. One whose country and slug are a
  legacy city's still does: the stages do not look at the legacy slugs (`ImporterSlugs.LegacyKeyIsSkipped`).
- A minimum version that is not a number refuses no finite version (`Release.MinimumIs`), and a manifest cut off
  inside its last field is read with what is left of it (`WireEdges.CutOffIsAccepted`).
- Voices are documented as deduplicated by identifier. A voice without one can also displace a voice whose identifier
  is its language (`VoiceMerging.IdentifierIsCandidateIff`).
- `toCreateBody` throws for the last day 9999-12-31, and texts of years 0 to 99 are never real dates to it.

## Model

| member | source | states |
|---|---|---|
| Wire.ReadVarint | apps/mobile/scripts/verify-android-release.js:74-84 | the loop returns the value and position the recursive definition of a varint gives on any bytes, JavaScript doubles (rounding, infinity, NaN) and reads past the end included |
| Wire.VarintFrom | apps/mobile/scripts/verify-android-release.js:74-84 | on any bytes the reader moves forward and stops at most one past the end |
| Wire.VarintRoundTrip | apps/mobile/scripts/verify-android-release.js:74-84 | a varint below 2^53 written anywhere in a buffer is read back exactly, with the position right after it |
| Wire.ReadFields | apps/mobile/scripts/verify-android-release.js:86-114 | the loop returns, for any value, the fields of the recursive definition or its wire-type error |
| Wire.ReadValue | apps/mobile/scripts/verify-android-release.js:95-110 | the four wire types and the error, as ValueAt says |
| Wire.FieldAt | apps/mobile/scripts/verify-android-release.js:86-114 | a field ends after its key and its value is shorter than what was left: the measure that makes decoding end |
| Wire.FieldDecodes | apps/mobile/scripts/verify-android-release.js:86-114 | a written field of any number and wire type is read back wherever it occurs, and the reader stops right after it |
| Wire.FieldsConcat | apps/mobile/scripts/verify-android-release.js:86-114 | appending any bytes to a message whose scan ends exactly appends their fields, or their error |
| Wire.FieldsRoundTrip | apps/mobile/scripts/verify-android-release.js:86-114 | the fields of any message come back in order and the scan ends exactly at its end |
| WireEdges.CutOffIsAccepted | apps/mobile/scripts/verify-android-release.js:86-114 | a message cut off inside the bytes of its last field is no error: that field comes back with the bytes that are left |
| WireEdges.UnknownWireTypeFails | apps/mobile/scripts/verify-android-release.js:107-109 | any wire type but 0, 1, 2 and 5 fails the whole message, whatever came before and follows |
| WireEdges.DoubleIsNearest | apps/mobile/scripts/verify-android-release.js:74-84 | a sum above 2^53 becomes the nearest double, the even one of two, or infinity |
| Manifest.ReadCompiledItem | apps/mobile/scripts/verify-android-release.js:116-132 | the loops compute the fold of the item fields, first string field, last flag or number winning |
| Manifest.ReadAttribute | apps/mobile/scripts/verify-android-release.js:141-150 | the attribute loop computes the fold of its fields |
| Manifest.ReadXmlNode | apps/mobile/scripts/verify-android-release.js:134-161 | on any bytes the recursive, node-filling loops end, in the node the fields describe or the error |
| Manifest.ReadElement | apps/mobile/scripts/verify-android-release.js:138-157 | the element loop updates name, attributes and children as the fold of its fields says |
| Manifest.ConcatenationMerges | apps/mobile/scripts/verify-android-release.js:134-161 | decoding a message followed by any bytes succeeds exactly when both decode, and gives the merge: last name wins, later attributes override, children are appended |
| Manifest.MergeAssociative | apps/mobile/scripts/verify-android-release.js:134-161 | merging decoded nodes is associative, so any number of messages may be concatenated |
| Manifest.ElementFieldsMerge | apps/mobile/scripts/verify-android-release.js:134-161 | reading element fields into a node is merging what they say on their own |
| ManifestEncoding.NodeDecodes | apps/mobile/scripts/verify-android-release.js:134-161 | a message written from any parts in any order, depth and width decodes to the meaning of its parts |
| ManifestEncoding.UnknownFieldsIgnored | apps/mobile/scripts/verify-android-release.js:134-161 | removing the fields the reader does not know, at node, element and attribute level and at any depth, changes nothing |
| ManifestEncoding.KnownValid | apps/mobile/scripts/verify-android-release.js:134-161 | the message without its unknown fields is again well formed, and not longer |
| ManifestEncoding.TreeRoundTrip | apps/mobile/scripts/verify-android-release.js:134-161 | every element tree, attributes raw, compiled string, bool, int or a reference the reader does not know, is read back from its encoding with its names, attributes and children in order |
| ManifestEncoding.LastAttributeWins | apps/mobile/scripts/verify-android-release.js:141-155 | of attributes with the same name the last one's value is read |
| ManifestEncoding.AttributePartsMeaning | apps/mobile/scripts/verify-android-release.js:151-155 | an attribute resolves to its raw text, or to its compiled value when the raw text is missing or empty, and to undefined when that value is neither text, flag nor number |
| ManifestFlaws.NumberForTextFails | apps/mobile/scripts/verify-android-release.js:116-161 | a number where a name, an attribute name or raw value, or an item text belongs fails the whole message, however deep it stands and whatever surrounds it |
| Zip.FindEnd | apps/mobile/scripts/verify-android-release.js:39-47 | the backward scan returns the last end signature in the final 65557 bytes, or nothing when there is none |
| Zip.ReadZipEntry | apps/mobile/scripts/verify-android-release.js:37-70 | the loop computes the directory walk for any bytes, with every error: no end record, bad directory, unsupported method, missing entry, read past the end |
| Zip.EndDownFromLast | apps/mobile/scripts/verify-android-release.js:39-47 | the scan's result is the last position at which an end record starts |
| Zip.EndFoundIff | apps/mobile/scripts/verify-android-release.js:39-47 | in any archive the true end record is found exactly when its comment holds no false one |
| Zip.WalkFindsFirst | apps/mobile/scripts/verify-android-release.js:50-69 | walking a directory returns the first entry with the wanted name, wherever the directory and the local records stand |
| Zip.ArchiveRoundTrip | apps/mobile/scripts/verify-android-release.js:37-70 | from any archive, records in any order with any bytes around them, the reader returns the first entry with the wanted name, inflated for method 8, or the error |
| Zip.PlainLayoutIsValid | apps/mobile/scripts/verify-android-release.js:37-70 | records back to back and the directory after them is one of those archives |
| Zip.FirstMatchIs | apps/mobile/scripts/verify-android-release.js:58-66 | the entry returned is the first of its name |
| Zip.FirstEntryIsRead | apps/mobile/scripts/verify-android-release.js:58-66 | from any archive the first entry of a name comes back as stored for method 0, inflated or with inflate's failure for 8, and refused by its number for every other method |
| Zip.DirectoryEndsEarly | apps/mobile/scripts/verify-android-release.js:47-50 | an end record that counts more entries than the directory holds: a name none of them has is reported as a corrupt directory, or as a read past the end |
| Zip.NothingWithoutEnd | apps/mobile/scripts/verify-android-release.js:39-46 | without an end record in the final 65557 bytes the reader says so |
| Zip.NoMatch | apps/mobile/scripts/verify-android-release.js:69 | "not found" when no entry has the name |
| Release.VerifyManifest | apps/mobile/scripts/verify-android-release.js:194-244 | the list of failures is empty exactly when the manifest meets the release requirement, whatever number the minimum version is, NaN and infinities included |
| Release.CheckApplication | apps/mobile/scripts/verify-android-release.js:208-234 | no failure exactly when the application registers the class, is not debuggable or testOnly, declares the main activity and fixes no orientation |
| Release.FindApplication | apps/mobile/scripts/verify-android-release.js:204 | the first application element, if there is one |
| Release.ClassNames | apps/mobile/scripts/verify-android-release.js:187-192 | which attribute values resolve to one class of a package: with a leading dot, alone or in full, and no others |
| Release.ExpectedNames | apps/mobile/scripts/verify-android-release.js:32-33 | the same for com.dcw.fastque, spelled out |
| Release.MainActivityIs | apps/mobile/scripts/verify-android-release.js:225-226 | the three ways an activity can be the main activity |
| Release.TrueIff | apps/mobile/scripts/verify-android-release.js:219-221 | a written attribute is true exactly as the raw text "true", or as a compiled true or "true" without a raw text |
| Release.MinimumIs | apps/mobile/scripts/verify-android-release.js:233-239 | what each minimum version asks for: a finite version at least as large, nothing more than a finite version for NaN and minus infinity, the impossible for infinity |
| Release.UnnamedIsUndefined | apps/mobile/scripts/verify-android-release.js:141-155 | an attribute without a name is found under "undefined" |
| Release.ProtoIsNeverFound | apps/mobile/scripts/verify-android-release.js:141-155 | an attribute named "__proto__" is never found |
| Release.LoadManifestFromAab | apps/mobile/scripts/verify-android-release.js:246-249 | the decoded manifest entry, or the error of either reader |
| Release.CheckBundle | apps/mobile/scripts/verify-android-release.js:194-249 | the whole guard accepts exactly the bundles whose decoded manifest is releasable |
| Release.GuardSeesTheWrittenManifest | apps/mobile/scripts/verify-android-release.js:37-161 | for every bundle whose first manifest entry, stored or deflated, encodes an element tree, the guard judges exactly that tree |
| Calendar.NormalisedIffDate | apps/web/lib/booking-sources.ts:61-66 | comparing normalised Date.UTC fields with the input accepts exactly the Gregorian dates, in any year |
| Calendar.FieldsOfDate | apps/web/lib/booking-sources.ts:61-66 | the UTC getters give back every date, leap years included |
| Calendar.DateOfDay | apps/web/lib/admin-crm-analytics.ts:18-20 | every day number has a date, and Date.UTC of it is that day again |
| Calendar.DatesOrdered | apps/web/lib/admin-crm-analytics.ts:47-56 | day numbers order dates as the calendar does |
| DayText.FieldsAgreeIff | apps/web/lib/booking-sources.ts:61-66 | realDate accepts exactly the real dates from year 100 on; texts of years 0 to 99 are all refused |
| DayText.TextOrderIsDayOrder | apps/web/lib/booking-sources.ts:76-78 | comparing two accepted dates as text compares the days they name |
| DayText.Written | apps/web/lib/admin-crm-analytics.ts:18-20 | the written day spells its three numbers in the accepted shape |
| AdminAnalytics.ParseDayExact | apps/web/lib/admin-crm-analytics.ts:23-33 | parseDay accepts exactly the dates of years 2000 to 2999 and gives their midnight |
| AdminAnalytics.PrintAfterParse | apps/web/lib/admin-crm-analytics.ts:18-33 | writing the day of an accepted text gives the text again |
| AdminAnalytics.ParseAfterPrint | apps/web/lib/admin-crm-analytics.ts:18-33 | reading the written day of an instant of years 2000 to 2999 gives the midnight before it |
| AdminAnalytics.AnalyticsRangeExact | apps/web/lib/admin-crm-analytics.ts:47-56 | accepted exactly for two accepted days in order spanning at most 366; the range has days * 86400000 ms and holds an instant exactly when its UTC day lies between the two |
| AdminAnalytics.RangeProblems | apps/web/lib/admin-crm-analytics.ts:47-56 | a refused range says why: exactly when the first day is bad, else the last, else their order, else more than 366 days and how many |
| AdminAnalytics.PresetsAccepted | apps/web/lib/admin-crm-analytics.ts:58-86 | for every clock reading of years 2001 to 2999 every preset is accepted with its promised length; last month ends where this month begins, the others with today |
| Zone.MidnightFound | apps/web/lib/booking-sources.ts:99-105 | with at most one offset change within a day, of any size and direction, the two passes read exactly midnight if and only if that midnight exists |
| Zone.DayStartIff | apps/web/lib/booking-sources.ts:98-105 | exactly when the result is the first instant of the local day, as its comment promises |
| Zone.JumpedMidnightIsMissed | apps/web/lib/booking-sources.ts:98-105 | a zone, three hours west and jumping at midnight, where the result is an hour before the day starts |
| Zone.SeparatesIff | apps/web/lib/booking-sources.ts:99-118 | exactly when the result separates the local days before and after it |
| Zone.WindowIff | apps/web/lib/booking-sources.ts:113-118 | a window between two midnights holds exactly the local times between them if and only if the changes at both are harmless: no fault at one makes up for one at the other |
| Campaign.StartOfZonedDay | apps/web/lib/booking-sources.ts:99-105 | the two reassignments compute the two-pass instant |
| Campaign.StartIsTwoPass | apps/web/lib/booking-sources.ts:83-105 | in milliseconds and through the formatter's fields the program computes the two passes on whole seconds |
| Campaign.NextDayIs | apps/web/lib/booking-sources.ts:107-111 | the text of the next calendar day for every real date but 9999-12-31 |
| Campaign.ToCreateBody | apps/web/lib/booking-sources.ts:113-118 | the body of a validated form, or the exception after 9999-12-31 |
| Campaign.ActiveExactlyOnChosenDays | apps/web/lib/booking-sources.ts:113-131 | with no clock change straddling the boundary midnights, or only harmlessly, a campaign is active exactly when it is not revoked and the shop-local day lies between the chosen days, both included |
| Campaign.ScheduledBeforeEndedAfter | apps/web/lib/booking-sources.ts:122-131 | it is then revoked exactly when it was revoked, and otherwise scheduled exactly before the first day and ended exactly after the last |
| Campaign.ScheduledExactlyIff | apps/web/lib/booking-sources.ts:113-131 | for any form with a first day, it is scheduled exactly before that day if and only if the change around its midnight is harmless |
| Campaign.ActiveExactlyIff | apps/web/lib/booking-sources.ts:113-131 | for every form, it is active exactly on the chosen days if and only if the changes around its boundaries are harmless |
| Campaign.StartsBeforeEnds | apps/web/lib/booking-sources.ts:113-118 | the window is never reversed, is not empty when the first day's midnight exists, and is empty exactly when the zone has none of the chosen days |
| Campaign.LastDayShownIff | apps/web/lib/booking-sources.ts:151-156 | exactly when formatLastDay names the chosen last day, whatever the change around the boundary |
| Campaign.LastDayShownIfItExists | apps/web/lib/booking-sources.ts:151-156 | for a harmless change that is exactly when the zone has that day at all |
| ApiClient.ReachableStates | apps/mobile/lib/api.ts:80-98 | for every interleaving: at most one refresh outstanding; every call sends at most twice, the second time only after its refresh settled true |
| ApiClient.JoinsRunningRefresh | apps/mobile/lib/api.ts:80-98 | a 401 arriving during a refresh gets that refresh's outcome, in every later state |
| ApiClient.NeverStranded | apps/mobile/lib/api.ts:80-98 | a waiting call can always be resumed or its refresh is still running |
| ApiClient.NeverReusesToken | apps/mobile/lib/api.ts:80-95 | without storage failures a refresh token whose exchange was received is never sent again |
| TokenReuse.ReusesTokenIff | apps/mobile/lib/api.ts:80-98 | with saves free to fail: a token is sent again after its exchange exactly when a refresh read it, its save failed, a later refresh read the store, and nothing else wrote a token between the two reads |
| TokenReuse.ReuseIsReadingSpent | apps/mobile/lib/api.ts:80-98 | whatever servers and other writers do: a token is reused exactly when some refresh reads a stored token that was already exchanged |
| ApiClient.FailedSaveReusesToken | apps/mobile/lib/api.ts:89-92 | a failed save of the rotated token makes the next refresh send the spent one |
| RefreshOutcome.RefreshSettlesIff | apps/mobile/lib/api.ts:80-98 | over every run a refresh settles true exactly when it read a token, had it exchanged and saved the new one, and false exactly when it found no token, could not read, was refused or could not save |
| RefreshOutcome.CallsEndAsAnswered | apps/mobile/lib/api.ts:166-179 | every call sent twice exactly when it was resumed after a refresh that succeeded, ends with the last answer it got, and gives up on a first 401 only after a refresh that failed |
| RefreshOutcome.FirstUnauthorizedWaits | apps/mobile/lib/api.ts:166-179 | a first 401 outside the refresh path awaits a refresh that is running |
| RefreshOutcome.TokensAreTheLastWritten | apps/mobile/lib/api.ts:80-98 | the access token and the stored token are always the last ones written, by a login or logout, a granted exchange or a successful save |
| RefreshOutcome.TrafficIsOfTheStore | apps/mobile/lib/api.ts:83-89 | every refresh sends the token the store last held |
| ApiClient.Client.TryRefresh | apps/mobile/lib/api.ts:80-98 | the running refresh is joined, or exactly one is started |
| ApiClient.Client.OnResponse | apps/mobile/lib/api.ts:166-179 | a first 401 outside the refresh path awaits the refresh, anything else ends the call; the new state is that of the step system |
| ApiClient.Client.OnGranted | apps/mobile/lib/api.ts:84-91 | a granted exchange sets the access token and goes on to persist the rotated one |
| ApiClient.Client.OnSaved | apps/mobile/lib/api.ts:91-97 | the refresh settles true after the save and false if it throws, and is cleared either way |
| ApiClient.Client.OnResumed | apps/mobile/lib/api.ts:231-244 | the call sends again exactly when the awaited refresh succeeded |
| AuthSession.StatusMatchesUser | apps/mobile/lib/auth-context.tsx:60-105 | in every reachable state the status is authenticated exactly when there is a user |
| AuthSession.OnlyCompletionsCount | apps/mobile/lib/auth-context.tsx:77-105 | while no operation begins, stale restore and refreshMe results change nothing and the last completed login or logout decides |
| AuthSession.LoginIsNotOverwritten | apps/mobile/lib/auth-context.tsx:77-105 | a login begun with no login or logout pending keeps its user whatever earlier fetches bring, in any order |
| AuthSession.SettlesIffUncontested | apps/mobile/lib/auth-context.tsx:98-105 | a completed login is sure to remain exactly when no logout and no login of another user was pending when it began |
| SessionOutcome.EventTakesEffectIff | apps/mobile/lib/auth-context.tsx:77-105 | for every event of every run: a fetch result becomes user and status if and only if no refreshMe, login or logout began since its operation did and, for a restore, the provider was not unmounted; a completed login or logout always does; nothing else changes either |
| SessionOutcome.ShowsTheLastThatCounts | apps/mobile/lib/auth-context.tsx:60-105 | after any run the provider shows the last result that counted, and is loading if none did |
| AuthSession.AuthProvider.OnFetched | apps/mobile/lib/auth-context.tsx:77-96 | the continuation is the step a fetch result takes; when it counts is EventTakesEffectIff |
| AuthSession.AuthProvider.ApplyAuthResult | apps/mobile/lib/auth-context.tsx:98-101 | a login bumps the version before its await |
| AuthSession.AuthProvider.OnStored | apps/mobile/lib/auth-context.tsx:101-105 | the login's user is set after its token is stored; a logout clears user and status |
| Retry.WithRetry | apps/backend/prisma/import-global-locations.ts:133-151 | at most 7 calls; stops at the first result or non-transient error and returns it; after k retries it has slept exactly 2000 * (2^k - 1) ms, never over 126000 |
| Grouping.GroupBy | apps/backend/prisma/import-global-locations.ts:759-767 | every key has exactly its items, in input order |
| TwoTier.Resolve | apps/backend/prisma/import-global-locations.ts:557-586 | the nested grouping loops give every row what the two-level rule says |
| RegionSlugs.SlugsForCountry | apps/backend/prisma/import-global-locations.ts:557-586 | every region of a country gets the slug of the rule |
| RegionSlugs.AloneStaysBare | apps/backend/prisma/import-global-locations.ts:563-568 | a name alone in its country keeps its bare slug |
| RegionSlugs.SlugSpelledOut | apps/backend/prisma/import-global-locations.ts:557-586 | the slug spelled out: the name; if shared, name and code, or source id without a usable code; if that is shared too, the source id behind it |
| RegionSlugs.DistinctCodesDistinctSlugs | apps/backend/prisma/import-global-locations.ts:541-586 | regions of one name with pairwise distinct code slugs get distinct slugs, name and code |
| RegionSlugs.SameNameCollideIff | apps/backend/prisma/import-global-locations.ts:563-586 | two regions of one name end on one slug exactly when the one keeps name and code and these spell the other's name, code and source id |
| RegionSlugs.SameNameCanCollide | apps/backend/prisma/import-global-locations.ts:563-586 | three regions of one name of which two end on one slug |
| RegionSlugs.DifferentNamesCollideIff | apps/backend/prisma/import-global-locations.ts:563-586 | two regions of different names end on one slug exactly when one bare name goes on after the other with a dash and the other's code and id spell the rest |
| RegionSlugs.NamesConfusedIff | apps/backend/prisma/import-global-locations.ts:563-586 | which two names can ever share a slug: exactly those of which one slug, with a dash, starts the other |
| RegionSlugs.SlugsCanCollide | apps/backend/prisma/import-global-locations.ts:557-586 | such a collision with ISO codes |
| ImporterSlugs.RegionsShareARowIff | apps/backend/prisma/import-global-locations.ts:557-613 | two source regions become one row exactly when they are the same region or collide in one of those ways |
| CitySlugs.AssignSlugsForCountry | apps/backend/src/global-locations/global-locations.util.ts:222-337 | the three stages compute the rule for every candidate, and no two candidates are assigned one slug |
| CitySlugs.AssignedSlugsDiffer | apps/backend/src/global-locations/global-locations.util.ts:200-221 | the rule never gives one slug to two candidates of a country |
| CitySlugs.UniqueNamesStayBare | apps/backend/src/global-locations/global-locations.util.ts:236-292 | a name nobody shares keeps its bare slug exactly when no region-qualified slug of another name equals it |
| CitySlugs.SlugSpelledOut | apps/backend/src/global-locations/global-locations.util.ts:222-337 | which slug is assigned, spelled out: the name, with its region's if the name is shared, when distinguished and not also another's; else that with the region code, when nobody else holds or proposes it; else an unresolved collision that names both |
| CitySlugs.StageTwo | apps/backend/src/global-locations/global-locations.util.ts:271-292 | every slug claimed twice is downgraded for every claimant, in any order of the groups |
| CitySlugs.Winners | apps/backend/src/global-locations/global-locations.util.ts:293-337 | the region-code proposals kept are exactly those unique in the whole slug namespace |
| ImporterResume.OwnRowIff | apps/backend/prisma/import-global-locations.ts:657-717 | exactly when a candidate with a key of its own gets a row of its own |
| ImporterSlugs.NoCityDisappears | apps/backend/src/global-locations/global-locations.util.ts:190-221 | with the assigned slugs, after a completed import a source city has a row of its own exactly when no legacy city and no row from before the import has its key |
| ImporterSlugs.LegacyKeyIsSkipped | apps/backend/prisma/import-global-locations.ts:657-717 | an import that finishes with nothing left of a new city whose country and slug a legacy city has |
| ImporterSlugs.CitiesHaveTheirOwnRows | apps/backend/src/global-locations/global-locations.util.ts:190-221 | no two source cities share a row |
| ImporterProgram.WriteCountries | apps/backend/prisma/import-global-locations.ts:482-524 | the loop over a mutable database inserts exactly the missing countries, stopping at any durable write, rejected by a slug or three-letter code already taken |
| ImporterProgram.WriteRegions | apps/backend/prisma/import-global-locations.ts:531-615 | likewise for regions; the id map then answers for every source region |
| ImporterProgram.Database.UpdateCity | apps/backend/prisma/import-global-locations.ts:623-641 | the update writes the payload only: name, code and slug stay |
| ImporterProgram.WriteLegacy | apps/backend/prisma/import-global-locations.ts:617-645 | the loop over the mutable database updates every legacy city on every run, one durable write each, as the specification does; what the columns then say is FinishedImportIs |
| ImporterProgram.CommitBatch | apps/backend/prisma/import-global-locations.ts:682-711 | a batch is written whole or not at all, and existing rows are left alone |
| ImporterProgram.ResumeCheck | apps/backend/prisma/import-global-locations.ts:657-671 | the cities left are those whose row no earlier run wrote |
| ImporterProgram.WriteCities | apps/backend/prisma/import-global-locations.ts:679-717 | batches of 100, each a transaction |
| ImporterProgram.RunImport | apps/backend/prisma/import-global-locations.ts:482-717 | one run of the program, after its check that the legacy cities are there, is one run of the specification, for any stopping point |
| ImporterResume.RunKeeps | apps/backend/prisma/import-global-locations.ts:482-717 | wherever a run is stopped, old rows are untouched but for legacy cities, which are as before or as the source says, and every new row is the one the first source row of its key calls for; finishing means complete; without conflicts nothing is rejected |
| ImporterOutcome.FinishedImportIs | apps/backend/prisma/import-global-locations.ts:482-717 | after any stopped runs and one that finishes, column by column: a legacy city keeps its name and has its country's row, its source data and the row of the last region its state names, or none; every new country, region and city has what the first source row of its key says; every other row is as before; nothing is missing |
| ImporterOutcome.RunKeepsCountriesApart | apps/backend/prisma/import-global-locations.ts:503-524 | no run, stopped or not, writes a country whose slug or three-letter code another has |
| ImporterOutcome.OneWriteAHundred | apps/backend/prisma/import-global-locations.ts:678-717 | the new cities cost one durable write for every hundred begun |
| ImporterResume.Resumable | apps/backend/prisma/import-global-locations.ts:482-717 | stopping after any durable writes, any number of times, and finishing gives the same countries, regions and cities, legacy ones included, ids apart, as any other way of finishing |
| ImporterResume.RowsAreKept | apps/backend/prisma/import-global-locations.ts:482-717 | no run changes or re-creates a row that is there when it starts, but for legacy cities, which keep code, slug and name |
| ImporterResume.CompletedRunIsIdle | apps/backend/prisma/import-global-locations.ts:482-717 | a run after completion leaves the database as it is: it inserts nothing and its updates write what is there |
| ImporterResume.UninterruptedRunFinishes | apps/backend/prisma/import-global-locations.ts:482-717 | without conflicts a run that is not stopped finishes, however earlier ones were stopped |
| ImporterResume.EveryCityHasItsRow | apps/backend/prisma/import-global-locations.ts:657-717 | for candidates with distinct keys, each has its own row after a completed import unless its key was there before |
| ImporterResume.SharedRegionIff | apps/backend/prisma/import-global-locations.ts:587-613 | two source regions share a row exactly when country and final slug agree |
| Seeder.Machine.SeedOneShop | apps/backend/prisma/seed-test-shops.ts:404-443 | an existing shop is skipped or refused by its credentials; a missing one is committed whole or the crash leaves nothing |
| Seeder.Machine.SeedShops | apps/backend/prisma/seed-test-shops.ts:462-499 | the loop with its in-memory records computes one run of the specification, for any count and crash |
| Seeder.EveryHistory | apps/backend/prisma/seed-test-shops.ts:404-499 | after any runs from empty with any counts and crashes: shops are 1 to m, each complete; the file holds exactly the passwords of the first r, each the stored one; r is m or m - 1, and if m - 1 no later run changes anything |
| Seeder.FilePasswords | apps/backend/prisma/seed-test-shops.ts:192-198 | the file gives an account a password exactly when its shop is recorded, and then the one its hash was made from |
| Seeder.RunWhenRecorded | apps/backend/prisma/seed-test-shops.ts:481-499 | a run on a recorded world creates exactly the missing shops up to its crash or count, with the passwords it drew, changes no earlier shop or record, and refuses a count outside 1 to 50 |
| Seeder.RunWhenOneIsLost | apps/backend/prisma/seed-test-shops.ts:411-430 | with shop m unrecorded a run changes nothing, and is done exactly when it asks for fewer than m shops |
| Seeder.LostForGood | apps/backend/prisma/seed-test-shops.ts:411-430 | and so no sequence of runs ever does |
| Seeder.RetryIsNotAlwaysSafe | apps/backend/prisma/seed-test-shops.ts:519-521 | re-running after a crash between commit and rename is refused for good, against the closing message |
| VoiceRanking.RankedCandidates | apps/mobile/lib/voice-announce.ts:111-136 | the filter, sort and seen-set loops compute the ranked list, of which CandidateIff says what it holds |
| VoiceRanking.CandidatesExact | apps/mobile/lib/voice-announce.ts:102-136 | the candidates are the first entries of each key, strictly ordered by rank and then device order |
| VoiceRanking.OnePerKey | apps/mobile/lib/voice-announce.ts:102-136 | every family voice is stood for by exactly one candidate of its key |
| VoiceMerging.CandidateIff | apps/mobile/lib/voice-announce.ts:111-136 | a family voice is a candidate exactly when none before it counts as the same: by identifier where both have one, by language where neither has, by identifier against language otherwise |
| VoiceMerging.IdentifiersDiffer | apps/mobile/lib/voice-announce.ts:108 | no two candidates share an identifier |
| VoiceMerging.IdentifierIsCandidateIff | apps/mobile/lib/voice-announce.ts:111-136 | an identifier is among the candidates exactly when a family voice has it that no identifierless voice with it as language precedes: different identifiers are never merged |
| VoiceMerging.UnnamedIsDroppedIff | apps/mobile/lib/voice-announce.ts:130-135 | a voice without identifier is dropped exactly when one before it has its language as identifier, or has none and the same language |
| VoiceMerging.FamilyIff | apps/mobile/lib/voice-announce.ts:61-68 | a voice is of the family exactly when its language and the requested one agree, case aside, up to their first separators |
| VoiceRanking.TiersOfTheFamily | apps/mobile/lib/voice-announce.ts:102-122 | the documented tiers for any requested tag: 0 the tag itself case aside, 1 its other separator form, 3 the bare subtag, 2 the rest of the family |
| VoiceRanking.SortOrdered | apps/mobile/lib/voice-announce.ts:128 | the stable sort keeps every entry and breaks ties by device order |
| VoiceRanking.PreferredPermutes | apps/mobile/lib/voice-announce.ts:250-259 | the owner's choice moves to the front if it is a candidate; nothing is lost and nothing else moves |
| VoiceAnnounce.Announcer.SpeakHindi | apps/mobile/lib/voice-announce.ts:249-322 | the voices tried are a prefix of the candidates, each attempt but the last an error; the missing-voice record is made exactly when all failed or there was none |
| VoiceAnnounce.HindiWalk.OnError | apps/mobile/lib/voice-announce.ts:293-317 | after any number of error callbacks the voices tried are the prefix one longer, up to the whole list |
| VoiceAnnounce.SpokenAreFamily | apps/mobile/lib/voice-announce.ts:281-320 | only Hindi-family voices of the device are spoken with, no two of the same key |
| VoiceAnnounce.EveryRun | apps/mobile/lib/voice-announce.ts:74-90 | in every run at most one device query is outstanding and the cached Hindi flag tells the truth about the cached list |
| VoiceAnnounce.StampsApart | apps/mobile/lib/voice-announce.ts:152-173 | the recorded stamps of any two warnings of any run are 300000 ms apart, k apart k times that |
| VoiceAnnounce.WarnsIff | apps/mobile/lib/voice-announce.ts:169-173 | exactly when a missing voice warns: 300000 ms after the stamp of every warning before |
| VoiceAnnounce.WarningsApart | apps/mobile/lib/voice-announce.ts:152-173 | in real time two warnings in a row are 300000 ms apart less the delay between the earlier one's stamp and its warning |
| VoiceAnnounce.DelayBringsWarningsCloser | apps/mobile/lib/voice-announce.ts:184-187 | no better bound holds: for every delay up to the throttle some run warns that much earlier, at last twice at one moment |
| VoiceAnnounce.QueriesIff | apps/mobile/lib/voice-announce.ts:156-167 | exactly when an announcement queries the device |
| VoiceAnnounce.PositiveIsKept | apps/mobile/lib/voice-announce.ts:156-167 | a list with a Hindi voice is never dropped and the device never asked again |
| VoiceAnnounce.RecoversAfterInstall | apps/mobile/lib/voice-announce.ts:156-167 | after the cooldown a Hindi announcement asks again, and finds a voice installed meanwhile |
| VoiceAnnounce.NegativeMeansSilence | apps/mobile/lib/voice-announce.ts:78-82 | the cached flag is set exactly when the ranking has a candidate |
| VoiceDedupe.Dedupe.Prune | apps/mobile/lib/booking-voice-dedupe.ts:10-14 | deleting while iterating leaves exactly the claims at most five minutes old |
| VoiceDedupe.Dedupe.Claim | apps/mobile/lib/booking-voice-dedupe.ts:16-27 | one claim is one step of the pruned map |
| VoiceDedupe.GrantedIff | apps/mobile/lib/booking-voice-dedupe.ts:10-27 | for any clock: refused exactly when an earlier grant of the key has stood at every claim since |
| VoiceDedupe.AnswersAsTheFullHistory | apps/mobile/lib/booking-voice-dedupe.ts:10-27 | for a clock that never goes back: granted exactly when the key was not granted in the last five minutes, as the never-pruned history says |
| VoiceDedupe.ClockGoingBackForgets | apps/mobile/lib/booking-voice-dedupe.ts:10-14 | a clock stepping back makes the pruned map forget |
| VoiceDedupe.KeysAreDistinct | apps/mobile/lib/booking-voice-dedupe.ts:6-8 | without a colon in the booking ids a key determines event, booking and fingerprint |
| VoiceDedupe.BookingsConfusedIff | apps/mobile/lib/booking-voice-dedupe.ts:6-8 | two bookings can share a key exactly when one id with a colon is a prefix of the other |
| QueueNavigation.Navigation.Replay | apps/mobile/lib/queue-push-navigation.ts:33-45 | the first accepting listener in insertion order takes the pending request and clears it; other lanes are untouched |
| QueueNavigation.Navigation.RequestNavigation | apps/mobile/lib/queue-push-navigation.ts:47-52 | a request replaces the pending one of its lane and is offered at once |
| QueueNavigation.Navigation.SubscribeNavigation | apps/mobile/lib/queue-push-navigation.ts:54-59 | a new listener is added once and the pending request replayed, as the lane step says; what that delivers is CallDeliversIff |
| QueueNavigation.Navigation.RunAll | apps/mobile/lib/queue-push-navigation.ts:33-59 | over any sequence of calls every lane and its deliveries are those of the specification |
| QueueNavigation.AskedInOrder | apps/mobile/lib/queue-push-navigation.ts:37-44 | whoever takes a request, every listener before it refused |
| QueueNavigation.RunIsOrderly | apps/mobile/lib/queue-push-navigation.ts:33-59 | each lane's accepted requests are requests of that lane in their order, and what is pending is its last one |
| QueueNavigation.EveryRequestOnce | apps/mobile/lib/queue-push-navigation.ts:33-59 | every request is accepted, pending or superseded by a later one of its lane; accepted at most once, by one listener |
| NavigationOutcome.PendingIff | apps/mobile/lib/queue-push-navigation.ts:33-59 | over any history: a request is pending exactly when it is its lane's latest and every listener subscribed then refused it when it was made and at each subscription since |
| NavigationOutcome.CallDeliversIff | apps/mobile/lib/queue-push-navigation.ts:33-59 | a call delivers exactly when a request is made by it, or waits at its subscription, and a subscribed listener accepts; to the one subscribed longest that does |
| NavigationOutcome.AcceptedIff | apps/mobile/lib/queue-push-navigation.ts:33-59 | the deliveries of a history are exactly those of its calls |
| NavigationOutcome.ListenersAreTheSubscribed | apps/mobile/lib/queue-push-navigation.ts:54-59 | a lane's listeners are those subscribed and not removed since, in the order of their first subscription |
| QueueNavigation.LanesAreIndependent | apps/mobile/lib/queue-push-navigation.ts:33-59 | a lane behaves as if the other lanes' events had not happened |

## Left out

- ManifestEncoding.TreeRoundTrip: attribute names other than `__proto__`, integers below 2^53 and lengths below 2^53, as the readers' doubles allow.
- Manifest.ReadXmlNode: an attribute named `__proto__` is ignored, as JavaScript does for texts, flags and numbers; a raw buffer as its value would become the prototype of the attributes, after which an attribute named `length` throws.
- Zip.ArchiveRoundTrip: requires that the archive's comment holds no false end record; EndFoundIff shows the requirement is exact. Archives of more than one disk or with 64-bit sizes are not covered.
- Zone.MidnightFound: requires, as do the results on zones and campaigns after it, at most one offset change within a day of the midnight; zones with two changes in that window are not covered.
- Campaign.StartIsTwoPass: local days from 3 January of year 100 on, since the formatter's fields take earlier years for the 1900s.
- ApiClient.NeverReusesToken: requires that saving never fails and that neither the server nor another writer hands out a token already exchanged; TokenReuse.ReusesTokenIff requires nothing of saves.
- TokenReuse.ReusesTokenIff: requires that the server rotates to tokens not exchanged yet and that a login stores a token never sent before; ReuseIsReadingSpent requires neither.
- AuthSession.LoginIsNotOverwritten: covers what began before the login; a restore mounted or a refresh begun later fetches as the new user.
- ImporterResume.UninterruptedRunFinishes: requires that the legacy cities are there and that no unique column other than the natural keys conflicts; otherwise the run is rejected, which RunKeeps covers.
- ImporterOutcome.FinishedImportIs: source ids are not empty texts; an empty state id would count as missing.
- Seeder.RunWhenRecorded: a user row that already has a test address makes the transaction fail, which is a crash before the commit.
- UTF-8 decoding: texts are their bytes, and inflate, Number() and template interpolation of a package are parameters.
- The regular-expression manifest reader, command-line parsing and console output of the release guard, and JavaScript's stack depth.
- Intl zone data and sub-second offsets: a zone is a function from whole seconds to offsets within a day; the display formats of a date are reduced to the local day they show.
- slugify, NFD normalisation and city classification are parameters.
- The importer's reconciliation of legacy cities with source rows (its result is given), native-name aliases, final salon and locality counts, and dry run. Source countries are identified by their two-letter code.
- The internals of each retried call: a retry is a run of `Retry.WithRetry`, and the write phase sees its final outcome.
- The seeder's confirmation variable, city lookup, unreadable credential file and final count: each ends the run before anything is written, or prints. The rows of a shop's transaction other than the stored hashes.
- delete-test-shops.ts, whose rows depend on a schema that is not part of this model.
- HTTP, Prisma, secure storage, push registration and speech are outcomes; the reachability probe after a failed upload does not refresh. Promise resolution and continuation are separate steps.
- The English voice path: one match and one retry. Case folding of language tags is ASCII.
- Listeners that call back into the navigation module while they are asked.
- Validation of push payloads, feature flags, route access and other lookups of one branch.
- The web copies of the API client and auth context, which are weaker forms of the mobile ones.
