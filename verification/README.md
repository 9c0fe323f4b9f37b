# Shokofin, modelled in Dafny

Shokofin is a Jellyfin plugin that builds Jellyfin libraries from a Shoko
Server anime collection. Most of it talks to Shoko's HTTP API, the file
system and Jellyfin. Under that sits a layer of pure, sequential logic, and
this project models that layer as immutable datatypes and pure functions,
then proves what the code promises about it:

- release-manifest maintenance in the build script: channel choice,
  changelog injection, the release URL, and compaction of the unstable
  manifest to five versions (`ReleaseManifest`);
- TV content ratings: parsing rating text into a rating and its indicators,
  formatting it back, and the show and tag-based ratings (`ContentRating`);
- text joining, descriptions, title-language fallback and the main and
  origin languages (`Text`); the string deconstructors and path-character
  sanitising (`StringExtensions`);
- season and episode numbering (`Ordering`, `Shows`), the partitioning of a
  season's episodes (`Seasons`, with the shared episode data in `Episodes`),
  and the chronological comparer for series (`RelationComparer`);
- user-data conversion and merging, the playback skip counter and the sync
  direction (`Sync`);
- media-folder scoping, import-folder grouping and change detection
  (`MediaFolder`); relative paths of file events (`FileEvents`);
- the settings page's list sanitisers and removal rules (`SettingsPage`) and
  the shared page helpers: tab filtering, page URLs and checkbox lists
  (`CommonPage`);
- the tag filter pipeline, source material and production countries
  (`TagFilter`);
- link-generation counters, two monoids (`LinkGeneration`,
  `LinkGenerationModels`); `List.TryRemoveAt` (`ListExtensions`);
- virtual file system naming: name truncation, extras folders, season
  folders, ids in paths and ignored videos (`VirtualFileSystem`);
- the event debounce queue, submitter counter and media-folder reference
  count as state machines (`EventDispatch`);
- the library-option to collection-type conversion (`CollectionTypes`) and
  collection reconciliation: the minimum size, the add/keep/remove diff and
  the parent-first creation order (`Collections`).

`Wrappers` (Option and Result), `Strings` (trimming for the .NET and the
JavaScript whitespace sets, lower-casing, splitting, joining and decimal
digits) and `Seqs` (filtering, first-occurrence de-duplication, grouping,
stable sorting) are shared helpers.

Guids are modelled as integers or strings. The clock, the plugin
configuration and values that come from Jellyfin or Shoko are parameters.
Where the code keeps mutable state (the debounce map, the skip counter, the
media-folder keys), each operation returns the new state.

## Model

| member | source | states |
|---|---|---|
| ReleaseManifest.IsPrerelease | build_plugin.py:8-12 | the prerelease flag is set exactly when the option was given with a non-empty text (any such text, even "false", is truthy) |
| ReleaseManifest.ManifestFile | build_plugin.py:17-20 | the unstable manifest is chosen exactly for a prerelease and the stable one exactly otherwise |
| ReleaseManifest.InjectChangelog | build_plugin.py:30-31 | a descriptor without a changelog key is returned unchanged (no key is ever added); with the key, a missing environment variable is an error, otherwise the key holds the variable's text with surrounding whitespace stripped and every other key is unchanged |
| ReleaseManifest.InjectChangelogIdempotent | build_plugin.py:30-31 | injecting the same changelog twice is injecting it once |
| ReleaseManifest.ReleaseUrl | build_plugin.py:22-38 | the URL starts with the repository URL, the version and "/", ends with "/shoko_" + version + ".zip", and has the length those parts give |
| ReleaseManifest.ReleaseUrlRoundTrip | build_plugin.py:38 | the version can be read back from the release URL |
| ReleaseManifest.ReleaseUrlInjective | build_plugin.py:38 | different versions give different URLs |
| ReleaseManifest.CompactItem | build_plugin.py:47-49 | an item with more than 5 versions keeps exactly its first 5 in order; an item with 5 or fewer, or without a versions key, is unchanged; the other fields are kept |
| ReleaseManifest.CompactItemBounded | build_plugin.py:48-49 | after compaction an item has at most 5 versions, a prefix of the original list |
| ReleaseManifest.CompactItemIdempotent | build_plugin.py:47-49 | compacting twice is compacting once |
| ReleaseManifest.Compact | build_plugin.py:47-49 | the loop compacts every item in place, keeping the item count, and leaves no item with more than 5 versions |
| ReleaseManifest.PublishManifest | build_plugin.py:17-49 | the manifest written is the one for the channel; it is compacted only for a prerelease and left as the repository tool produced it otherwise |
| ContentRating.AllowedIndicators | Shokofin/Utils/ContentRating.cs:66-128 | the indicator lists attached to the rating values: FV for TV-Y7, D/L/S/V for TV-PG, TV-14 and TV-MA, L/S/V for XXX, none for the others; every entry is a declared indicator and none repeats |
| ContentRating.Shown | Shokofin/Utils/ContentRating.cs:376-378 | the LINQ intersection keeps exactly the allowed indicators that were given, and keeps them in the allowed list's order (a subsequence of it) |
| ContentRating.FormatRating | Shokofin/Utils/ContentRating.cs:368-383 | there is no text exactly for the rating without a description; otherwise the text starts with the description, is the description alone when no allowed indicator was given, and continues with "-" and the indicator names when one was |
| ContentRating.FormattedCode | Shokofin/Utils/ContentRating.cs:368-383 | every rating other than XXX, given none of its allowed indicators, is written as "TV-" followed by its code |
| ContentRating.YOrGFormatted | Shokofin/Utils/ContentRating.cs:368-383 | TV-Y and TV-G allow no indicator, so whatever indicators are given they are written "TV-Y" and "TV-G" |
| ContentRating.ParseIndicatorChar | Shokofin/Utils/ContentRating.cs:354 | `Enum.TryParse` of one character gives a number from 0 to 9 for a digit, the indicator for its exact upper-case name, and fails for every lower-case letter |
| ContentRating.ParseIndicatorsAsWritten | Shokofin/Utils/ContentRating.cs:349-362 | the indicator suffix parses exactly when every character parses on its own, and the set then holds exactly the values its characters parse to |
| ContentRating.ParseNormalizedAsWritten | Shokofin/Utils/ContentRating.cs:311-362 | with the one- and two-character slices as written, a parse succeeds only for text starting with 'y' or 'g' and only ever yields TV-Y or TV-G |
| ContentRating.TryConvertRatingFromTextAsWritten | Shokofin/Utils/ContentRating.cs:300-363 | missing or empty text has no rating; any rating the as-written parser finds is TV-Y or TV-G and comes from normalised text starting with 'y' or 'g' |
| ContentRating.AsWrittenNeedsYOrG | Shokofin/Utils/ContentRating.cs:311-347 | for every normalised text whose first character is neither 'y' nor 'g', the as-written parser finds no rating |
| ContentRating.AsWrittenMissesTwoLetterCodes | Shokofin/Utils/ContentRating.cs:311-343 | the formatter's own "TV-PG" is not read back by the as-written parser, while the corrected parser reads it as TV-PG |
| ContentRating.AsWrittenRejectsIndicatorLetters | Shokofin/Utils/ContentRating.cs:353-358 | "Y-D" is rejected as written because the lower-cased "d" is no indicator name, while the corrected parser reads TV-Y with D |
| ContentRating.AsWrittenReadsY7AsY | Shokofin/Utils/ContentRating.cs:316-359 | as written, normalised text starting "y7" is never read as TV-Y7: it parses exactly when its characters after the 'y' are all indicators, and then as TV-Y carrying indicator 7, because the single 'y' is tested first and a digit passes as an indicator; the corrected parser reads such text as TV-Y7 |
| ContentRating.AsWrittenReadsY7Text | Shokofin/Utils/ContentRating.cs:309-359 | the text "Y7" reads as TV-Y with indicator 7 as written, and as TV-Y7 with no indicators as intended |
| ContentRating.NormalizeShape | Shokofin/Utils/ContentRating.cs:310 | normalised text holds no dash, no underscore and no upper-case letter, and only characters of the lower-cased input |
| ContentRating.LeadingRating | Shokofin/Utils/ContentRating.cs:314-343 | the rating code at the start of the text is found with its length, which fits in the text, and a length of zero means no code; the corrected reading changes the order of the checks to longest code first, so "xxx" and the two-letter codes, "y7" among them, are tried before the single 'y' and 'g' that the source tests first |
| ContentRating.LeadingRatingOfCode | Shokofin/Utils/ContentRating.cs:314-343 | a rating's own lower-case code, followed by nothing or by indicator names, is read as that rating with the code's length |
| ContentRating.ParseIndicators | Shokofin/Utils/ContentRating.cs:349-362 | the corrected indicator reading yields only values of the indicator enumeration's range |
| ContentRating.ParseLowerNames | Shokofin/Utils/ContentRating.cs:349-362 | any sequence of indicator names, lower-cased and concatenated, reads back as exactly the set of those indicators |
| ContentRating.ParseCoded | Shokofin/Utils/ContentRating.cs:314-362 | a successful parse has a rating, and the text starts with that rating's lower-case code |
| ContentRating.ParseCodedNames | Shokofin/Utils/ContentRating.cs:314-362 | a rating code followed by indicator names parses to that rating and exactly those indicators |
| ContentRating.ParseNormalized | Shokofin/Utils/ContentRating.cs:311-362 | a successful parse of normalised text always has a rating |
| ContentRating.ParseCodeAndNames | Shokofin/Utils/ContentRating.cs:311-362 | the optional "tv" prefix, a rating code and indicator names parse to that rating and exactly those indicators |
| ContentRating.TryConvertRatingFromText | Shokofin/Utils/ContentRating.cs:300-363 | missing or empty text has no rating, and a successful parse always has a rating |
| ContentRating.NormalizeFormatted | Shokofin/Utils/ContentRating.cs:368-383 | a formatted rating normalises to its "tv" prefix, its lower-case code and the lower-case names of the indicators it shows |
| ContentRating.FormatParseRoundTrip | Shokofin/Utils/ContentRating.cs:300-383 | every rating text the formatter writes parses back to the same rating and exactly the allowed indicators that were given |
| ContentRating.Convert | Shokofin/Utils/ContentRating.cs:300-363 | either reading of the parser gives no rating for missing or empty text and a real rating on success; the as-written reading only TV-Y or TV-G, and the intended reading is the corrected parser |
| ContentRating.ParseAll | Shokofin/Utils/ContentRating.cs:200-201 | the parses of the season texts that succeed in the chosen reading, none of them without a rating |
| ContentRating.ParseAllAsWritten | Shokofin/Utils/ContentRating.cs:200-201 | with the parser as written, every season rating that survives is TV-Y or TV-G |
| ContentRating.ParseAllMembers | Shokofin/Utils/ContentRating.cs:200-201 | in either reading, a parse is kept exactly when some text parses to it |
| ContentRating.ParseAllEmpty | Shokofin/Utils/ContentRating.cs:200-201 | in either reading, no parse survives exactly when none of the texts parses |
| ContentRating.MaxRating | Shokofin/Utils/ContentRating.cs:202-205 | the highest rating is at least every entry's rating and is one of them; with no entries there is no rating |
| ContentRating.IndicatorsAt | Shokofin/Utils/ContentRating.cs:204 | an indicator is in the union exactly when some entry at that rating carries it |
| ContentRating.NonEmptyTexts | Shokofin/Utils/ContentRating.cs:197-198 | a text is kept exactly when some season has it and it is not empty |
| ContentRating.DistinctTextsSameRating | Shokofin/Utils/ContentRating.cs:196-205 | in either reading, dropping duplicate texts changes neither the highest rating nor its indicators, and there is no rating exactly when no season's text parses |
| ContentRating.DistinctTextsSameParses | Shokofin/Utils/ContentRating.cs:196-201 | in either reading, parsing the distinct season texts yields exactly the parses of all of them |
| ContentRating.NoSeasonParses | Shokofin/Utils/ContentRating.cs:196-205 | in either reading, the highest parsed rating is missing exactly when no season's rating text parses |
| ContentRating.ShowContentRating | Shokofin/Utils/ContentRating.cs:194-207 | in either reading, the show's rating is the highest parsed season rating with the union of the indicators of every season at that rating, formatted, and there is no text exactly when no season's text parses; as written the text can only be "TV-Y" or "TV-G" |
| ContentRating.ShowAsWrittenDropsTvPg | Shokofin/Utils/ContentRating.cs:194-207 | as written, a show whose one season is rated "TV-PG" gets no rating, where the corrected parser keeps "TV-PG" |
| ContentRating.ShowTvPgIntended | Shokofin/Utils/ContentRating.cs:194-207 | with the corrected parser, a show whose one season is rated "TV-PG" is rated "TV-PG" |
| ContentRating.OneSeasonShow | Shokofin/Utils/ContentRating.cs:194-207 | in either reading, a show with one season whose rating text parses is rated as that parse, formatted |
| ContentRating.SingleChild | Shokofin/Utils/ContentRating.cs:213-222 | a child name is found exactly when the tag exists and has exactly one child |
| ContentRating.BaseRating | Shokofin/Utils/ContentRating.cs:218-233 | the lower-cased single target-audience child decides the base rating: mina is TV-G, kodomo TV-Y, shoujo and shounen TV-Y7, josei and seinen TV-14, 18 restricted XXX, each exactly; TV-PG and TV-MA never come from it, and without a single child there is no rating |
| ContentRating.CustomRating | Shokofin/Utils/ContentRating.cs:212-215 | the user's custom audience text, lower-cased and without dashes, gives no rating without a single custom child; a rating it gives is a real one, and as written only TV-Y or TV-G |
| ContentRating.ApplyUpgrades | Shokofin/Utils/ContentRating.cs:235-275 | upgrades never lower the rating, and leave it alone when no target is above it |
| ContentRating.UpgradeTargets | Shokofin/Utils/ContentRating.cs:235-275 | no upgrade aims above TV-MA, and the first is the borderline-porn one |
| ContentRating.WeightChainAsUpgrades | Shokofin/Utils/ContentRating.cs:250-267 | each weight-graded else-if chain gives the same rating as its three upgrades applied in turn |
| ContentRating.RaisedRating | Shokofin/Utils/ContentRating.cs:235-275 | the content tags never lower the target-audience rating, never raise it past TV-MA, leave TV-MA and above alone, and give at least TV-MA with the borderline-porn tag |
| ContentRating.RaisedRatingBounded | Shokofin/Utils/ContentRating.cs:235-275 | starting at or below TV-MA the upgraded rating stays at or below TV-MA, and reaches TV-MA with the borderline-porn tag |
| ContentRating.UpgradesBounded | Shokofin/Utils/ContentRating.cs:235-275 | upgrades that aim no higher than TV-MA keep a rating at or below TV-MA there |
| ContentRating.TagIndicators | Shokofin/Utils/ContentRating.cs:277-295 | D exactly for the sexual-humour tag or a light sex tag, S exactly for a heavy sex tag or heavy nudity, FV exactly for violence with fantasy, V exactly for violence of weight 200 or more, and never L |
| ContentRating.TagBasedContentRating | Shokofin/Utils/ContentRating.cs:209-298 | in either reading, there is no text exactly when no custom rating parses and the upgraded rating is none; with a base rating and no custom one there always is a text |
| ContentRating.TagBasedReadsBack | Shokofin/Utils/ContentRating.cs:209-298 | in either reading, the tag-based text reads back as the custom rating when one parses, and otherwise as the upgraded target-audience rating with the tag indicators it allows |
| ContentRating.ConvertCustomDescription | Shokofin/Utils/ContentRating.cs:212-215 | every rating's description, lower-cased and without dashes as the custom tag is, fails the as-written parser and reads as that rating under the corrected one |
| ContentRating.CustomDescriptionIntended | Shokofin/Utils/ContentRating.cs:212-215 | the corrected parser reads every rating's description, in the custom tag's lower-case, dashless form, as that rating without indicators |
| ContentRating.CustomRatingOfDescription | Shokofin/Utils/ContentRating.cs:209-216 | a single custom audience tag naming a rating's description is skipped as written and read as that rating by the corrected parser |
| ContentRating.CustomAsWrittenFallsThrough | Shokofin/Utils/ContentRating.cs:209-298 | as written, a custom audience tag naming any rating by its description ("TV-MA", say) is passed over for the upgraded target-audience rating, where the corrected parser yields the named rating's description |
| EventDispatch.AddEventAsWritten | Shokofin/Events/EventDispatchService.cs:189-198 | an event for a queued key is appended to the key's list while the key keeps its first timestamp and tracker; a new key is queued with the current time, the event alone and a fresh tracker; no other key changes |
| EventDispatch.AddEvent | Shokofin/Events/EventDispatchService.cs:189-198 | the intended update: the key's timestamp becomes the current time and the event is appended, keeping the tracker of a queued key; no other key changes |
| EventDispatch.Extract | Shokofin/Events/EventDispatchService.cs:125-152 | a key is handed on exactly when its entry has waited at least five seconds; handed-on and remaining entries are disjoint, unchanged, and cover the queue |
| EventDispatch.ExtractPartitions | Shokofin/Events/EventDispatchService.cs:129-152 | what is handed on and what stays together make up the queue, so no event is lost or invented |
| EventDispatch.ExtractIdempotent | Shokofin/Events/EventDispatchService.cs:129-152 | a second extraction at the same instant hands nothing on and leaves the rest as it was |
| EventDispatch.AddEventDebounces | Shokofin/Events/EventDispatchService.cs:189-198 | with the intended update a key is not handed on before five seconds have passed since its latest event, and is handed on once they have |
| EventDispatch.AsWrittenHandsOnFreshEvent | Shokofin/Events/EventDispatchService.cs:192-193 | as written, an event arriving 4999 ms after the key's first one is handed on one millisecond later |
| EventDispatch.RegisterEventSubmitter | Shokofin/Events/EventDispatchService.cs:104-111 | registering adds one submitter and starts the timer exactly when there was none; the queues are untouched |
| EventDispatch.DeregisterEventSubmitter | Shokofin/Events/EventDispatchService.cs:113-123 | deregistering removes one submitter; the last one stops the timer and hands on every queued file and metadata entry at once, emptying both queues; otherwise nothing else changes |
| EventDispatch.SubmittersKeepTimer | Shokofin/Events/EventDispatchService.cs:104-123 | the timer runs exactly while some submitter is registered, before and after registering or deregistering |
| EventDispatch.CycleStopsTimer | Shokofin/Events/EventDispatchService.cs:104-123 | from no submitters, registering and deregistering any positive number of them leaves the timer stopped and both queues empty |
| EventDispatch.AcquireMediaFolder | Shokofin/Events/EventDispatchService.cs:478-489 | the first user of a media folder pauses it for 45 seconds; later users add one to the count, keep the pause's end and wait for what is left of it; other folders are untouched |
| EventDispatch.ReleaseMediaFolder | Shokofin/Events/EventDispatchService.cs:498-512 | monitoring resumes exactly when the folder's last user finishes, which removes the entry; another user only lowers the count; an unknown folder changes nothing |
| EventDispatch.AcquireReleaseRestores | Shokofin/Events/EventDispatchService.cs:478-512 | every entry keeps at least one user, and a release right after an acquire restores the table, resuming monitoring exactly when nobody else was using the folder |
| EventDispatch.OnlyLastReleaseResumes | Shokofin/Events/EventDispatchService.cs:498-512 | releasing a folder held by n users n times resumes monitoring on the last release only and removes its entry |
| FileEvents.NewFileEventArgs | Shokofin/SignalR/Models/FileEventArgs.cs:26-57 | a freshly read event keeps the path as sent, has no cached path and no cross-references |
| FileEvents.NormalisePath | Shokofin/SignalR/Models/FileEventArgs.cs:42-46 | an empty path fails (the first character does not exist); otherwise both kinds of slash become the platform separator, a separator is put in front only when missing, and the result is in the plugin's form |
| FileEvents.NormaliseNormalised | Shokofin/SignalR/Models/FileEventArgs.cs:42-46 | a path already in the plugin's form is left as it is |
| FileEvents.NormaliseIdempotent | Shokofin/SignalR/Models/FileEventArgs.cs:42-46 | normalising twice gives what normalising once gives |
| FileEvents.RelativePath | Shokofin/SignalR/Models/FileEventArgs.cs:36-49 | a cached path is returned unchanged; otherwise the read fails exactly for an empty path and else returns a normalised path and caches exactly it |
| FileEvents.RelativePathStable | Shokofin/SignalR/Models/FileEventArgs.cs:36-49 | a second read returns the same path and leaves the event as the first read left it |
| FileEvents.SetCurrentCrossReferences | Shokofin/SignalR/Models/FileEventArgs.cs:64-65 | setting the "CrossReferences" field marks the event as having cross-references, stores the list, and changes nothing else |
| FileEvents.SetLegacyCrossReferences | Shokofin/SignalR/Models/FileEventArgs.cs:71-72 | setting the legacy "CrossRefs" field marks the event as having cross-references, stores the list, and changes nothing else |
| FileEvents.CrossReferenceSettersAgree | Shokofin/SignalR/Models/FileEventArgs.cs:64-72 | both fields have the same effect and, whichever is read last, its list wins |
| FileEvents.ReplaceFileName | Shokofin/SignalR/Models/FileRenamedEventArgs.cs:28 | cutting off a name longer than the path fails; otherwise the part before the last name-length characters is kept and followed by exactly the previous name |
| FileEvents.ReplaceFileNameRoundTrip | Shokofin/SignalR/Models/FileRenamedEventArgs.cs:28 | for a path ending in the file name the previous path ends in the previous name, and renaming back restores the original path |
| FileEvents.PreviousImportFolderId | Shokofin/SignalR/Models/FileRenamedEventArgs.cs:24 | a rename keeps the file in its import folder: the previous folder is the current one |
| FileEvents.RenameBack | Shokofin/SignalR/Models/FileRenamedEventArgs.cs:24-28 | for a path ending in the file name, the previous path swaps in the previous name, and the event renaming the file back from there names the current folder and path as its previous ones |
| FileEvents.PreviousRelativePath | Shokofin/SignalR/Models/FileRenamedEventArgs.cs:28 | the previous path is the current relative path with its file name replaced, and fails whenever reading the current path fails |
| FileEvents.V0AsFileEvent | Shokofin/SignalR/Models/FileRenamedEventArgs.cs:30-100 | the version 0 event never has a location id or cross-references and keeps its path and cache |
| FileEvents.V0RelativePath | Shokofin/SignalR/Models/FileRenamedEventArgs.cs:59-72 | the version 0 path getter fails exactly for an empty uncached path, otherwise gives a normalised path, and agrees with the current event's getter |
| FileEvents.V0PreviousRelativePath | Shokofin/SignalR/Models/FileRenamedEventArgs.cs:92 | the version 0 previous path is its relative path with the file name replaced, and succeeds exactly when the current event's previous path would |
| LinkGeneration.TotalsPartition | Shokofin/Resolvers/LinkGenerationResult.cs:15-57 | the total is the created, fixed and skipped links together, and on counts the total and the removed count are never negative |
| LinkGeneration.Add | Shokofin/Resolvers/LinkGenerationResult.cs:105-128 | the sum holds the paths of both results and every derived total (total, created, fixed, skipped, removed) is the sum of the two; counts stay counts |
| LinkGeneration.AddCommutative | Shokofin/Resolvers/LinkGenerationResult.cs:105-128 | on the paths and counters the model keeps, the order of the operands does not matter |
| LinkGeneration.AddAssociative | Shokofin/Resolvers/LinkGenerationResult.cs:105-128 | results can be summed in any grouping, as the parallel per-folder passes do |
| LinkGeneration.AddIdentity | Shokofin/Resolvers/LinkGenerationResult.cs:105-128 | a fresh result adds nothing, on either side |
| LinkGeneration.MarkSkipped | Shokofin/Resolvers/LinkGenerationResult.cs:89-103 | per kind that has any created or fixed link, those links are counted as skipped instead, and a kind without any is untouched; paths, removed counts and every per-kind total are kept |
| LinkGeneration.MarkSkippedAllSkipped | Shokofin/Resolvers/LinkGenerationResult.cs:89-103 | on counts, after marking nothing is created or fixed and everything counted is skipped |
| LinkGeneration.MarkSkippedIdempotent | Shokofin/Resolvers/LinkGenerationResult.cs:89-103 | marking twice is marking once |
| LinkGeneration.MarkSkippedAdd | Shokofin/Resolvers/LinkGenerationResult.cs:89-128 | on counts, marking a sum gives the sum of the marked parts |
| LinkGenerationModels.TotalsPartition | Shokofin/Resolvers/Models/LinkGenerationResult.cs:14-51 | the older total is the created, fixed and skipped videos and subtitles, while removed NFO files count only toward the removed total |
| LinkGenerationModels.Add | Shokofin/Resolvers/Models/LinkGenerationResult.cs:77-98 | the sum holds the paths of both results and every derived total is the sum of the two |
| LinkGenerationModels.AddCommutative | Shokofin/Resolvers/Models/LinkGenerationResult.cs:77-98 | the order of the operands does not matter |
| LinkGenerationModels.AddAssociative | Shokofin/Resolvers/Models/LinkGenerationResult.cs:77-98 | results can be summed in any grouping |
| LinkGenerationModels.AddIdentity | Shokofin/Resolvers/Models/LinkGenerationResult.cs:77-98 | a fresh result adds nothing, on either side |
| ListExtensions.TryRemoveAt | Shokofin/ListExtensions.cs:8-17 | an item is removed exactly when the index is in range; then the item at the index is returned and the list loses exactly it, the rest shifting down by one; otherwise nothing is returned and the list is unchanged |
| ListExtensions.TryRemoveAtInverse | Shokofin/ListExtensions.cs:8-17 | putting the removed item back at its index restores the list |
| ListExtensions.TryRemoveAtOfInsert | Shokofin/ListExtensions.cs:8-17 | removing at the index of a known item gives back that item and the list without it |
| MediaFolder.NewConfig | Shokofin/Configuration/MediaFolderConfiguration.cs:18-41 | a configuration with the class defaults is not mapped, sits at the import folder's root, has file events on and no virtual file system choice |
| MediaFolder.EnabledForPathExactly | Shokofin/Configuration/MediaFolderConfiguration.cs:48-49 | a path is enabled for a media folder exactly when the folder is the import folder's root or the path is its sub-path, a separator and more |
| MediaFolder.EnabledForPathBelow | Shokofin/Configuration/MediaFolderConfiguration.cs:48-49 | a path enabled for a media folder with a sub-path lies strictly below that sub-path, and every path further down is enabled too |
| MediaFolder.PathsOf | Shokofin/Configuration/MediaFolderConfigurationService.cs:26-33 | the media folder paths of a group, one per configuration, in order |
| MediaFolder.ToImportFolderList | Shokofin/Configuration/MediaFolderConfigurationService.cs:23-27 | one entry per group of configurations sharing import folder and sub-path, in order of first occurrence, each with its members' paths |
| MediaFolder.ImportFolderListPartition | Shokofin/Configuration/MediaFolderConfigurationService.cs:23-27 | no two entries share an import folder and sub-path, no entry is empty, and every configuration's media folder is listed under its own location |
| MediaFolder.ConfigsForPath | Shokofin/Configuration/MediaFolderConfigurationService.cs:31 | a configuration is kept exactly when it is for the import folder and enabled for the path |
| MediaFolder.ToImportFolderListForPath | Shokofin/Configuration/MediaFolderConfigurationService.cs:29-34 | the kept configurations grouped by location and virtual file system choice, each entry with its members' paths |
| MediaFolder.ListForPathComplete | Shokofin/Configuration/MediaFolderConfigurationService.cs:29-34 | every configuration of the import folder enabled for the path has its media folder listed under its own sub-path and virtual file system choice |
| MediaFolder.ListForPathSound | Shokofin/Configuration/MediaFolderConfigurationService.cs:29-34 | every listed media folder comes from a configuration of the import folder that is enabled for the path and sits at the listed sub-path |
| MediaFolder.BoolText | Shokofin/Configuration/MediaFolderConfigurationService.cs:89 | a printed boolean starts with 'T' exactly for true and with 'F' for false |
| MediaFolder.MappingChangesKey | Shokofin/Configuration/MediaFolderConfiguration.cs:30 | giving an unmapped configuration an import folder id other than 0 maps it and changes its change key |
| MediaFolder.RemappingKeepsKey | Shokofin/Configuration/MediaFolderConfigurationService.cs:88-89 | moving a mapped configuration to another import folder or sub-path keeps its change key, since only the flags are tracked |
| MediaFolder.ConstructKeyInjective | Shokofin/Configuration/MediaFolderConfigurationService.cs:88-89 | two configurations get the same change key exactly when they agree on mapping, file events, refresh events, virtual file system choice and filtering mode |
| MediaFolder.InitialKeys | Shokofin/Configuration/MediaFolderConfigurationService.cs:73-74 | the service starts with a key for exactly the configured media folders |
| MediaFolder.InitialKeysCurrent | Shokofin/Configuration/MediaFolderConfigurationService.cs:73-74 | with distinct ids, every configured folder starts with its own current key |
| MediaFolder.OnConfigurationChanged | Shokofin/Configuration/MediaFolderConfigurationService.cs:91-102 | no folder gains or loses a key, folders not in the configuration keep theirs, and only configurations with a known key whose folder exists are reported |
| MediaFolder.ChangeDetectedExactly | Shokofin/Configuration/MediaFolderConfigurationService.cs:91-102 | with distinct ids, a configuration is reported exactly when its folder had a key, the key changed and the folder exists; afterwards every known folder holds its current key |
| MediaFolder.ChangeReportedOnce | Shokofin/Configuration/MediaFolderConfigurationService.cs:91-102 | handling the same configuration twice reports nothing the second time |
| MediaFolder.NoChangeAtStart | Shokofin/Configuration/MediaFolderConfigurationService.cs:73-102 | right after start-up an unchanged configuration reports nothing |
| Ordering.GetSeasonNumber | Shokofin/Utils/Ordering.cs:215-224 | a season the show did not number is an error (the source throws); otherwise "other" episodes go to the number after the season's base number and every other episode to the base number |
| Ordering.SeasonNumberLeadsBack | Shokofin/Utils/Ordering.cs:215-224 | in a numbered show, the season number of an episode finds its own season again: always for the base number, and for "other" episodes when the season took a second number |
| Ordering.FindSeason | Shokofin/Utils/Ordering.cs:94-104 | `FindIndex` gives the first position with the id, or -1 exactly when no season has it |
| Ordering.FindEpisode | Shokofin/Utils/Ordering.cs:97-107 | `FindIndex` gives the first position with the id, or -1 exactly when no episode has it |
| Ordering.CountsMonotone | Shokofin/Utils/Ordering.cs:100-110 | counting extras or specials over a longer run of seasons counts at least as many, and at least the count of each season in between |
| Ordering.TypeOffset | Shokofin/Utils/Ordering.cs:113-132 | normal and "other" episodes are not pushed down; each other type is pushed down by the sizes its fall-through chain adds, missing sizes counting as zero |
| Ordering.TypeOffsetOrdered | Shokofin/Utils/Ordering.cs:113-132 | with counts, parodies come first, then opening songs, then trailers, then every remaining type |
| Ordering.GetEpisodeNumber | Shokofin/Utils/Ordering.cs:90-134 | an extra or special of a season outside the show is an error; an extra or special succeeds exactly when its season is in the show and it is in its season's list, and is then numbered after all extras or specials of the earlier seasons, by its position in that list; any other episode keeps its AniDB number pushed down by its type |
| Ordering.ExtraNumbersSeparate | Shokofin/Utils/Ordering.cs:93-101 | extras are numbered from 1, and every extra of an earlier season gets a smaller number than any extra of a later season |
| Ordering.ExtraNumbersDistinctInSeason | Shokofin/Utils/Ordering.cs:93-101 | distinct extras of one season never share a number |
| Ordering.ByAirDate | Shokofin/Utils/Ordering.cs:159-173 | a special without an anchor airs after its season; with an anchor the placement fails exactly when numbering the anchor fails, and for an anchor numbered n it airs before episode n + 1 of the season when n is below the season's episode count, and after the season otherwise |
| Ordering.AirDateFollowsAnchor | Shokofin/Utils/Ordering.cs:163-169 | a special anchored to a normal episode numbered inside the season airs right before the episode numbered one higher |
| Ordering.NextTvDbEpisode | Shokofin/Utils/Ordering.cs:194 | none exactly when no episode has TvDB numbering at the wanted season and episode; otherwise the first episode of the list that has it |
| Ordering.ByOtherData | Shokofin/Utils/Ordering.cs:174-202 | without TvDB data the special is left unplaced, or, in the mixed mode, placed by air date; with an "airs before season" and no "airs before episode" it airs before its season; with neither, after its season or, mixed, by air date; with an "airs before episode", before the number of the first season episode TvDB numbers so, failing exactly when that number fails, and when there is no such episode unplaced or, mixed, by air date |
| Ordering.OtherDataNamesEpisode | Shokofin/Utils/Ordering.cs:194-198 | a special TvDB places before a normal episode airs before that episode's own number, in either mode |
| Ordering.GetSpecialPlacement | Shokofin/Utils/Ordering.cs:136-206 | excluded specials and non-specials are not placed (the flag tells whether the episode is a special); an error happens only for a special that is placed, and exactly when its season has no number; every placement refers to the special's season number; the default and after-season orders put it after the season, and the air-date, mixed and other-data orders place it as those placements do |
| Ordering.MixedWithoutTvDbIsAirDate | Shokofin/Utils/Ordering.cs:177-178 | without TvDB data the mixed order places a special exactly as the air-date order does |
| Ordering.ContainsIgnoreCaseOfContains | Shokofin/Utils/Ordering.cs:250 | a lower-case word found in a title as it is is also found ignoring case |
| Ordering.SpecialExtraType | Shokofin/Utils/Ordering.cs:245-267 | a special without an English title is no extra; otherwise the rules apply in order: a title containing "interview" gives an interview, else a "cinema " title with an intro or outro gives a clip, else one containing "music video" gives a theme video, else a making-of, music-in or advance-screening title gives behind-the-scenes, each exactly when the earlier rules fail |
| Ordering.GetExtraType | Shokofin/Utils/Ordering.cs:231-271 | normal, other and unknown episodes are never extras; songs are theme videos; credits and parodies, exactly, are extras of unknown type; trailers, exactly, are trailers; interviews, clips and behind-the-scenes come only from specials |
| Ordering.ExtraTypeDecidesList | Shokofin/Utils/Ordering.cs:231-271 | with extra types assigned this way, a season files an episode among its extras exactly when it has a type, among its specials exactly when it is a special whose title gives none, and drops exactly the unknown episodes |
| RelationComparer.Priority | Shokofin/Utils/SeriesInfoRelationComparer.cs:12-26 | exactly the ten listed relation types have a priority, each between 1 and 99; "other" and "reboot" have none |
| RelationComparer.PriorityInjective | Shokofin/Utils/SeriesInfoRelationComparer.cs:12-26 | no two types share a priority, so ordering types by priority and ordering the priorities agree |
| RelationComparer.DirectSide | Shokofin/Utils/SeriesInfoRelationComparer.cs:57-61 | one side says "first" exactly when the other entry is its prequel or main story and "after" exactly when it is its sequel or side story |
| RelationComparer.CompareDirectRelations | Shokofin/Utils/SeriesInfoRelationComparer.cs:53-71 | `a`'s relation to `b` decides when it is one of the four ordering types; otherwise `b`'s relation to `a` decides with the sign mirrored; the result is 0 exactly when neither side decides |
| RelationComparer.CompareDirectAntisymmetric | Shokofin/Utils/SeriesInfoRelationComparer.cs:53-71 | swapping the entries mirrors the direct result exactly when the two sides do not claim opposite things |
| RelationComparer.Ranks | Shokofin/Utils/SeriesInfoRelationComparer.cs:75-77 | only prioritised relations are kept, each as a priority between 1 and 99 |
| RelationComparer.RanksIgnoreUnprioritised | Shokofin/Utils/SeriesInfoRelationComparer.cs:76 | a relation outside the priority table, at either end, changes none of the kept priorities |
| RelationComparer.SortedRanks | Shokofin/Utils/SeriesInfoRelationComparer.cs:75-84 | the list compared is sorted and a permutation of the kept priorities |
| RelationComparer.PriorityCompareAntisymmetric | Shokofin/Utils/SeriesInfoRelationComparer.cs:85-105 | swapping the priority lists mirrors the result, which is 0 exactly for equal lists |
| RelationComparer.PriorityCompareLonger | Shokofin/Utils/SeriesInfoRelationComparer.cs:86-91 | a list that extends another sorts before it: the entry with more relations comes first |
| RelationComparer.ComparePriorities | Shokofin/Utils/SeriesInfoRelationComparer.cs:85-105 | the loop over positions gives the lexicographic reference order, in which a list that runs out first sorts after the other |
| RelationComparer.CompareIndirectRelations | Shokofin/Utils/SeriesInfoRelationComparer.cs:73-106 | the indirect result is the reference order on the two sorted priority lists, and 0 exactly when the lists are equal |
| RelationComparer.CompareAirDates | Shokofin/Utils/SeriesInfoRelationComparer.cs:108-111 | dated entries compare in time order, an undated entry sorts before a dated one, and the result is 0 exactly for equal dates or two undated entries |
| RelationComparer.CompareAirDatesAntisymmetric | Shokofin/Utils/SeriesInfoRelationComparer.cs:108-111 | swapping the dates mirrors the result |
| RelationComparer.Compare | Shokofin/Utils/SeriesInfoRelationComparer.cs:28-51 | `null` sorts last and two `null`s are equal; otherwise a direct relation decides, then differing priority lists, then the air dates |
| RelationComparer.CompareAntisymmetric | Shokofin/Utils/SeriesInfoRelationComparer.cs:28-111 | when the direct relations do not clash, swapping the entries mirrors the result, as a comparer must |
| Seasons.ClassesDisjoint | Shokofin/API/Info/SeasonInfo.cs:105-125 | the switch puts an episode on at most one list, and exactly the episodes that are neither normal, other nor special and have no extra type land on none |
| Seasons.SelectMembers | Shokofin/API/Info/SeasonInfo.cs:104-127 | an episode is on a list built by the pass exactly when it is one of the episodes and is of the list's class |
| Seasons.LastNormalAt | Shokofin/API/Info/SeasonInfo.cs:103-108 | the remembered position holds a normal episode and no normal episode comes after it; without one, there is no normal episode at all |
| Seasons.FirstNormal | Shokofin/API/Info/SeasonInfo.cs:118-120 | `FirstOrDefault` finds a normal episode of the range, finds none exactly when the range holds none, and finds the first one when the range starts with it |
| Seasons.AnchorsSound | Shokofin/API/Info/SeasonInfo.cs:116-123 | every anchored episode is a special of the list, anchored to a normal episode of the list, and some normal episode comes before one of its occurrences |
| Seasons.LastSpecialAnchor | Shokofin/API/Info/SeasonInfo.cs:116-123 | the newest special is anchored to the last normal episode before it, and gets no anchor when there is none |
| Seasons.RangeFindsLastNormal | Shokofin/API/Info/SeasonInfo.cs:118-120 | the range from the remembered position up to the current one starts with the last normal episode, so the first normal episode found is the last one before the special |
| Seasons.FileEpisode | Shokofin/API/Info/SeasonInfo.cs:105-117 | each list grows by the episode exactly when the episode is of that list's class, so every episode goes on at most one list |
| Seasons.AnchorEpisode | Shokofin/API/Info/SeasonInfo.cs:103-123 | after each episode the anchors map every special seen so far to the last normal episode before it, and the remembered position is the last normal one seen |
| Seasons.Partition | Shokofin/API/Info/SeasonInfo.cs:102-127 | the single pass yields exactly the normal, other, extra and special episodes, each in input order, and anchors every special to the last normal episode before it |
| Seasons.SortSpecials | Shokofin/API/Info/SeasonInfo.cs:154-156 | the specials end sorted by AniDB episode number and are a permutation of the list before |
| Seasons.SortSpecialsStable | Shokofin/API/Info/SeasonInfo.cs:154-156 | specials with the same number keep their relative order, as LINQ's stable `OrderBy` keeps them |
| Seasons.Finish | Shokofin/API/Info/SeasonInfo.cs:129-156 | with no normal episode but a local "other" one, the other episodes replace the normal ones and a movie becomes a web series; otherwise a TV special moves every normal and other episode to its specials and drops the anchors; any other series keeps its lists; the specials are sorted in every case, with equal numbers in the order other episodes, normal episodes, specials |
| Seasons.FinishKeepsEpisodes | Shokofin/API/Info/SeasonInfo.cs:129-156 | the step after the pass neither loses nor duplicates an episode of the three lists |
| Seasons.NewSeason | Shokofin/API/Info/SeasonInfo.cs:92-175 | the extras are the input's extras in input order; with no normal episode but a local other one, the episodes are the other episodes in input order and a movie becomes a web series; a TV special otherwise has no episodes, no other episodes and no anchors; any other series keeps the normal and other episodes in input order with the anchors of the pass; the specials are sorted by number, equal numbers in input order |
| Shows.Slots | Shokofin/API/Info/ShowInfo.cs:140-145 | a season takes one to three season numbers: its base number, one more with alternate episodes, one more with "other" episodes |
| Shows.Place | Shokofin/API/Info/ShowInfo.cs:140-145 | numbering one season gives it the next number as base, advances the last number used by its slot count, maps exactly the new numbers to it, and leaves the earlier numbers alone |
| Shows.NumberShape | Shokofin/API/Info/ShowInfo.cs:136-146 | the numbering exists exactly when no season id repeats in the list, the model's stand-in for the same season appearing twice, on which the dictionary's `Add` throws; then it uses the numbers 1 to the total slot count with no gap and numbers every season |
| Shows.NumberPositions | Shokofin/API/Info/ShowInfo.cs:136-146 | a season's base number is one more than the slots of the seasons before it, and its base number and the extra numbers right after it lead back to it |
| Shows.NumberTargets | Shokofin/API/Info/ShowInfo.cs:136-146 | every number leads to a season of the list |
| Shows.SingleSeasonNumbering | Shokofin/API/Info/ShowInfo.cs:67-76 | the one-season constructor gives the season base number 1, and exactly the numbers 1 to its slot count lead to it |
| Shows.SingleSeasonAgrees | Shokofin/API/Info/ShowInfo.cs:67-76 | the one-season constructor numbers its season exactly as the group constructor numbers a one-season list |
| Shows.SeasonByNumber | Shokofin/API/Info/ShowInfo.cs:161-166 | season 0 never has a season; any other number has one exactly when it was numbered, and then it is the numbered season |
| Shows.SeasonByNumberSound | Shokofin/API/Info/ShowInfo.cs:136-166 | in a numbered show exactly the numbers 1 to the slot count lead to a season, each to a season of the show, and each season's base number leads to it |
| Shows.FilterSeries | Shokofin/API/Info/ShowInfo.cs:93-100 | without a filter the list is kept; otherwise a series is kept exactly when it is a movie for the movie filter, or not a movie for the other filter |
| Shows.FoundIndex | Shokofin/API/Info/ShowInfo.cs:115-134 | under release-date order the default season is the first one; otherwise it is the first season that is the group's main series, falling back to the first season when the main series is not in the list |
| Shows.NewShow | Shokofin/API/Info/ShowInfo.cs:89-159 | the show exists exactly when the season ids are distinct; it then keeps the ordered seasons and their numbering, has no default season and the group's name when empty, and otherwise takes its default season's name |
| StringExtensions.Deconstruct | Shokofin/StringExtensions.cs:8-41 | every overload gives as many values as it has out parameters: the list's entry at each position the list has, and "" at each position it lacks |
| StringExtensions.DeconstructOverloadsAgree | Shokofin/StringExtensions.cs:8-41 | the overloads agree on the positions they share, and a long enough list is deconstructed into its first entries |
| StringExtensions.ReplaceWith | Shokofin/StringExtensions.cs:56-66 | after one `string.Replace` every character came from the text (and is not the replaced one) or from the replacement, and a text without the character is unchanged |
| StringExtensions.ReplaceAll | Shokofin/StringExtensions.cs:56-66 | when no replacement puts back a replaced character, none of the replaced characters is left, nothing but the text's own characters and the replacements appears, and a text without any of them is unchanged |
| StringExtensions.ReplaceWithAppend | Shokofin/StringExtensions.cs:56 | one `string.Replace` of a concatenation is the concatenation of the two parts' replacements |
| StringExtensions.Substitute | Shokofin/StringExtensions.cs:56-66 | a character no replacement names stays itself, and a named one becomes the text of the first replacement naming it |
| StringExtensions.ReplaceAllAppend | Shokofin/StringExtensions.cs:56-66 | the chain of replacements of a concatenation is the concatenation of the two parts' results |
| StringExtensions.ReplaceAllChar | Shokofin/StringExtensions.cs:56-66 | a single character goes through the whole chain as its own substitute: no later replacement touches an earlier one's text |
| StringExtensions.ReplaceAllIsSubstitution | Shokofin/StringExtensions.cs:56-66 | the chain of replacements equals replacing every character of the text on its own, in order, by its substitute |
| StringExtensions.PathRules | Shokofin/StringExtensions.cs:57-66 | there are ten replacements, in the source's order |
| StringExtensions.PathRulesCover | Shokofin/StringExtensions.cs:57-66 | the ten replacements cover exactly the characters `* \| \ / : " > < ? .` and put none of them back |
| StringExtensions.PathRulesDistinct | Shokofin/StringExtensions.cs:57-66 | no two of the ten replacements name the same character |
| StringExtensions.ReplaceAllInvalid | Shokofin/StringExtensions.cs:56-66 | no invalid path character survives the replacements, a text without one is unchanged, and the result is the text with every character replaced on its own by its look-alike |
| StringExtensions.PathSubstitutes | Shokofin/StringExtensions.cs:57-66 | a valid character is kept, each invalid character becomes exactly the look-alike of its own replacement, and `*` becomes the star text |
| StringExtensions.ReplaceInvalidPathCharactersAsWritten | Shokofin/StringExtensions.cs:55-67 | with the escape as C# reads it, the output still holds no invalid path character and is the per-character substitution, with the two-character star, trimmed |
| StringExtensions.ReplaceInvalidPathCharacters | Shokofin/StringExtensions.cs:55-67 | the output holds no invalid path character, has no .NET whitespace at either end, and is the per-character substitution by the look-alikes, trimmed |
| StringExtensions.ReplaceInvalidPathCharactersKeepsValid | Shokofin/StringExtensions.cs:55-67 | a name that is already clean and trimmed is returned unchanged |
| StringExtensions.ReplaceInvalidPathCharactersIdempotent | Shokofin/StringExtensions.cs:55-67 | sanitising twice gives what sanitising once gives |
| StringExtensions.StarReplacementAsWritten | Shokofin/StringExtensions.cs:57 | as written, "*" becomes U+1F7A followed by the letter 'F', two characters and not the named asterisk |
| StringExtensions.StarReplacementIntended | Shokofin/StringExtensions.cs:57 | with the intended escape, "*" becomes the single character U+1F7AF LIGHT FIVE SPOKED ASTERISK |
| Sync.ToFileUserStats | Shokofin/Sync/SyncExtensions.cs:10-23 | the stats are in canonical shape; a resume position exists exactly when the position is not below one whole millisecond, and then equals it; the file counts as watched exactly when the item is played; the update time is the last-played date when there is one; the watch count is the play count |
| Sync.MergeWithFileUserStats | Shokofin/Sync/SyncExtensions.cs:87-94 | the item is played exactly when the stats have a watch time, the play count is the watch count, the position is the resume position or 0 without one, the last-played date is the update time when resuming, else the watch time when watched, else the update time, and every other field is kept |
| Sync.ExportIsEmpty | Shokofin/Sync/UserDataSyncManager.cs:542-546 | the export of local data counts as empty exactly when the item is unplayed, uncounted and under a millisecond in, so such data is never exported to an empty remote side |
| Sync.MergeEmpty | Shokofin/Sync/UserDataSyncManager.cs:630-633 | importing empty stats leaves the item unplayed, uncounted, at position 0, last played at the stats' update time |
| Sync.ToUserData | Shokofin/Sync/SyncExtensions.cs:96-104 | the stats merged into fresh user data, which is no favourite and has no rating |
| Sync.MergeThenConvert | Shokofin/Sync/SyncExtensions.cs:87-94 | importing canonical stats and exporting them again gives back exactly the same stats |
| Sync.ConvertThenMerge | Shokofin/Sync/SyncExtensions.cs:87-94 | exporting and importing again keeps the played flag, the play count, the position (0 when under a millisecond) and a last-played date that was set |
| Sync.CopyOptional | Shokofin/Sync/SyncExtensions.cs:29-33 | an optional field takes the other record's value whenever that has one, and keeps its own otherwise |
| Sync.LaterDate | Shokofin/Sync/SyncExtensions.cs:53-57 | the last-played date is one of the two and is no earlier than either, so it only moves forward |
| Sync.CopyOtherFields | Shokofin/Sync/SyncExtensions.cs:25-84 | copying every field but the favourite flag leaves the favourite flag as it was |
| Sync.CopyOtherFieldsChanges | Shokofin/Sync/SyncExtensions.cs:25-84 | those fields change exactly when one of their branches fires, so the reported flag matches a real change |
| Sync.CopyFromAsWritten | Shokofin/Sync/SyncExtensions.cs:25-84 | as written, the favourite flag is never changed and the copy reports an update whenever the two flags are equal |
| Sync.CopyFromAsWrittenFavouriteInverted | Shokofin/Sync/SyncExtensions.cs:47-51 | copying a record onto itself reports an update; a record differing only in the favourite flag reports none and keeps the old flag |
| Sync.CopyFrom | Shokofin/Sync/SyncExtensions.cs:25-84 | with the favourite test corrected, an update is reported exactly when the record changed; afterwards position, play count, played and favourite are the other side's, present optional values are taken over, absent ones keep ours, and the last-played date never moves back |
| Sync.CopyFromIdempotent | Shokofin/Sync/SyncExtensions.cs:25-84 | copying again from the same record changes nothing and reports no update |
| Sync.ShouldSendEvent | Shokofin/Sync/UserDataSyncManager.cs:139-152 | with no events left to skip the event is sent; pause and resume events keep the counter; other events count a positive counter down; a negative counter never sends; an event is sent exactly when the counter ends at 0 |
| Sync.RunEvents | Shokofin/Sync/UserDataSyncManager.cs:139-152 | a series of events gets one verdict each |
| Sync.NothingAfterFinish | Shokofin/Sync/UserDataSyncManager.cs:139-152 | once playback has ended (counter -1) no later event is sent and the counter stays |
| Sync.SkipsFirstEvents | Shokofin/Sync/UserDataSyncManager.cs:139-152 | with n events to skip, ordinary events are held back for the first n - 1 and all sent from the n-th on |
| Sync.PausesKeepCounter | Shokofin/Sync/UserDataSyncManager.cs:139-152 | a run of pause and resume events sends nothing while events are still to be skipped and leaves the counter as it was |
| Sync.InSync | Shokofin/Sync/UserDataSyncManager.cs:620-649 | two missing sides agree and a missing local side never agrees with remote stats; a missing remote side agrees exactly when the local export is empty; otherwise the sides agree exactly when both exports are empty or resume position, watch count, played flag and update time all match |
| Sync.InSyncWithExport | Shokofin/Sync/UserDataSyncManager.cs:620-649 | local data is always in sync with its own export |
| Sync.InSyncAfterImport | Shokofin/Sync/UserDataSyncManager.cs:620-649 | local data merged from canonical stats is in sync with them |
| Sync.ExportStep | Shokofin/Sync/UserDataSyncManager.cs:537-555 | an export never saves locally and only ever sends the local data's own export |
| Sync.ImportStep | Shokofin/Sync/UserDataSyncManager.cs:556-571 | an import never sends, only happens when there are remote stats, and saves the stats as fresh data or merged into the local data |
| Sync.SyncVideo | Shokofin/Sync/UserDataSyncManager.cs:521-607 | restricted videos and sides in sync are left alone; sending happens only outside an import, sends the local export and only when the local date is newer than the remote update; saving happens only outside an export and, with a local date, only when the remote update is newer |
| Sync.SyncConverges | Shokofin/Sync/UserDataSyncManager.cs:521-607 | whatever the sync does, the side it writes is in sync with the other at the clock reading the sync used; saved local data stays in sync at any later reading, and so do sent stats when the local data has a last-played date |
| Sync.ExportIgnoresClock | Shokofin/Sync/SyncExtensions.cs:10-23 | local data with a last-played date exports the same stats whatever the clock reads |
| Sync.SentStatsDrift | Shokofin/Sync/UserDataSyncManager.cs:620-649 | stats sent for local data without a last-played date carry the sync's clock reading, so the comparison at any other reading finds the sides out of sync, and a two-way sync then imports the sent stats back |
| SettingsPage.CleanEntry | Shokofin/Pages/Scripts/Settings.js:1205-1225 | a cleaned entry is lower-case and no longer than the raw one |
| SettingsPage.CleanEntryTrimmed | Shokofin/Pages/Scripts/Settings.js:1205 | a cleaned entry has no JavaScript whitespace at either end |
| SettingsPage.CleanEntrySettled | Shokofin/Pages/Scripts/Settings.js:1203-1205 | an entry cut at the commas cleans to a lower-case, trimmed entry without a comma |
| SettingsPage.SettledCleansToItself | Shokofin/Pages/Scripts/Settings.js:1205 | an already clean entry, with whitespace in front or not, cleans back to itself |
| SettingsPage.CleanAll | Shokofin/Pages/Scripts/Settings.js:1205 | every entry is cleaned, and in place |
| SettingsPage.DropEmpty | Shokofin/Pages/Scripts/Settings.js:1206 | an entry is kept exactly when it occurs and is not empty |
| SettingsPage.FilterIgnoredFolders | Shokofin/Pages/Scripts/Settings.js:1198-1212 | the saved list has no duplicates and holds exactly the non-empty cleaned entries of the text |
| SettingsPage.IgnoredFoldersShape | Shokofin/Pages/Scripts/Settings.js:1198-1212 | every saved entry is non-empty and clean, and the list keeps the order in which entries first occur in the text |
| SettingsPage.IgnoredFoldersRoundTrip | Shokofin/Pages/Scripts/Settings.js:1198-1212 | the list joined with ", " (as written back after a save) or with "," (as loaded) filters back to the same list |
| SettingsPage.SettledListRoundTrip | Shokofin/Pages/Scripts/Settings.js:1198-1212 | any non-empty list of distinct clean entries, joined, filters back to itself |
| SettingsPage.ParseDecimal | Shokofin/Pages/Scripts/Settings.js:1225 | `parseInt(s, 10)` yields no number exactly when no digit follows the optional sign |
| SettingsPage.ParsePrinted | Shokofin/Pages/Scripts/Settings.js:1225 | parsing a printed integer gives the integer back |
| SettingsPage.ParseAll | Shokofin/Pages/Scripts/Settings.js:1225 | every entry is cleaned and parsed, in place |
| SettingsPage.Numbers | Shokofin/Pages/Scripts/Settings.js:1226 | the numbers kept are exactly those of the entries that parsed |
| SettingsPage.FilterReconnectIntervals | Shokofin/Pages/Scripts/Settings.js:1218-1230 | the saved intervals are strictly increasing (sorted, no duplicates) and are exactly the numbers parsed from the text |
| SettingsPage.ReconnectIntervalsRoundTrip | Shokofin/Pages/Scripts/Settings.js:1218-1230 | the intervals joined with ", ", as the page writes them back, filter back to the same intervals |
| SettingsPage.KeepUsersWithToken | Shokofin/Pages/Scripts/Settings.js:1099 | the saved user list holds exactly the users with a non-empty token |
| SettingsPage.KeepUsersWithTokenIdempotent | Shokofin/Pages/Scripts/Settings.js:1099 | saving again drops nobody more |
| SettingsPage.FindUser | Shokofin/Pages/Scripts/Settings.js:1118 | the index is -1 exactly when no user has the id, and otherwise the first user with it |
| SettingsPage.RemoveUser | Shokofin/Pages/Scripts/Settings.js:1113-1127 | with no user selected or no user with the id, the list is unchanged; otherwise only the first user with the id is removed and the rest keep their order |
| SettingsPage.RemoveUserInverse | Shokofin/Pages/Scripts/Settings.js:1113-1127 | putting the removed user back at its index restores the list |
| SettingsPage.OutsideLibrary | Shokofin/Pages/Scripts/Settings.js:1140-1144 | the folders kept are exactly those not in the library |
| SettingsPage.FindInLibrary | Shokofin/Pages/Scripts/Settings.js:1140-1143 | the index is -1 exactly when no folder is in the library, and otherwise points at one that is |
| SettingsPage.SpliceInLibrary | Shokofin/Pages/Scripts/Settings.js:1142 | splicing out one folder of the library leaves the same folders outside it |
| SettingsPage.RemoveLibrary | Shokofin/Pages/Scripts/Settings.js:1135-1144 | with no library selected the folders are unchanged; otherwise the loop ends with exactly the other libraries' folders, in order, and none of the removed library |
| SettingsPage.SetLibraryEventFlags | Shokofin/Pages/Scripts/Settings.js:540-556 | the folders of the selected library take the two event flags and nothing else of them changes; all other folders are unchanged |
| SettingsPage.SetLibraryEventFlagsIdempotent | Shokofin/Pages/Scripts/Settings.js:540-556 | saving the same flags again changes nothing |
| CommonPage.ShownTabs | Shokofin/Pages/Scripts/Common.js:574 | a tab is shown exactly when it is the current tab or both its connection and expert-mode limits are met; the shown tabs are the tabs filtered by that test, keeping their order and repeats |
| CommonPage.FindTab | Shokofin/Pages/Scripts/Common.js:575 | the index is -1 exactly when no tab has the id, and otherwise the first tab with it |
| CommonPage.UpdateTabs | Shokofin/Pages/Scripts/Common.js:569-580 | a given tab name becomes the current tab; the current tab is always among the shown tabs; the selected index is the current tab's first position, or 0 when the current tab is not among the tabs |
| CommonPage.UpdateTabsStable | Shokofin/Pages/Scripts/Common.js:569-580 | updating again without a tab name gives the same state, tabs and index |
| CommonPage.HexDigit | Shokofin/Pages/Scripts/Common.js:950-955 | the form encoding writes an upper-case hexadecimal digit whose value is the nibble written |
| CommonPage.Utf8 | Shokofin/Pages/Scripts/Common.js:950-955 | a character is encoded as one to four bytes, a single byte exactly for code points below 0x80 |
| CommonPage.Utf8RoundTrip | Shokofin/Pages/Scripts/Common.js:950-955 | the lead byte announces the sequence's length, and the UTF-8 bytes decode back to the character |
| CommonPage.PercentEncode | Shokofin/Pages/Scripts/Common.js:950-955 | percent-encoded bytes consist of `%` and hexadecimal digits only, three characters per byte, each group starting with `%` and carrying the byte's value |
| CommonPage.PercentRoundTrip | Shokofin/Pages/Scripts/Common.js:950-955 | percent-decoding the encoded bytes gives the bytes back |
| CommonPage.EncodeChar | Shokofin/Pages/Scripts/Common.js:950-955 | an unreserved character is written as it is, and no character is written as `&` or `=` |
| CommonPage.FormEncode | Shokofin/Pages/Scripts/Common.js:950-955 | an encoded name or value holds neither `&` nor `=` |
| CommonPage.DecodeEncodedChar | Shokofin/Pages/Scripts/Common.js:950-955 | one encoded character, whatever follows it, decodes to that character in front of the decoded rest |
| CommonPage.FormRoundTrip | Shokofin/Pages/Scripts/Common.js:950-955 | decoding the form encoding of any text gives the text back, so no two names share an address |
| CommonPage.FormEncodeUnreserved | Shokofin/Pages/Scripts/Common.js:950-955 | a page or tab name made of unreserved characters is written unchanged |
| CommonPage.ConfigurationPageUrl | Shokofin/Pages/Scripts/Common.js:949-956 | the address starts with "configurationpage?" |
| CommonPage.ConfigurationPageQuery | Shokofin/Pages/Scripts/Common.js:949-956 | the query splits at `&` into exactly the name parameter, followed by the tab parameter exactly when a tab was given |
| CommonPage.CheckedOptions | Shokofin/Pages/Scripts/Common.js:1026-1028 | an option is read exactly when some checked box carries it |
| CommonPage.CheckedOptionsInOrder | Shokofin/Pages/Scripts/Common.js:1026-1028 | the options read are the options of the checked boxes, in list order and with repeats |
| CommonPage.Options | Shokofin/Pages/Scripts/Common.js:1170-1171 | every box's option, in list order |
| CommonPage.RetrieveCheckboxList | Shokofin/Pages/Scripts/Common.js:1025-1030 | the result is sorted and a permutation of the checked boxes' options |
| CommonPage.RetrieveSortableCheckboxList | Shokofin/Pages/Scripts/Common.js:1162-1173 | the first list is the checked options sorted (a permutation of them), the second every option in the order shown |
| CommonPage.RenderCheckboxList | Shokofin/Pages/Scripts/Common.js:1011-1016 | a box ends up checked exactly when it was checked or its option is enabled; options never change |
| CommonPage.RenderRetrieved | Shokofin/Pages/Scripts/Common.js:1011-1030 | with distinct options, rendering what was read leaves every box as it was |
| TagFilter.Lookup | Shokofin/Utils/TagFilter.cs:443-461 | a name is found exactly when some entry has it as key, and then the tag stored under it is returned |
| TagFilter.LookupChild | Shokofin/Utils/TagFilter.cs:492-508 | a child is found exactly when one has the name, and then that child's tag is returned |
| TagFilter.TableShape | Shokofin/Utils/TagFilter.cs:75-296 | every source except the custom tags is applied at the top, the source material among them; below the custom tags the source material is not applied |
| TagFilter.Depth | Shokofin/Utils/TagFilter.cs:469 | a tag sits at least one level deep |
| TagFilter.DepthOfPath | Shokofin/Utils/TagFilter.cs:469 | a relative name of n slash-free parts sits exactly n levels deep |
| TagFilter.DefaultTagFilterPasses | Shokofin/Utils/TagFilter.cs:469-483 | under the default include filter, with no minimum weight and no depth limit, a tag passes the per-tag tests exactly when it is neither a local nor a global spoiler |
| TagFilter.DefaultGenreFilterPasses | Shokofin/Utils/TagFilter.cs:469-483 | under the default genre filter a tag passes exactly when it is no spoiler, sits one level deep, and is weightless or weighs at least four stars |
| TagFilter.PassesWiderFilter | Shokofin/Utils/TagFilter.cs:468-485 | a tag that passes an include filter passes every wider one |
| TagFilter.PassesLowerWeight | Shokofin/Utils/TagFilter.cs:482-483 | a tag that passes a minimum weight passes every lower one |
| TagFilter.PassesWeightless | Shokofin/Utils/TagFilter.cs:482-483 | the minimum weight never matters for a weightless tag, and a minimum of 0 or less is no minimum |
| TagFilter.PassesDeeper | Shokofin/Utils/TagFilter.cs:469-471 | a depth limit of 0 is the same as no limit, and raising the limit never drops a tag |
| TagFilter.Descendants | Shokofin/Utils/TagFilter.cs:440-444 | the entries taken are exactly the descendants of the included namespaces the dictionary holds |
| TagFilter.Themselves | Shokofin/Utils/TagFilter.cs:446-450 | the entries taken are exactly the include-only tags the dictionary holds, each under a slash and its own name |
| TagFilter.Included | Shokofin/Utils/TagFilter.cs:440-450 | a source considers exactly its included namespaces' descendants and its include-only tags |
| TagFilter.ExcludedTags | Shokofin/Utils/TagFilter.cs:452-462 | a tag is left out exactly when it is a named tag the dictionary holds, or, for a full exclusion, one of that tag's descendants |
| TagFilter.TagsOf | Shokofin/Utils/TagFilter.cs:455-456 | the tags of the entries, position by position |
| TagFilter.Excepted | Shokofin/Utils/TagFilter.cs:452-462 | the tags left out are those of the full exclusions with their descendants and those of the exclude-only names alone |
| TagFilter.FirstWithKey | Shokofin/Utils/TagFilter.cs:465 | the first entry with the source and id, and none exactly when no entry has them |
| TagFilter.Without | Shokofin/Utils/TagFilter.cs:465 | exactly the entries with another source or id |
| TagFilter.FirstPerTag | Shokofin/Utils/TagFilter.cs:465 | an entry is kept exactly when it is the first of its source and id, so no two kept entries share them |
| TagFilter.Survivors | Shokofin/Utils/TagFilter.cs:464-467 | the considered entries that survive are exactly the first of each tag whose tag is not left out |
| TagFilter.PassingTitles | Shokofin/Utils/TagFilter.cs:468-486 | a title is collected exactly when some entry with that title passes the depth limit, the include filter and the minimum weight |
| TagFilter.TagsFromNamespace | Shokofin/Utils/TagFilter.cs:436-488 | a source's list has no duplicates and holds exactly the titles of the surviving tags that pass |
| TagFilter.ExcludedNeverSurvives | Shokofin/Utils/TagFilter.cs:452-466 | a tag a source names for exclusion never survives |
| TagFilter.ExcludedChildNeverSurvives | Shokofin/Utils/TagFilter.cs:452-466 | a descendant of a fully excluded namespace never survives either |
| TagFilter.MinName | Shokofin/Utils/TagFilter.cs:495-508 | the least child name is one of the names and no greater than any, and there is none exactly when there are no names |
| TagFilter.FirstChild | Shokofin/Utils/TagFilter.cs:495-508 | the first child's name is lower-case, and there is none exactly when the tag has no children |
| TagFilter.LookupPair | Shokofin/Utils/TagFilter.cs:496-515 | an unlisted key gives the fallback and a listed key gives a value listed for it |
| TagFilter.MaterialLabel | Shokofin/Utils/TagFilter.cs:496-515 | the genre for the first source material is always one of the known source-material genres |
| TagFilter.GameLabel | Shokofin/Utils/TagFilter.cs:503-507 | the genre for a game is always a known source-material genre |
| TagFilter.TelevisionLabel | Shokofin/Utils/TagFilter.cs:508-511 | the genre for a television programme is always a known source-material genre |
| TagFilter.GetSourceMaterial | Shokofin/Utils/TagFilter.cs:490-517 | the genre is always a known one; it is "Original Work" without a source-material tag, when one of its children is named so, or when it has no children; it fails only for a game or television programme whose child is not stored under the lower-cased name |
| TagFilter.SourceMaterialWithLowerNames | Shokofin/Utils/TagFilter.cs:490-517 | with lower-case child names the source material always yields a genre |
| TagFilter.CountriesFor | Shokofin/Utils/TagFilter.cs:526-545 | an origin tag only names known countries |
| TagFilter.CountriesOf | Shokofin/Utils/TagFilter.cs:524-546 | a country is collected exactly when some origin child names it |
| TagFilter.CountriesOfAppend | Shokofin/Utils/TagFilter.cs:524-546 | the countries are listed child after child, in the children's order |
| TagFilter.GetProductionCountriesFromTags | Shokofin/Utils/TagFilter.cs:519-550 | no origin tag gives no countries; otherwise the countries have no duplicates and are exactly those some origin child names |
| TagFilter.ProductionCountriesInOrder | Shokofin/Utils/TagFilter.cs:519-550 | the distinct countries keep the order in which the origin's children first name them |
| TagFilter.GetTagsFromSource | Shokofin/Utils/TagFilter.cs:431-435 | the source material gives exactly its one genre and fails only when that does; every other source never fails |
| TagFilter.FromSources | Shokofin/Utils/TagFilter.cs:411-422 | the chosen sources' tags together fail exactly when a chosen source fails, and otherwise hold exactly the tags some chosen source gives |
| TagFilter.LeafTitles | Shokofin/Utils/TagFilter.cs:416 | a title is taken exactly when a direct child with it is not a parent |
| TagFilter.CustomPart | Shokofin/Utils/TagFilter.cs:414-423 | the custom tags add nothing unless chosen and present, and then add at least every direct leaf child's title |
| TagFilter.CustomPartExactly | Shokofin/Utils/TagFilter.cs:414-423 | chosen and present, the custom tags add exactly their direct leaf children's titles and, when those are fewer than all their descendants, the tags every chosen source but the source material and target audience gives below them |
| TagFilter.UnchosenCustomTags | Shokofin/Utils/TagFilter.cs:408-429 | without the custom tags chosen, the result holds exactly the chosen sources' tags |
| TagFilter.FilterInternal | Shokofin/Utils/TagFilter.cs:408-429 | the result fails exactly when the source material is chosen and fails; otherwise it is sorted, has no duplicates and holds exactly the chosen sources' tags and the custom tags' contribution |
| TagFilter.SourceContributes | Shokofin/Utils/TagFilter.cs:408-429 | every tag a chosen source gives ends up in the result |
| TagFilter.SourceMaterialChosen | Shokofin/Utils/TagFilter.cs:408-435 | with the source material chosen, the result fails exactly when the source material does, and otherwise holds its genre |
| TagFilter.FilterTags | Shokofin/Utils/TagFilter.cs:371-388 | the tags are sorted and distinct; with the defaults they fail exactly when the source material does and always hold its genre; overriding settings are applied as given |
| TagFilter.DefaultTagSourcesAll | Shokofin/Utils/TagFilter.cs:376-381 | the default tag sources are every source but the ungrouped and unsorted tags |
| TagFilter.DefaultTagsExactly | Shokofin/Utils/TagFilter.cs:371-388 | with the defaults, the tags are exactly those the default sources give under the spoiler-free filter, plus the custom tags' contribution |
| TagFilter.FilterGenres | Shokofin/Utils/TagFilter.cs:390-402 | the genres are sorted and distinct; with the defaults they fail exactly when the source material does and always hold its genre; overriding settings are applied as given |
| TagFilter.GenresUseDefaults | Shokofin/Utils/TagFilter.cs:390-400 | the default genre settings use the source material, target audience and elements, the full include filter, four stars and depth one, and leave the custom tags out |
| TagFilter.DefaultGenresExactly | Shokofin/Utils/TagFilter.cs:390-402 | with the defaults, the genres are exactly those the three default sources give under the genre filter, and the custom tags add nothing |
| Text.TrimmedEntries | Shokofin/Utils/Text.cs:193-195 | the entries kept are all trimmed and non-empty, and there are none exactly when no entry has text |
| Text.Separator | Shokofin/Utils/Text.cs:206-208 | a text ending in one of the punctuation marks continues after a bare space, any other after ". " |
| Text.GlueClean | Shokofin/Utils/Text.cs:203-209 | gluing trimmed pieces gives a trimmed text that starts with the first piece and ends with the last |
| Text.JoinText | Shokofin/Utils/Text.cs:191-215 | no text exactly when no entry has text; otherwise the distinct trimmed entries glued in order, itself trimmed, and a single distinct entry is returned as it is |
| Text.GlueAll | Shokofin/Utils/Text.cs:202-209 | the loop glues every piece, each after the separator the previous text's last character calls for |
| Text.SanitizeTextSummary | Shokofin/Utils/Text.cs:169-189 | a whitespace-only summary becomes empty; any other result is empty or trimmed |
| Text.GetDescription | Shokofin/Utils/Text.cs:136-162 | with no source enabled the description is empty; otherwise it is empty exactly when every enabled source offers none, and else it is the text of the first enabled source in the user's order that offers one |
| Text.DescribeEpisodes | Shokofin/Utils/Text.cs:133-134 | an episode list's description is empty exactly when every episode's is blank; otherwise it is the distinct trimmed descriptions glued in order, and it is trimmed |
| Text.GetDefaultTitle | Shokofin/Utils/Text.cs:312-313 | none exactly when no title is the default; otherwise the value of the first default title |
| Text.FirstOfType | Shokofin/Utils/Text.cs:331 | none exactly when no title has the type; otherwise the first title of that type |
| Text.GetMainLanguage | Shokofin/Utils/Text.cs:351-352 | the language of the first main title, else of the first title, else "x-other" |
| Text.GuessOriginLanguage | Shokofin/Utils/Text.cs:359-365 | "x-other" and "x-jat" look in Japanese, "x-zht" in the four Chinese codes, any other code in itself |
| Text.InLanguage | Shokofin/Utils/Text.cs:326 | exactly the titles in the language, none exactly when the language has no title, and the first is the first such title of the list |
| Text.FirstInLanguage | Shokofin/Utils/Text.cs:326 | the position of the first title in the language |
| Text.TitleInLanguage | Shokofin/Utils/Text.cs:330-341 | with types, the first official title wins when it is not empty; when it is missing or empty and any title is allowed, the language's first title; when any title is not allowed, none exactly when the language has no official title; without types, the language's first title |
| Text.GetTitlesForLanguage | Shokofin/Utils/Text.cs:323-344 | with the lookup corrected, a title found is in one of the languages asked for; without types one is found exactly when some title is in one of them, and it is the first title of the first language |
| Text.LanguageTitle | Shokofin/Utils/Text.cs:326-341 | the title one language yields comes from a title in that language |
| Text.TitlesForLanguageNone | Shokofin/Utils/Text.cs:325-343 | the corrected lookup finds nothing exactly when no language asked for yields a title |
| Text.TitlesForLanguageFirstYield | Shokofin/Utils/Text.cs:325-343 | a title the corrected lookup finds is the one the first yielding language gives, every earlier language yielding none |
| Text.GetTitlesForLanguageAsWritten | Shokofin/Utils/Text.cs:323-344 | as written, without types a title is found exactly when some title is in a language asked for, and it is always the first of the whole list, whatever its language |
| Text.TitlesForLanguageTypedAgree | Shokofin/Utils/Text.cs:330-336 | with types the lookup as written and the corrected one agree on every input |
| Text.TitlesFor | Shokofin/Utils/Text.cs:323-344 | the lookup in the chosen reading is the as-written or the corrected one, and any title it finds is one of the titles |
| Text.TitlesForLanguageAsWrittenPicksOtherLanguage | Shokofin/Utils/Text.cs:336-340 | without types, whenever the first title is in another language than the one asked for and a later title is in it, the lookup as written returns the first title and the corrected one that later title |
| Text.OrderedProviders | Shokofin/Utils/Text.cs:244-255 | when overridden, the providers are exactly those both ordered and enabled, in the user's order; otherwise Shoko's default for main titles and the two country-of-origin providers for alternate titles |
| Text.ProviderTitle | Shokofin/Utils/Text.cs:270-280 | Shoko's default gives the default name, the AniDB default the default title, the TMDB providers and none nothing; any other candidate is one of the titles, and with the lookup corrected the library-language one is in the library's language |
| Text.FirstUsable | Shokofin/Utils/Text.cs:281-302 | the first candidate that is present and not empty, and none exactly when no candidate is |
| Text.Candidates | Shokofin/Utils/Text.cs:268-300 | one candidate per provider, the one that provider gives |
| Text.TitleByType | Shokofin/Utils/Text.cs:267-305 | in either reading, no title exactly when no provider gives a usable one; otherwise the trimmed title of the first provider that does |
| Text.SingleProviderTitle | Shokofin/Utils/Text.cs:267-285 | with the library-language provider alone, a clean title its lookup finds is the episode's title |
| Text.EpisodeTitleAsWrittenPicksOtherLanguage | Shokofin/Utils/Text.cs:267-285 | as written, an episode whose first title is in another language than the library's and whose later title is in it gets the first title; the corrected lookup gives the later one |
| Text.MovieTitle | Shokofin/Utils/Text.cs:257-265 | a subtitle that is not empty and not ignored is appended after ": " and survives the trim whole, the whole being "main: sub" for a clean main title and ": sub" without one; otherwise the trimmed main title, when there is one |
| Text.CombinedTitleClean | Shokofin/Utils/Text.cs:263 | "main: sub" of a clean or missing main title and a clean subtitle is left as it is by the trim |
| Text.CombinedTitleEnds | Shokofin/Utils/Text.cs:263 | trimming "main: sub" keeps ": sub" at the end when the subtitle is trimmed |
| VirtualFileSystem.TruncateName | Shokofin/Resolvers/VirtualFileSystemService.cs:704-707 | a name under 64 characters stays; a longer one becomes at most 64 characters ending in the ellipsis: what comes before the last space of its first 64 characters, or the ellipsis alone when those hold no space |
| VirtualFileSystem.BeforeLastSpace | Shokofin/Resolvers/VirtualFileSystemService.cs:705-707 | dropping the last space-separated piece and joining the rest keeps exactly what precedes the last space, and nothing when there is none |
| VirtualFileSystem.CutAtLastSpace | Shokofin/Resolvers/VirtualFileSystemService.cs:705-707 | the split, drop-last and join of the source cut the text right before its last space |
| VirtualFileSystem.ExtrasFolders | Shokofin/Resolvers/VirtualFileSystemService.cs:711-731 | a file that is no extra gets no folders; an extra without a type goes to "extras"; trailers go to "trailers" only when enabled; theme videos go to "backdrops" and "extras" as the two credit settings say; theme songs go to "theme-music"; no folder is listed twice |
| VirtualFileSystem.ExtrasFoldersIgnored | Shokofin/Resolvers/VirtualFileSystemService.cs:711-731 | every extras folder except "theme-music" is one of the folder names whose videos the scan may ignore |
| VirtualFileSystem.PadLeft | Shokofin/Resolvers/VirtualFileSystemService.cs:749 | padding keeps the text at the end and fills the front up to the width with the pad character |
| VirtualFileSystem.SeasonFolder | Shokofin/Resolvers/VirtualFileSystemService.cs:749 | the folder is "Season " and the number, 0 for specials, in at least two digits with a leading zero below 10, and a negative number keeps its sign |
| VirtualFileSystem.SeasonFolderInjective | Shokofin/Resolvers/VirtualFileSystemService.cs:749 | different season numbers get different folders |
| VirtualFileSystem.SignedValue | Shokofin/Resolvers/VirtualFileSystemService.cs:1060-1061 | only an optional leading sign followed by decimal digits spells a number |
| VirtualFileSystem.SignedValuePrinted | Shokofin/Resolvers/VirtualFileSystemService.cs:1060-1061 | the decimal text of any integer spells that integer |
| VirtualFileSystem.ParseSigned | Shokofin/Resolvers/VirtualFileSystemService.cs:1060-1061 | the trimmed text parses exactly when it spells a number that fits 32 bits, and then to that number |
| VirtualFileSystem.TryParseInt32 | Shokofin/Resolvers/VirtualFileSystemService.cs:1060-1061 | a missing or empty id never parses; otherwise the id, without whitespace at either end, parses exactly when it spells a signed number that fits 32 bits, and to that number |
| VirtualFileSystem.ParseRejectsOutOfRange | Shokofin/Resolvers/VirtualFileSystemService.cs:1060-1061 | the well-formed decimal text of an integer outside 32 bits never parses |
| VirtualFileSystem.ParsePrintedInt32 | Shokofin/Resolvers/VirtualFileSystemService.cs:1060-1061 | the decimal text of any 32-bit integer parses back to it |
| VirtualFileSystem.ParseRejectsLetters | Shokofin/Resolvers/VirtualFileSystemService.cs:1060-1061 | an id holding a character other than whitespace, a digit or a sign never parses |
| VirtualFileSystem.TryGetIdsForPath | Shokofin/Resolvers/VirtualFileSystemService.cs:1057-1068 | ids are found exactly when both attributes are present and parse as 32-bit integers; then both are returned, otherwise neither |
| VirtualFileSystem.IdsOfPrintedName | Shokofin/Resolvers/VirtualFileSystemService.cs:1057-1068 | a file name carrying printed ids is recognised and gives those ids back |
| VirtualFileSystem.ShouldIgnoreVideo | Shokofin/Resolvers/VirtualFileSystemService.cs:1050-1055 | a path too short to cut below the root fails; an ignored video has no ids and lies below at least one folder |
| VirtualFileSystem.SplitBuiltPath | Shokofin/Resolvers/VirtualFileSystemService.cs:1053 | splitting a path built from folders and a file name at the separator gives the folders and the file back |
| VirtualFileSystem.IgnoreBuiltPath | Shokofin/Resolvers/VirtualFileSystemService.cs:1050-1055 | a video at root/folders/file is ignored exactly when there are at least two folders, the innermost has an ignore name, and the file name has no ids |
| VirtualFileSystem.ExtraPlacementIgnored | Shokofin/Resolvers/VirtualFileSystemService.cs:1050-1055 | an extra linked into a show's extras folder is ignored by the scan exactly when the folder is not "theme-music" and its file name has no ids |
| CollectionTypes.ConvertToCollectionType | Shokofin/CollectionTypeExtensions.cs:9-21 | each of the seven named library options gives the collection type of the same name, the mixed option gives no type, and an absent option gives the unknown type |
| CollectionTypes.ConvertRoundTrip | Shokofin/CollectionTypeExtensions.cs:9-21 | a named option converts to the type that leads back to it, so no two named options share a type; every other option gives the unknown type or none |
| CollectionTypes.ConvertOnto | Shokofin/CollectionTypeExtensions.cs:9-21 | each of the seven collection types with a same-named option is the conversion of that option |
| CollectionTypes.ConvertImage | Shokofin/CollectionTypeExtensions.cs:9-21 | a collection type is the conversion of some option exactly when it has a same-named option or is the unknown type, so trailers, photos, live TV, playlists and folders never come out |
| Collections.MinCollectionSize | Shokofin/Collections/CollectionManager.cs:46 | the size a group must exceed is one exactly when collections of a single entry are turned off, and zero otherwise |
| Collections.SeasonsToCollect | Shokofin/Collections/CollectionManager.cs:161-166 | a season gets a collection exactly when more movies than the minimum size belong to it, and its collection is made from the first of its movies' seasons |
| Collections.SeasonsCollectedBySize | Shokofin/Collections/CollectionManager.cs:161-166 | with singles allowed every season with a movie is collected; with singles turned off exactly the seasons with at least two movies are |
| Collections.LargeGroups | Shokofin/Collections/CollectionManager.cs:384-390 | a group is kept exactly when it was found and the entries of all groups under its top-level group together exceed the minimum size; groups that were not found are dropped |
| Collections.KeptGroupsMembers | Shokofin/Collections/CollectionManager.cs:386-390 | keeping the entries that pass the size test and then taking their groups gives exactly the groups found in some passing entry, nothing more and nothing less |
| Collections.PlanCollections | Shokofin/Collections/CollectionManager.cs:186-198 | wanted ids with no box set are added; a wanted id with box sets keeps its first one; every other box set, and every box set of an id no longer wanted, is removed |
| Collections.PlanCoversWanted | Shokofin/Collections/CollectionManager.cs:430-443 | each wanted id ends up either added or kept and never both; an existing box set is removed exactly when it is not the one kept |
| Collections.FindIndex | Shokofin/Collections/CollectionManager.cs:472-474 | the position of the first id passing the test, and -1 exactly when none passes |
| Collections.NextIndex | Shokofin/Collections/CollectionManager.cs:471-476 | a top-level id is picked while one remains; otherwise the first id whose parent already has a collection; -1 exactly when no remaining id is either |
| Collections.CreationOrder | Shokofin/Collections/CollectionManager.cs:469-488 | on success every missing group is created exactly once, each after its parent's collection exists and every top-level one before any other; on failure the ids left are a non-empty part of the missing ones, none top-level and none under a group that already had a collection |
| Collections.StuckNeedsUnready | Shokofin/Collections/CollectionManager.cs:474-476 | the loop can only throw when some missing group is neither top-level nor the child of a group that already had a collection |
| Collections.PickKeepsOrder | Shokofin/Collections/CollectionManager.cs:471-487 | creating the picked group keeps every group after its parent and the top-level groups first |

## Left out

- The HTTP and API clients, the SignalR connection, the Jellyfin providers, the library scanner and the scheduled tasks: all network or host I/O. The values they deliver are inputs here.
- The build script's file reads and writes, its environment reads and its packaging-tool subprocess calls, the `repo add` that puts a version into the manifest among them: all foreign tools or I/O. Their results are inputs.
- The dispatcher's timers, locks and `Task.Run` calls, and the scans and refreshes it starts for extracted events: concurrency and host calls. Only the queue, the submitter count and the media-folder reference count are modelled.
- Symlink creation, file deletion and directory walks in the virtual file system service: file-system side effects. Only its naming and parsing rules are modelled.
- `MediaFolderConfigurationService.OnLibraryManagerItemRemoved` (Shokofin/Configuration/MediaFolderConfigurationService.cs:104-125): it reacts to a Jellyfin library event by editing and saving the plugin configuration, which is host I/O.
- The regular-expression summary clean-up in `Text.SanitizeTextSummary` is a parameter, because it rests on .NET regex semantics.
- Floating-point rating conversion, JSON parsing and DOM manipulation on the settings pages are not modelled.
- Lower-casing and case-insensitive comparison cover the ASCII letters only. There is no culture-aware case mapping.
- The media folder's prefix test (Shokofin/Configuration/MediaFolderConfiguration.cs:49) calls `string.StartsWith(string)`, which compares with the current culture. The model's `MediaFolder.IsEnabledForPath` tests an ordinal prefix, so culture-equal but code-point-different paths, such as differently composed accented names, are treated differently.
- Shows.NumberShape: the source keys its base-number dictionary by the season object (Shokofin/API/Info/ShowInfo.cs:137-140), and `SeasonInfo` does not override equality. The model identifies a season by its id, so it fails on two different season objects sharing an id, which the source numbers separately. It agrees whenever each id names one season object.
- Shows.NewShow: the series ordering (Shokofin/API/Info/ShowInfo.cs:102-113) is not modelled. By release date, the source sorts by AniDB air date and puts a missing date last as `DateTime.MaxValue`. Chronologically, it uses `List.Sort` with the relation comparer, which is not stable. The model takes the list after filtering and ordering as an input, so the properties of `NewShow` hold for whatever order the source produces.
- Seasons.NewSeason: the source keys its special-anchor dictionary by the `EpisodeInfo` object (Shokofin/API/Info/SeasonInfo.cs:95 and 122), and `EpisodeInfo` does not override equality. The model's `specialsAnchors` map is keyed by episode value. Two different episode objects that are equal as values, such as the same special listed twice, get one anchor in the model and two in the source. The two agree whenever no two episodes of a season are equal as values.
- Sync.SyncConverges: the source reads the clock again at every comparison (Shokofin/Sync/SyncExtensions.cs:15). Convergence after sending is promised at a later reading only for local data with a last-played date. Sent stats of local data without one drift out of sync on the next comparison, as Sync.SentStatsDrift shows.
- LINQ `OrderBy` on strings (Shokofin/Utils/TagFilter.cs:427,495) compares with the current culture. The model compares by code point, so it can order differently, for example on mixed case or non-ASCII names. Culture-aware collation is not modelled.
- `TextInfo.ToTitleCase` is not modelled. The source title-cases the display name of every tag and genre the filter returns (Shokofin/Utils/TagFilter.cs:552-553); the model takes that title-cased label as a field of the tag, as given.
- The checkbox lists' `sort()` (Shokofin/Pages/Scripts/Common.js:1025-1030, 1162-1173) compares UTF-16 code units. The model sorts by code point, which orders differently only between characters above U+FFFF and characters from U+E000 to U+FFFF.
- JavaScript numbers are unbounded integers here. `parseInt` precision loss above 2^53 and lone surrogates in page strings are not modelled.
- VirtualFileSystem.TruncateName: counts Unicode scalar values where C# counts UTF-16 code units (Shokofin/Resolvers/VirtualFileSystemService.cs:704-707), so a name of characters outside the Basic Multilingual Plane is cut later than the source cuts it. Forty U+1F600 characters are 80 code units, which the source cuts and the model keeps whole. A cut that splits a surrogate pair cannot be represented in a string of scalar values.
- VirtualFileSystem.TryParseInt32: models the whitespace, sign, digits and Int32 range of `int.TryParse`, but not its acceptance of trailing NUL characters.
- .NET integer overflow in counters, play counts and season numbers is not modelled, because every value the code adds up stays far from 2^31.
- The clock and the plugin configuration are parameters. Guids are integers or strings.
- `ResolvedTag`, `TryGetAttributeValue` and `Path.GetFileNameWithoutExtension` are not part of this model. The resolved tag tree, attribute values and file names are inputs.
- The `UserStats.IsEmpty` definition is not part of this model. It is taken as no watch count, no last-watched time and no resume position.
- The production-location provider selection and the movie, season and show production locations in Shokofin/Utils/TagFilter.cs:321-369: they only choose between configuration lists, and only the AniDB branch returns data.
- The `Join` overloads of Shokofin/StringExtensions.cs:43-53 are not modelled, because they forward to `string.Join` unchanged.
- LinkGenerationModels.Add: the source adds `b`'s paths into `a`'s bag in place and shares that bag with the result, so `a` is changed as well. The model returns a new bag and leaves its arguments alone.
- LinkGeneration.Add: the same in-place sharing of `a`'s bag (Shokofin/Resolvers/LinkGenerationResult.cs:105-110) is not modelled either.
- Collections.LargeGroups: the parent walk that then fetches missing ancestors from the API (Shokofin/Collections/CollectionManager.cs:393-410) is left out. The group map it builds is an input of `Collections.CreationOrder`.
- The group's `TopLevelId` is read at Shokofin/Collections/CollectionManager.cs:387 but is absent from the shipped `CollectionInfo` class, so `Collections.CollectionInfo` carries it as a field. A non-top-level group's `ParentId` is taken to be present.
- Collections.PlanCollections: requires every existing id to list at least one box set, as grouping the existing box sets guarantees. A `ToDictionary` throwing on a duplicate key is not modelled.
- The `Tabs` and `State` constants of the shared page script are parameters of `CommonPage.UpdateTabs`, because the page fills them in at run time.

## Findings

| source | as written | input that shows it | evidently intended | confidence | as-written member | corrected member |
|---|---|---|---|---|---|---|
| Shokofin/Utils/ContentRating.cs:311-337 | at lines 311, 326 and 337 the C# ranges `[0..1]` and `[0..2]` exclude their end, so they take one and two characters, and the comparisons with "tv", the two-letter codes and "xxx" can never hold; the indicator letters are parsed after lower-casing, which matches no indicator name; the single 'y' is tested before "y7", and `Enum.TryParse` accepts the digit "7" as an indicator value, so even with the slices corrected "y7" would read as TV-Y with indicator 7 | "TV-PG", the formatter's own text for TV-PG, does not parse, nor does "Y-D"; "Y7" parses as TV-Y with indicator 7 instead of TV-Y7; so a show whose one season is rated "TV-PG" gets no rating, and a custom audience tag "TV-MA" is passed over for the target-audience rating | every text the formatter produces parses back to its rating and indicators | medium, not executed | ContentRating.TryConvertRatingFromTextAsWritten, ContentRating.AsWrittenMissesTwoLetterCodes, ContentRating.AsWrittenRejectsIndicatorLetters, ContentRating.AsWrittenReadsY7AsY, ContentRating.AsWrittenReadsY7Text, ContentRating.ShowAsWrittenDropsTvPg, ContentRating.CustomAsWrittenFallsThrough | ContentRating.TryConvertRatingFromText, ContentRating.FormatParseRoundTrip, ContentRating.TagBasedReadsBack |
| Shokofin/StringExtensions.cs:57 | the escape `\u1F7AF` takes four hex digits, so `*` becomes U+1F7A followed by the letter F | "*" | `*` becomes the single look-alike character U+1F7AF | high, not executed | StringExtensions.ReplaceInvalidPathCharactersAsWritten, StringExtensions.StarReplacementAsWritten | StringExtensions.ReplaceInvalidPathCharacters, StringExtensions.StarReplacementIntended |
| Shokofin/Utils/Text.cs:337-340 | without title types, the first of all titles is returned instead of the first title in the wanted language | an English title listed before a Japanese one, asked for Japanese, gives the English one; an episode's library-language title is then English in a Japanese library | the first title of the language-filtered list | medium, not executed | Text.GetTitlesForLanguageAsWritten, Text.TitlesForLanguageAsWrittenPicksOtherLanguage, Text.EpisodeTitleAsWrittenPicksOtherLanguage | Text.GetTitlesForLanguage, Text.TitlesForLanguageFirstYield |
| Shokofin/Sync/SyncExtensions.cs:47-51 | `!userData.IsFavorite != other.IsFavorite` holds when the two flags are equal, so an equal flag reports a change and a differing one is never copied | two records that differ only in the favourite flag | copy the flag and report a change exactly when the flags differ | high, not executed | Sync.CopyFromAsWritten, Sync.CopyFromAsWrittenFavouriteInverted | Sync.CopyFrom, Sync.CopyFromIdempotent |
| Shokofin/Events/EventDispatchService.cs:192-196 | here and again at lines 522-523 the timestamp of an existing entry is set on a copy of the value tuple, so a new event does not delay the key | a second event 4999 ms after the first is handed on 1 ms later | each new event restarts the five-second wait for its key | medium, not executed | EventDispatch.AddEventAsWritten, EventDispatch.AsWrittenHandsOnFreshEvent | EventDispatch.AddEvent, EventDispatch.AddEventDebounces |
