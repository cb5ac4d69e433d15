# Digital signage core, modelled in Dafny

This project models the decision logic of a digital-signage player. The player:

- mirrors a folder of videos and images from a WebDAV share;
- shows those files one after another in an OBS-style compositor, one scene per file;
- switches between content folders by a weekly schedule.

Four parts of the system are modelled, one Dafny module each, plus supporting modules:

| module | file | models |
|---|---|---|
| `Scheduling` | `scheduler.dfy` | schedules with an optional weekday and a half-open daily window (possibly crossing midnight), first-match resolution with a default fallback, `HH:MM` parsing, and the "has the schedule changed" state machine |
| `Content` | `content_manager.dfy` | the catalog of media files and the class `ContentManager`: scene and input naming, the order-insensitive change key, display lengths, rebuilding the catalog, the rotation tick, clean-up, and the deletion handler |
| `Sync` | `webdav_client.dfy` | the class `SyncClient`: flattening the remote tree into a map from relative path to size, the download rule, the temp-file commit, removing files the share no longer has (the catalog is told first, and a locked file is renamed to a `.delete` marker), and clearing markers |
| `Settings` | `settings.dfy` | the format tables, the choice of `.env` file, and loading a `.env` file into the environment |
| `Compositing` | `compositor.dfy` | the compositor as abstract state: a set of scene names, a set of input names, and a ghost trace of every request, in order |
| `Text`, `Sorting`, `Wrappers` | `text.dfy`, `sorting.dfy`, `wrappers.dfy` | the Python string operations the code relies on (`strip`, `lower`, `split`, `int()`, `PurePath.suffix`, `replace`, string order), a stable sort by string key, and `Option` |

How the model represents the outside world:

- **Clock.** It is a parameter: `now` in seconds, or an `Instant` made of a weekday and a minute of the day.
- **Local folders.** They are maps from relative path to size.
- **Remote share.** It is a tree of listings, and any listing may fail.
- **Locked files.** The set of files another process holds open is a parameter.
- **Transfers and probes.** A download's outcome and the video-length probe are functions given as parameters.

On a first run whose scan finds nothing playable, the clean-up removes every scene whose name ends in `_scene`. That includes the waiting scene, and the code then switches to it without creating it again (`src/core/content_manager.py:110-122`). `Content.ContentManager.Rebuild` states this outcome: the waiting scene is then absent from the compositor.

## Model

| member | source | states |
|---|---|---|
| Text.LStrip | src/config/settings.py:48 | the result is a suffix of the input with no leading whitespace, and everything dropped is whitespace |
| Text.RStrip | src/config/settings.py:48 | the result is a prefix of the input with no trailing whitespace, and everything dropped is whitespace |
| Text.Strip | src/config/settings.py:48 | the result has no whitespace at either end and is the slice of the input left once a run of whitespace is cut from each end |
| Text.StripUnchanged | src/config/settings.py:54 | a string with no whitespace at either end is its own `strip()` |
| Text.Lower | src/core/content_manager.py:126 | same length; each ASCII capital becomes its lower-case letter and every other character is kept |
| Text.Count | src/core/scheduler.py:206-207 | the number of occurrences is at most the length, and is zero exactly when the character is absent |
| Text.FirstIndex | src/config/settings.py:50 | the index of the first occurrence of the character, or the length when there is none; no earlier position holds it |
| Text.LastIndex | src/core/webdav_client.py:172 | the index of the last occurrence, or -1; no later position holds it |
| Text.CountOne | src/core/scheduler.py:206-207 | text with exactly one separator splits into a part before it and a part after it, neither containing it |
| Text.Suffix | src/core/content_manager.py:22 | the suffix is empty, or it starts with `.`, ends the name, is shorter than the name and has no other dot; a name without a dot has no suffix |
| Text.SuffixOfTagged | src/core/webdav_client.py:259 | a name ending in a dotted tag with no other dot has that tag as its suffix, unless the tag is the whole name |
| Text.RStripSlash | src/core/webdav_client.py:172 | `rstrip('/')` gives a prefix of the input that does not end in `/` |
| Text.LastComponent | src/core/webdav_client.py:172 | `split('/')[-1]` contains no `/` and ends the input; a string without `/` is its own last component |
| Text.LastComponentAfterSlash | src/core/webdav_client.py:176 | the last component of `parent/name` is `name` |
| Text.LastComponentOfTagged | src/core/webdav_client.py:114 | appending a tag without `/` to a path appends it to the path's last component |
| Text.CollapseDoubleSlash | src/core/webdav_client.py:252 | `replace('//', '/')` never lengthens the text and keeps its first character |
| Text.CollapseUnchanged | src/core/webdav_client.py:252 | text without a doubled slash is unchanged by `replace('//', '/')` |
| Text.NatToString | src/core/content_manager.py:195 | the decimal text of a size is non-empty, all digits, and its digits read back to the size |
| Text.NatToStringRoundTrip | src/core/content_manager.py:195 | `int()` reads the decimal text of a size back to that size |
| Text.ParseInt | src/core/scheduler.py:210-211 | `int()` succeeds only on text that is not blank once stripped |
| Text.ParseTwoDigits | src/core/scheduler.py:210-211 | `int()` reads zero-padded two-digit text back to its number |
| Text.LexLeReflexive | src/core/content_manager.py:197 | the string order used by `sorted` is reflexive |
| Text.LexLeTotal | src/core/content_manager.py:197 | any two strings are ordered one way or the other |
| Text.LexLeAntisymmetric | src/core/content_manager.py:197 | strings ordered both ways are equal |
| Text.LexLeTransitive | src/core/content_manager.py:197 | the string order is transitive |
| Sorting.MapSeq | src/core/content_manager.py:193-195 | one image per element, position by position |
| Sorting.MapSeqPermutation | src/core/content_manager.py:192-197 | mapping two orderings of the same elements gives two orderings of the same images |
| Sorting.InsertBy | src/core/content_manager.py:126 | inserting into a sorted list keeps it sorted and adds exactly that element |
| Sorting.SortBy | src/core/content_manager.py:126 | `list.sort(key=...)` gives a list sorted by the key that is a permutation of the input |
| Sorting.InsertByWithKey | src/core/content_manager.py:126 | an inserted element goes ahead of every element with the same key, and those keep their order |
| Sorting.SortByStable | src/core/content_manager.py:126 | the sort is stable: the elements sharing a key come out in their input order |
| Sorting.SortStrings | src/core/content_manager.py:197 | `sorted(...)` on strings gives a sorted permutation |
| Sorting.SortedUnique | src/core/content_manager.py:197 | two sorted orderings of the same strings are the same list |
| Sorting.ListOf | src/core/webdav_client.py:93 | iterating over a set visits each element exactly once |
| Settings.FormatTablesDisjoint | src/config/settings.py:120-122 | the video, image and audio tables share no extension |
| Settings.AtMostOneKind | src/config/settings.py:120-122 | a file name is of at most one kind |
| Settings.EnvironmentName | src/config/settings.py:27 | ENVIRONMENT from the environment, `development` when unset |
| Settings.EnvFileName | src/config/settings.py:38-41 | `ubuntu_prod.env` exactly for `production`, `windows_test.env` for every other name |
| Settings.UnsetEnvironmentReadsTestFile | src/config/settings.py:27-41 | with ENVIRONMENT unset the test file is read |
| Settings.ParseEnvLine | src/config/settings.py:48-49 | blank and `#` lines assign nothing; an assignment's key has no `=`, its value no `#`, and both are stripped |
| Settings.ParseAssignment | src/config/settings.py:49-54 | a line assigns something exactly when it contains `=`; the key has no `=`, the value no `#`, and both are stripped |
| Settings.ParsedLines | src/config/settings.py:47 | one parsed entry per line, in file order |
| Settings.LoadEnvFile | src/config/settings.py:43-56 | the loop's result is the specified load; no variable disappears, and every added or changed variable holds a value the file assigns to it |
| Settings.LoadedProvenance | src/config/settings.py:54 | a load keeps every existing variable, and each new or changed value comes from a line of the file |
| Settings.LoadedStep | src/config/settings.py:47-56 | a skipped line changes nothing, an accepted one assigns its pair, and a refused one ends the load |
| Settings.LoadAppend | src/config/settings.py:47-54 | after lines with no error, one more line applies its assignment on top |
| Settings.LaterLineWins | src/config/settings.py:54 | when a later line assigns a key again, the later value is the one kept |
| Settings.ErrorKeepsEarlierAssignments | src/config/settings.py:55-56 | an assignment that raises ends the load; everything before it stays and nothing after it is applied |
| Settings.EnvLineRoundTrip | src/config/settings.py:48-54 | `KEY=VALUE` without padding reads back as exactly that pair, with `=` allowed in the value |
| Settings.PlainSplit | src/config/settings.py:50 | the split is at the first `=`, so the value keeps any later `=` |
| Settings.SplitAtFirst | src/config/settings.py:50 | the first separator of `head + sep + tail` is the one after `head` when `head` has none |
| Settings.InlineCommentDropped | src/config/settings.py:51-53 | everything from the first `#` of the value on is dropped and the rest stripped |
| Settings.CommentSplit | src/config/settings.py:50-54 | the key ends at the first `=`, and the value ends at its first `#` |
| Scheduling.At | src/core/scheduler.py:214 | the minute of the day of `HH:MM` gives back the hour and the minute |
| Scheduling.OtherWeekdayInactive | src/core/scheduler.py:58-61 | a schedule tied to a weekday is inactive on every other weekday |
| Scheduling.NoWindowAlwaysOnItsDays | src/core/scheduler.py:63-65 | with neither start nor end, the schedule is active at every time of its allowed days |
| Scheduling.SameDayWindow | src/core/scheduler.py:72-73 | when start is at most end, the schedule is active exactly when start is at most the time and the time is before end; never when start equals end |
| Scheduling.OvernightWindow | src/core/scheduler.py:75-77 | when start is after end, the schedule is active exactly at or after start or before end |
| Scheduling.HalfWindowIgnored | src/core/scheduler.py:79 | with only one end of the window set, the time is not checked |
| Scheduling.SundayServiceCases | test_scheduler.py:71-78 | Sunday 07:59 inactive, 08:00, 10:30 and 13:29 active, 13:30 inactive, and Monday 10:00 inactive |
| Scheduling.DefaultSchedule | src/core/scheduler.py:176-193 | the default schedule carries the configured folder and transition and is active at every instant |
| Scheduling.ParseTime | src/core/scheduler.py:195-220 | text without exactly one `:` is refused; an accepted time is the two parts read by `int()` |
| Scheduling.ParseTimeAccepts | src/core/scheduler.py:205-214 | two parts whose integers are an hour in 0..23 and a minute in 0..59 are accepted as that time |
| Scheduling.ParseTimeRejectsRange | src/core/scheduler.py:213-216 | an hour or minute out of range gives no time |
| Scheduling.ParseTimeRoundTrip | src/core/scheduler.py:195-220 | zero-padded `HH:MM` text parses back to that time |
| Scheduling.ServiceSchedule | src/core/scheduler.py:145-174 | the service schedule exists exactly when both times parse, and then carries its weekday and the parsed window |
| Scheduling.FirstActive | src/core/scheduler.py:243-246 | the index found is active, and no earlier schedule is active |
| Scheduling.ActiveSchedule | src/core/scheduler.py:234-249 | the result is the default when nothing is active; otherwise it is an active schedule at or before every active one |
| Scheduling.ActiveBeatsDefault | src/core/scheduler.py:243-249 | the first active schedule in list order is the one chosen |
| Scheduling.Scheduler.constructor | src/core/scheduler.py:117-143 | the service schedule is loaded when configured with valid times, then the default, and the initial schedule is resolved |
| Scheduling.Scheduler.CheckScheduleChange | src/core/scheduler.py:251-266 | reports a change exactly when the resolved schedule differs from the stored one, and stores it |
| Scheduling.Scheduler.CheckTwice | src/core/scheduler.py:251-266 | a second check at the same instant reports no change |
| Compositing.SceneRemovals | src/core/content_manager.py:203-205 | one scene-removal request per name, in order |
| Compositing.InputRemovals | src/core/content_manager.py:208-210 | one input-removal request per name, in order |
| Compositing.Compositor.CreateScene | src/core/obs_manager.py:379-387 | the scene exists afterwards, the inputs are unchanged, and the request is recorded |
| Compositing.Compositor.RemoveScene | src/core/obs_manager.py:389-397 | the scene is gone afterwards, the inputs are unchanged, and the request is recorded |
| Compositing.Compositor.CreateInput | src/core/obs_manager.py:429-445 | the input exists afterwards when its scene does, and the request is recorded |
| Compositing.Compositor.RemoveInput | src/core/obs_manager.py:447-456 | the input is gone afterwards, the scenes are unchanged, and the request is recorded |
| Compositing.Compositor.SetInputMute | src/core/obs_manager.py:458-469 | scenes and inputs are unchanged, and the request is recorded |
| Compositing.Compositor.SetProgramScene | src/core/obs_manager.py:399-407 | scenes and inputs are unchanged, and the request is recorded |
| Compositing.Compositor.GetSceneList | src/core/obs_manager.py:409-416 | lists every scene exactly once |
| Compositing.Compositor.GetInputList | src/core/obs_manager.py:418-425 | lists every input exactly once |
| Content.SceneNameInjective | src/core/content_manager.py:42-44 | two files get the same scene name exactly when they have the same name |
| Content.SourceNameInjective | src/core/content_manager.py:46-48 | two files get the same input name exactly when they have the same name |
| Content.SceneIsNeverSource | src/core/content_manager.py:42-48 | no scene name is also an input name |
| Content.NoSuffixIsNoMedia | src/core/content_manager.py:22-40 | a name without a dot is neither a video nor an image |
| Content.WaitingSceneIsNoMediaScene | src/core/content_manager.py:518 | the waiting scene is never the scene of a media file |
| Content.Scanned | src/core/content_manager.py:154-188 | the scan keeps at most one item per entry, and each item kept is a video or an image, non-empty, with no length yet |
| Content.ScannedAdmitsExactly | src/core/content_manager.py:159-167 | every regular, non-empty video or image file is kept, and everything kept comes from such a file |
| Content.ScanContentDirectory | src/core/content_manager.py:154-174 | the directory walk yields exactly the specified scan |
| Content.ContentKeyIgnoresOrder | src/core/content_manager.py:190-197 | the change key depends only on which items there are, not on their order |
| Content.DurationFor | src/core/content_manager.py:394-429 | images get the slide time; videos get the probed length capped at the maximum, or 10 s without one; after an exception, 8 s for an image and 10 s for a video |
| Content.WithDurations | src/core/content_manager.py:394-429 | every item gets its length; none is dropped or moved |
| Content.WithDurationsKeepsOrder | src/core/content_manager.py:126-131 | working out lengths keeps the order by lower-cased name |
| Content.CatalogIsSortedScan | src/core/content_manager.py:117-131 | the catalog is sorted by lower-cased name, has one item per scanned file, and holds each of them with its length |
| Content.CatalogIsPlayable | src/core/content_manager.py:160-167 | every catalog item is a video or an image |
| Content.EmptyCatalog | src/core/content_manager.py:117-124 | a listing with no playable file gives an empty catalog |
| Content.SwitchTime | src/core/content_manager.py:561-576 | a video is cut `offset` seconds before its end, never below zero; an image stays for its full length |
| Content.ImagesIgnoreOffset | src/core/content_manager.py:572-576 | an image's switch time does not depend on the offset |
| Content.VideoCutNoLater | src/core/content_manager.py:563-571 | with a non-negative offset, a video is cut no later than its end |
| Content.NextIndex | src/core/content_manager.py:588 | the next index is in range: the following item, or the first after the last |
| Content.Advance | src/core/content_manager.py:586-592 | any number of switches stays in range |
| Content.RotationVisitsEveryItem | src/core/content_manager.py:586-592 | starting from the first item, `j` switches show item `j`, and `n` switches come back to the first |
| Content.Without | src/core/content_manager.py:649 | exactly the items with another file name remain |
| Content.WithoutAppend | src/core/content_manager.py:649 | the filter works on each part of a catalog separately, so the remaining items keep their order |
| Content.WithoutAll | src/core/content_manager.py:649 | exactly the items whose file name is not among the given names remain |
| Content.WithoutStep | src/core/content_manager.py:649 | dropping the files one at a time, in any order, gives the catalog without all of them |
| Content.NestedPathsMatchNothing | src/core/content_manager.py:649 | names containing `/` (relative paths from the sync) drop no item |
| Content.SceneNamesWithout | src/core/content_manager.py:636-649 | dropping a file's items removes exactly its scene from the catalog's scenes |
| Content.InputNamesWithout | src/core/content_manager.py:642-649 | dropping a file's items removes exactly its input from the catalog's inputs |
| Content.NestedPathMatchesNothing | src/core/content_manager.py:632-649 | a name containing `/` (a relative path from the sync) matches no item, scene or input |
| Content.CreationRequests | src/core/content_manager.py:299-339 | the scene first; then, for an image or video, its input in that scene; muting comes last, exactly for a video |
| Content.AllCreationRequestsAppend | src/core/content_manager.py:293-295 | one more item adds its creation requests at the end |
| Content.NamesAppend | src/core/content_manager.py:302-335 | one more item adds its scene, and adds its input when it is playable |
| Content.FreshCleanupDropsWaitingScene | src/core/content_manager.py:236-252 | the first-run clean-up removes the waiting scene, whose name ends in `_scene` |
| Content.ForgetNothing | src/core/webdav_client.py:93-105 | telling the catalog of no deleted file changes nothing |
| Content.ForgetStep | src/core/webdav_client.py:93-105 | telling the catalog of deleted files one at a time comes to dropping all their items, managed names, scenes and inputs at once |
| Content.ContentManager.constructor | src/core/content_manager.py:57-74 | an empty catalog at index 0, not rotating, with nothing managed and an empty key |
| Content.ContentManager.CreateWaitingScene | src/core/content_manager.py:515-531 | the waiting scene exists afterwards; it is created only when missing |
| Content.ContentManager.ActivateWaitingScene | src/core/content_manager.py:533-541 | the waiting scene is shown and the rotation stops |
| Content.ContentManager.SwitchToMedia | src/core/content_manager.py:597-613 | an index in range shows that item's scene; one past the end does nothing |
| Content.ContentManager.ProcessContentRotation | src/core/content_manager.py:543-595 | inactive or empty: nothing happens. Otherwise an index past the end restarts at 0; once the item's switch time has passed, the next item is shown and the clock restarts, else nothing changes. The index ends in range |
| Content.ContentManager.OnFileDeleted | src/core/content_manager.py:627-658 | the scene goes before the input, each only when managed; the file's items leave the catalog; the new catalog, managed sets, scenes and inputs are those of `Content.Forget`; if its scene was on screen, the show restarts at the first item |
| Content.ContentManager.ForgetFile | src/core/content_manager.py:632-649 | the managed sets and the compositor lose exactly the file's scene and input, in that order, and the catalog stays consistent |
| Content.ContentManager.CleanupOldContent | src/core/content_manager.py:199-213 | every managed scene is removed, then every managed input; both sets end empty |
| Content.ContentManager.RemoveManagedScenes | src/core/content_manager.py:202-205 | exactly the managed scenes are removed, one request each |
| Content.ContentManager.RemoveManagedInputs | src/core/content_manager.py:207-210 | exactly the managed inputs are removed, one request each |
| Content.ContentManager.CleanupAllDigitalSignageContent | src/core/content_manager.py:215-257 | every input ending in `_source` is removed, then every scene that looks like signage; nothing else changes |
| Content.ContentManager.RemoveSourceInputs | src/core/content_manager.py:220-231 | exactly the inputs ending in `_source` are removed |
| Content.ContentManager.RemoveSignageScenes | src/core/content_manager.py:236-252 | exactly the scenes ending in `_scene`, the waiting scene, and scenes whose lower-cased name mentions `slideshow` or `digital_signage` are removed |
| Content.ContentManager.CleanupOrphanedScenes | src/core/content_manager.py:259-289 | exactly the scenes neither managed nor the waiting scene are removed, so the waiting scene always survives |
| Content.ContentManager.CreateSceneForMedia | src/core/content_manager.py:299-347 | the item's scene is created and managed; its input too when it is playable; requests in the specified order |
| Content.ContentManager.CreateScenesForMedia | src/core/content_manager.py:291-297 | every item's scene and input are created and managed, item by item in catalog order |
| Content.ContentManager.CalculateMediaDurations | src/core/content_manager.py:382-433 | the loop gives every item its display length |
| Content.ContentManager.ScanAndUpdateContent | src/core/content_manager.py:93-152 | with an unchanged key and a non-empty catalog nothing changes; otherwise exactly what `Content.ContentManager.Rebuild` states: the cleaned-up scenes and inputs, the new catalog's scenes and inputs, the requests in order, and the rotation state |
| Content.ContentManager.Rebuild | src/core/content_manager.py:107-149 | the key is stored and the catalog is the sorted, timed scan. The clean-up removes all signage content on a first run and exactly the managed scenes and inputs otherwise. An empty catalog then leaves exactly the cleaned scenes and inputs and shows the waiting scene, which on a first run is no longer in the compositor. A non-empty one leaves its own scenes plus the waiting scene if it survived, the cleaned inputs plus its own, and starts at item 0 with the clock at `now`. The trace is clean-up, creation, orphan removal, then showing the item |
| Content.ContentManager.Install | src/core/content_manager.py:117-149 | after the clean-up: an empty catalog shows the waiting scene and changes no scene or input; otherwise the catalog's scenes and inputs are created, every other scene but the waiting one removed, and the first item shown |
| Content.ContentManager.ClearManaged | src/core/content_manager.py:110-115 | with nothing managed, exactly the signage inputs and then the signage scenes go; otherwise exactly the managed scenes and then the managed inputs; the requests are recorded in that order and both managed sets end empty |
| Content.ContentManager.StartCatalog | src/core/content_manager.py:125-147 | the catalog is the sorted, timed scan. The compositor keeps the catalog's scenes, and the waiting scene if it was there, and gains the catalog's inputs. The orphans removed are exactly the other scenes. The trace is the creation requests, the orphan removals, then showing the first item. The rotation starts at item 0 with the clock at `now` |
| Content.ContentManager.Launch | src/core/content_manager.py:133-147 | the compositor ends with exactly the catalog's scenes plus the waiting scene if it was there, and gains the catalog's inputs; the trace is creation, removal of exactly the other scenes, then showing the first item with the clock started |
| Content.ContentManager.CreateCatalogScenes | src/core/content_manager.py:133-138 | the managed sets match the catalog; the scenes are exactly the catalog's plus the waiting scene if it was there; the inputs gain the catalog's; the trace is creation then removal of exactly the other scenes |
| Content.ContentManager.PrepareCatalog | src/core/content_manager.py:125-131 | the scan is sorted by lower-cased name and timed, giving the specified catalog |
| Sync.NoFormatIsUnsupported | src/core/webdav_client.py:215-225 | a name without an extension, or with a tag that names no format, is not supported |
| Sync.TagExtension | src/core/webdav_client.py:217 | the extension of a name ending in such a tag is that tag, or empty |
| Sync.TaggedIsUnsupported | src/core/webdav_client.py:215-225 | a path ending in such a tag is never a supported media file |
| Sync.OwnFilesAreUnsupported | src/core/webdav_client.py:114 | `.tmp` files and `.delete` markers are never supported media files |
| Sync.SupportedIsNotOwnFile | src/core/webdav_client.py:204 | a supported path is no other path's temporary file or marker |
| Sync.RelativePath | src/core/webdav_client.py:174-178 | the path ends in the item's name; at the root it is just the name, below it starts with `parent/` |
| Sync.BaseName | src/core/webdav_client.py:172 | the base name contains no `/` |
| Sync.RemotePath | src/core/webdav_client.py:252-254 | the download address always starts with `/` |
| Sync.RemotePathOfPlainNames | src/core/webdav_client.py:252-254 | for a root starting with `/` and a relative name, with no doubled slashes, the address is `root/name` |
| Sync.ScanListing | src/core/webdav_client.py:151-195 | scanning keeps every key already found; every key it adds is a supported file under the directory being scanned |
| Sync.ScanItems | src/core/webdav_client.py:166-192 | the same for a list of items, scanned in order |
| Sync.ScanItem | src/core/webdav_client.py:166-192 | the same for one item: a directory is scanned in turn, and a nameless item is skipped |
| Sync.ScanListingKeys | src/core/webdav_client.py:151-195 | the scan records exactly the listed paths on top of what was there: each supported file under its relative path, and everything its subdirectories record |
| Sync.ScanItemsKeys | src/core/webdav_client.py:166-192 | the same for a list of items |
| Sync.ScanItemKeys | src/core/webdav_client.py:166-192 | the same for one item |
| Sync.ScanListingKeeps | src/core/webdav_client.py:151-195 | a path the listing does not record keeps the value it had |
| Sync.ScanItemsKeeps | src/core/webdav_client.py:166-192 | the same for a list of items |
| Sync.ScanItemKeeps | src/core/webdav_client.py:166-192 | the same for one item |
| Sync.ScannedFileLands | src/core/webdav_client.py:184-192 | a supported file is recorded under its relative path with its size, unless a later item records the same path |
| Sync.ScannedDirectoryLands | src/core/webdav_client.py:180-183 | every path a subdirectory records is recorded by the listing that contains it |
| Sync.RootFilesUnderOwnName | src/core/webdav_client.py:175-192 | a supported file at the root of the share is recorded under its own name with its size |
| Sync.ScanRemoteDirectory | src/core/webdav_client.py:151-195 | the recursive walk fills the map exactly as the specified scan |
| Sync.OwnFilesNotListed | src/core/webdav_client.py:197-213 | temporary files and markers never appear in the local file list |
| Sync.ShouldDownload | src/core/webdav_client.py:227-246 | a file is fetched exactly when there is no local copy of the same size; an error counts as "fetch" |
| Sync.Commit | src/core/webdav_client.py:248-283 | success exactly when the transfer wrote bytes and the old copy is not locked; on success the file has the new size and no temp file is left; on failure the file is untouched; a failed transfer changes nothing, an empty temp file is removed, and when the old copy is locked the temp file stays in the folder holding the new bytes (the marker clean-up never removes it); no file other than the target and its temp file changes |
| Sync.Removal | src/core/webdav_client.py:108-118 | an unlink is always attempted first. A missing file changes nothing and the unlink fails. A file nobody holds open is removed. A held file with no marker yet is renamed: it is gone and the marker holds its size, with events "refused" then "renamed". A held file whose marker exists stays as it was, with the single event "refused". A change is reported exactly when the file was there |
| Sync.DeletionStep | src/core/webdav_client.py:93-121 | a file the share still has is left alone; otherwise the catalog is told first, when there is one, and then the file is removed |
| Sync.NestedMarkersStay | src/core/webdav_client.py:289 | a marker inside a subfolder is never removed by the marker clean-up |
| Sync.InSyncFetchesNothing | src/core/webdav_client.py:79-89 | when every remote file is present locally with the same size, nothing is fetched and nothing changes |
| Sync.DownloadsKeepOthers | src/core/webdav_client.py:79-89 | fetching never touches a supported file the share does not name |
| Sync.FetchedFileLands | src/core/webdav_client.py:79-89 | a file that is missing or different, whose transfer wrote bytes and whose old copy is not locked, ends up with the fetched size, and a change is reported |
| Sync.DeletedFileIsGone | src/core/webdav_client.py:93-110 | a supported file the share no longer has, and that nobody holds open, is gone after the deletion pass |
| Sync.DeletionIsAChange | src/core/webdav_client.py:108-118 | removing or marking a present file makes the sync report a change |
| Sync.DeletionsFootprint | src/core/webdav_client.py:93-121 | the deletion pass only removes listed files the share no longer has, and only adds markers of listed files |
| Sync.DeletionsKeepContents | src/core/webdav_client.py:93-121 | a supported file the deletion pass leaves in place keeps its size |
| Sync.MarkerKept | src/core/webdav_client.py:112-118 | a marker already in place survives the removal of other files with its contents, and its file does not come back |
| Sync.LockedFileIsMarked | src/core/webdav_client.py:107-118 | a held file the share no longer has, with no marker yet, ends the deletion pass renamed: it is gone and its marker holds its size |
| Sync.NotifiedBeforeRemoval | src/core/webdav_client.py:99-109 | with a catalog, each file the share no longer has is announced, and the very next event is the attempt to remove it |
| Sync.UnreachableShareEmptiesFolder | src/core/webdav_client.py:136-149 | a root listing that fails reads as an empty share, so the sync removes every supported local file nobody holds open |
| Sync.SyncFetchesChangedFiles | src/core/webdav_client.py:53-134 | after a whole sync, a changed remote file that was fetched is present with its new size, and the sync reports a change |
| Sync.SyncRemovesStaleFiles | src/core/webdav_client.py:53-134 | after a whole sync, a supported local file the share lacks, and that nobody holds open, is gone, and the sync reports a change |
| Sync.DownloadsKeepMarkers | src/core/webdav_client.py:79-89 | fetching never touches a deletion marker |
| Sync.SyncMarksLockedStaleFiles | src/core/webdav_client.py:53-134 | after a whole sync, a held supported file the share lacks, with no marker left after the clean-up, is gone and its marker holds its size |
| Sync.SyncClient.constructor | src/core/webdav_client.py:20-37 | no remote cache, last sync time 0, and the given folder and callback |
| Sync.SyncClient.CleanupDeletionMarkers | src/core/webdav_client.py:285-301 | exactly the top-level `*.delete` files that are not held open are removed; other files keep their size |
| Sync.SyncClient.GetLocalFileList | src/core/webdav_client.py:197-213 | the supported files of the local folder, by relative path |
| Sync.SyncClient.DownloadFile | src/core/webdav_client.py:248-283 | the folder and the result are those of the commit rule |
| Sync.SyncClient.DownloadChanged | src/core/webdav_client.py:76-89 | every remote file is considered once, and the folder and the "changed" flag are those of the fetch pass in that order |
| Sync.SyncClient.Notify | src/core/webdav_client.py:99-105 | the catalog, when there is one, is told: its catalog, managed sets, scenes and inputs become `Content.Forget` of the old ones, and it stays consistent |
| Sync.SyncClient.Unlink | src/core/webdav_client.py:107-118 | the folder, the flag and the events are those of the removal rule |
| Sync.SyncClient.RemoveIfGone | src/core/webdav_client.py:93-121 | the folder, the flag and the events are those of one deletion step; the catalog is unchanged when the share still has the file, and otherwise is told of it as in `Sync.SyncClient.Notify` |
| Sync.SyncClient.RemoveDeleted | src/core/webdav_client.py:91-121 | every local file is considered once; the folder, flag and events are those of the deletion pass in that order; the catalog ends as if told of every local file the share lacks at once (`Content.Forgotten`) |
| Sync.SyncClient.SyncContent | src/core/webdav_client.py:53-134 | clears markers, then lists the share and caches the map, then fetches and removes as specified; reports a change exactly when something was fetched or removed; records the time; the catalog ends as if told of every supported local file the share lacks, and stays consistent |

## Left out

- Network, file-system and compositor I/O are replaced by abstract state:
  - the WebDAV client, `stat`, `rename`, `unlink`, `mkdir` and `rglob`;
  - the OBS WebSocket connection, process launch, monitors and health checks in `src/core/obs_manager.py`, the audio player, the file monitor, logging and `src/main.py`'s asyncio task loop.
- Compositor requests never fail in the model. The wrapper in `src/core/obs_manager.py` catches every error and the content manager ignores the results, so a request that fails in OBS leaves the real state unlike the modelled one.
- The ffprobe subprocess and its JSON decoding are a `probe` parameter. It returns a length, no length, or an exception.
- Content.DurationFor: the exception outcome stands for any exception inside the duration loop. Since the probe helper catches everything itself, that case is not expected in practice.
- `_configure_scene_item_transform` sends a constant transform and is not modelled. So are the input settings dictionaries.
- `initialize`, `on_content_change` (a sleep followed by a rescan), `test_connection` and the scheduler's `get_current_*` getters are not modelled.
- Times, durations and modification times are not modelled as Python floats:
  - durations and times are reals;
  - a modification time is the text it prints as.
  - Float rounding is not modelled.
- The clock (`time.time()`, `datetime.now`) is a parameter, and so is the time zone. Times of day are whole minutes, because schedule windows come from `HH:MM` text.
- Scheduling.Scheduler.CheckScheduleChange: Python compares schedule objects by identity, while the model compares them as values. The two agree because the loaded schedules have distinct names.
- The default schedule's settings and the Sunday-service settings are constructor arguments. The attributes they come from are not defined by the settings class shown.
- The `int`/`float` conversions of the other settings, and the creation of the content, log and config directories, are not modelled.
- Reading the `.env` file: its lines are a parameter. An error while reading is modelled only as an assignment the environment refuses.
- Text.Lower: only ASCII letters are lower-cased. Python's Unicode case mapping is not modelled.
- Text.ParseInt: only ASCII digits are accepted. Its contract states only that success needs non-blank text; its values are proved for two-digit text by `Text.ParseTwoDigits`.
- Text.CollapseDoubleSlash: its contract states only length and first character. The exact result is proved for text without doubled slashes by `Text.CollapseUnchanged`.
- Sync.RemotePath: inherits that gap. Its contract states only the leading `/`; `root/name` is proved, by `Sync.RemotePathOfPlainNames`, only for names with no doubled slash.
- The remote listing item's `modified`, `etag` and `href` fields are not stored; only the size is. A subdirectory's listing is given directly in the tree, so the remote path string used to list it is not built.
- The `None` branch after listing the share (`src/core/webdav_client.py:66-67`) is not modelled. It cannot be reached, because the scan catches every listing error, and a failed root listing reads as an empty share (`Sync.UnreachableShareEmptiesFolder`).
- A transfer that raises part-way may leave a partial temporary file. The model leaves the folder unchanged in that case.
- Renaming a locked file to its marker is assumed to succeed.
- The marker clean-up's `glob('*.delete')` could match a directory. Only files are modelled.
- Sync.SyncClient.RemoveDeleted: the catalog's requests, current scene, index and clock across the loop are not stated, only its catalog, managed sets, scenes and inputs. One deletion's full effect is stated by `Content.ContentManager.OnFileDeleted`.
- Sync.SyncClient.SyncContent: the same holds for the catalog's side of a whole sync.
- Sync.ScannedFileLands: the value is stated for a file listed directly in the listing scanned. For a file deeper down, the lemma has to be applied level by level, and no lemma does that.
- Concurrency is not modelled. The sync, the rotation and the file monitor run as separate asyncio tasks; the model treats each call as atomic.
