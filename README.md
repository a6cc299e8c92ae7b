# tonuino-organizer, modelled in Dafny

tonuino-organizer prepares an SD card for a TonUINO music box. Each input
folder (`NN_Name`) holds either a static album or an RSS podcast, as its
`description.yaml` says. For a podcast, new episodes are downloaded from the
feed. Episodes shorter than a minimum duration are rejected and deleted. Two
tracking files, `.downloaded_files` and `.rejected_files`, remember which URLs
were already handled, so they are never fetched again. Each folder's MP3
files are then sorted naturally and copied to `<output>/NN/001.mp3`,
`002.mp3`, … (at most 255 files).

This project models that bookkeeping and naming and proves it correct:

- `wrappers.dfy` (`Wrappers`): `Option` and `Result`.
- `chars.dfy` (`Chars`): ASCII character classes, `str.strip`, `str.lower`,
  and decimal text (`str(n)`, `int(s)`, `{n:03d}`).
- `utils.dfy` (`Utils`): `natural_sort_key`, `sort_files_naturally` (as a
  stable insertion sort by a strict order) and `extract_two_digit_prefix`.
- `description.dfy` (`Description`): the validation chain of
  `load_description` on an already parsed YAML value, and the three
  accessors.
- `file_organizer.dfy` (`FileOrganizer`): `organize_files`, a method over an
  abstract output tree (a set of directories and a map from path to source
  file) with its copy loop.
- `podcast_rules.dfy` (`PodcastRules`): the pure podcast rules. These cover
  audio URL selection, the too-short test, file names, collision names, the
  tracking files, and a reference definition of a whole download pass, with
  its lemmas.
- `podcast_handler.dfy` (`Podcast`): the class `PodcastHandler`. Its fields
  are the two URL sets, the two tracking files and the podcast folder's
  contents. Its methods are proved against `PodcastRules`. Also here is
  `ProcessPodcast`.

The outside world is passed in as parameters:

- the podcast folder is the set of names in it;
- `Web` bundles the URL basename, the 8-digit MD5 prefix, the download
  (raised, or written with a probed duration) and whether each tracking-file
  append succeeds;
- the duration probe is a function from name to seconds;
- `find_mp3_files` is a function from folder contents to a listing;
- each file copy succeeds or fails as a predicate says.

The minimum duration is a parameter throughout. The handler's default is
600 seconds (`DEFAULT_MIN_DURATION_SECONDS`,
tonuino_organizer/podcast_handler.py:20), kept as
`PodcastRules.DefaultMinDurationSeconds`. The docstrings at
podcast_handler.py:32 and :319 say 60.0. `get_min_duration` defaults to 60.0
(description.py:97), kept as `Description.DefaultMinDuration`. The code is
followed in both places.

The podcast code keeps no URL-to-number mapping and no numbered episode
files. Downloaded episodes keep their derived names, and the numbering
happens only when `organize_files` copies them. The model follows that.

## Model

| member | source | states |
|---|---|---|
| Chars.Lower | tonuino_organizer/utils.py:30 | `str.lower` on one character keeps digits, leaves no upper-case letter, and changes nothing else |
| Chars.LowerStr | tonuino_organizer/utils.py:30 | lower-casing is applied character by character and keeps the length |
| Chars.LowerStrIdempotent | tonuino_organizer/utils.py:30 | lower-casing twice is lower-casing once |
| Chars.TrimStart | tonuino_organizer/podcast_handler.py:48 | the result is a suffix of the input, everything cut off is white space, and it does not start with white space |
| Chars.TrimEnd | tonuino_organizer/podcast_handler.py:48 | the result is a prefix of the input, everything cut off is white space, and it does not end with white space |
| Chars.Strip | tonuino_organizer/podcast_handler.py:48 | `str.strip` leaves no white space at either end and never lengthens the string |
| Chars.StripIsEdgeTrim | tonuino_organizer/podcast_handler.py:48 | `str.strip` returns the slice between a leading and a trailing run of white space: only white space at the two ends is removed |
| Chars.StripCounts | tonuino_organizer/podcast_handler.py:132 | stripping never adds an occurrence of a character and keeps every occurrence of a character that is not white space |
| Chars.StripKeepsChars | tonuino_organizer/podcast_handler.py:132 | stripping only removes characters, it adds none |
| Chars.StripUnpadded | tonuino_organizer/podcast_handler.py:48 | a string without surrounding white space is its own strip |
| Chars.NatToString | tonuino_organizer/podcast_handler.py:210 | `str(counter)` is a non-empty digit string that reads back as the counter, with no leading zero |
| Chars.NatToStringInjective | tonuino_organizer/podcast_handler.py:210 | different counters give different texts |
| Chars.Pad3 | tonuino_organizer/file_organizer.py:65 | `{index:03d}` is a digit string that reads back as the index, exactly 3 long below 1000 |
| Chars.LeadingZerosValue | tonuino_organizer/file_organizer.py:65 | leading zeros do not change a number's value |
| Utils.NonDigitEnd | tonuino_organizer/utils.py:32 | the end of the maximal digit-free run starting at a position |
| Utils.DigitEnd | tonuino_organizer/utils.py:32 | the end of the maximal digit run starting at a position |
| Utils.SplitFrom | tonuino_organizer/utils.py:32 | the split from a position: the digit-free text up to the next digit, the maximal digit run there, then the split of the rest; the text after the last run ends it |
| Utils.SplitDigitRuns | tonuino_organizer/utils.py:32 | `re.split(r'(\d+)', text)` is the split from position 0 |
| Utils.SplitRun | tonuino_organizer/utils.py:32 | a digit-free piece followed by a maximal digit run come off the front of the split as two pieces |
| Utils.SplitDigitRunsShape | tonuino_organizer/utils.py:32 | `re.split(r'(\d+)')` alternates digit-free text with non-empty digit runs, starting and ending with text, and the pieces concatenate back to the input |
| Utils.SplitFromAlternates | tonuino_organizer/utils.py:32 | every suffix split alternates as above |
| Utils.SplitFromConcat | tonuino_organizer/utils.py:32 | every suffix split concatenates back to that suffix |
| Utils.ConvertAllShape | tonuino_organizer/utils.py:29-32 | converting alternating pieces puts lower-case, digit-free text at even positions and ints at odd positions |
| Utils.ConvertPart | tonuino_organizer/utils.py:29-30 | `convert`: a non-empty all-digit piece becomes its `int` value, any other piece its lower-cased text |
| Utils.ConvertAll | tonuino_organizer/utils.py:32 | `[convert(c) for c in parts]`: one converted piece per piece, in order |
| Utils.NaturalSortKey | tonuino_organizer/utils.py:18-32 | the key has odd length, text at exactly the even positions, and each text is digit-free and lower case |
| Utils.NaturalSortKeyParts | tonuino_organizer/utils.py:29-32 | the key has one element per split piece: the lower-cased text at even positions and the value of the digit run at odd ones |
| Utils.SplitOfFile10 | tonuino_organizer/utils.py:32 | `file10.mp3` splits into `file`, `10`, `.mp`, `3` and an empty tail |
| Utils.KeyOfFile10 | tonuino_organizer/utils.py:18-32 | the key of `file10.mp3` is `['file', 10, '.mp', 3, '']`; the docstring at utils.py:26 shows `['file', 10, '.mp3']`, and the code is followed |
| Utils.DigitFreeKey | tonuino_organizer/utils.py:30-32 | a digit-free name has the key `[lower(name)]` |
| Utils.SplitFromLower | tonuino_organizer/utils.py:32 | lower-casing the input lower-cases each split piece and moves no boundary |
| Utils.KeyOfLower | tonuino_organizer/utils.py:29-32 | a name and its lower-cased form have the same key |
| Utils.CaseInsensitiveKey | tonuino_organizer/utils.py:29-32 | names that differ only in letter case have equal keys |
| Utils.KeysSameShape | tonuino_organizer/utils.py:29-45 | any two keys hold the same type at each common position, so comparing them never mixes `str` with `int` |
| Utils.KeyLess | tonuino_organizer/utils.py:45 | Python's list `<` on keys: the first differing element decides, and a proper prefix is smaller |
| Utils.StrLessTransitive | tonuino_organizer/utils.py:45 | Python's `str` `<` is transitive |
| Utils.KeyLessIrreflexive | tonuino_organizer/utils.py:45 | no key is below itself |
| Utils.KeyLessTransitive | tonuino_organizer/utils.py:45 | list `<` on same-shaped keys is transitive |
| Utils.StrLessTrichotomy | tonuino_organizer/utils.py:45 | for two strings exactly one of `a < b`, `a == b` and `b < a` holds |
| Utils.KeyLessTrichotomy | tonuino_organizer/utils.py:45 | for two same-shaped keys exactly one of `a < b`, `a == b` and `b < a` holds, so sorted, permutation and stable together leave `sorted` one possible result |
| Utils.FileName | tonuino_organizer/utils.py:45 | `Path.name` holds no `/` |
| Utils.FileNameIsLastComponent | tonuino_organizer/utils.py:45 | `Path.name` is the suffix of the path after its last `/`: what precedes it, if anything, is a `/` |
| Utils.NaturallyBeforeTransitive | tonuino_organizer/utils.py:45 | "natural key of the name is smaller" is transitive |
| Utils.KeyHead | tonuino_organizer/utils.py:29-32 | a name of text, digit run and rest has a key opening with the lower-cased text and the run's value |
| Utils.SecondNumberDecides | tonuino_organizer/utils.py:45 | keys equal at position 0 are ordered by their ints at position 1 |
| Utils.NumbersCompareNumerically | tonuino_organizer/utils.py:18-45 | names that share their text up to a number are ordered by the number's value, not by its characters |
| Utils.File2BeforeFile10 | tonuino_organizer/utils.py:35-45 | `file2.mp3` sorts before `file10.mp3` |
| Utils.InsertByPermutes | tonuino_organizer/utils.py:45 | inserting adds exactly the one element |
| Utils.InsertBySorts | tonuino_organizer/utils.py:45 | inserting into a sorted list keeps it sorted |
| Utils.InsertByStable | tonuino_organizer/utils.py:45 | inserting an element behind the ones with its key keeps equal-key elements in order |
| Utils.SortBySortsPermutes | tonuino_organizer/utils.py:45 | the sort returns a sorted permutation of its input |
| Utils.SortByStable | tonuino_organizer/utils.py:45 | elements with equal keys keep their input order |
| Utils.SortByCorrect | tonuino_organizer/utils.py:45 | sorted, a permutation, and stable |
| Utils.SortFilesNaturally | tonuino_organizer/utils.py:35-45 | `sorted(files, key=natural_sort_key(f.name))` as the stable sort by "natural key of the name is smaller" |
| Utils.SortFilesNaturallyCorrect | tonuino_organizer/utils.py:35-45 | `sort_files_naturally` returns a permutation of the files, never puts a file after one naturally before it, and keeps files with equal keys in input order |
| Utils.ExtractTwoDigitPrefix | tonuino_organizer/utils.py:76-92 | succeeds iff the first two characters are digits and returns exactly them, otherwise `ValueError` |
| Utils.RegexAcceptsMalformedPrefixes | tonuino_organizer/utils.py:89 | the regex accepts `001_Album` (giving `00`) and `01Album` (giving `01`) |
| Utils.ExtractFolderPrefix | tonuino_organizer/utils.py:76-92 | the corrected prefix: succeeds iff two digits are followed by `_`, and then agrees with the regex |
| Utils.FolderPrefixExamples | tonuino_organizer/utils.py:76-92 | refuses `001_Album`, `01Album`, `Album`, `1_Album` and the empty name; accepts `01_Album` and `15_Podcast` |
| Description.CheckMinDuration | tonuino_organizer/description.py:59-64 | an absent `min_duration` passes; a present one must be a number (a bool counts) and positive, otherwise the matching error |
| Description.Validate | tonuino_organizer/description.py:40-66 | accepts exactly the mappings that pass every check, and returns the record unchanged |
| Description.FirstFailingCheck | tonuino_organizer/description.py:40-64 | each error is returned exactly when every earlier check passed and its own check failed, in the order mapping, `type`, type value, `feed_url` present, `feed_url` a non-empty string, `min_duration` numeric, `min_duration` positive |
| Description.StaticIgnoresFeedUrl | tonuino_organizer/description.py:52-56 | for a `static` record, adding, changing or removing `feed_url` does not change acceptance |
| Description.LoadDescription | tonuino_organizer/description.py:14-66 | a missing file, invalid YAML and a read error each give their own error; otherwise the result is the validated record |
| Description.GetDescriptionType | tonuino_organizer/description.py:69-80 | fails exactly when loading fails, and otherwise is `static` or `rss` |
| Description.GetFeedUrl | tonuino_organizer/description.py:83-94 | `None` exactly when the key is absent, the stored value otherwise, a non-empty string for `rss` |
| Description.GetMinDuration | tonuino_organizer/description.py:97-109 | the stored positive number, or the default when the key is absent |
| Description.DescriptionExamples | tonuino_organizer/description.py:40-109 | the concrete records of the description tests give the errors and values the code gives |
| FileOrganizer.OutputName | tonuino_organizer/file_organizer.py:65 | `NNN.mp3` ends in `.mp3` and is 7 characters for indexes below 1000 |
| FileOrganizer.Destinations | tonuino_organizer/file_organizer.py:63-66 | one destination per input |
| FileOrganizer.FirstFailure | tonuino_organizer/file_organizer.py:76-91 | the index of the first failing copy: every earlier copy succeeds |
| FileOrganizer.OrganizeFiles | tonuino_organizer/file_organizer.py:15-95 | more than 255 files fails before anything else and changes nothing; a name not starting with two digits fails and changes nothing; otherwise `<output>` and `<output>/NN` (NN the first two characters) are created and the inputs are copied in order up to the first failure, which aborts the rest; success returns all destinations in input order |
| FileOrganizer.CopyInOrder | tonuino_organizer/file_organizer.py:63-91 | the loop copies `sources[j]` to `dests[j]` until the first failure and returns the destinations written |
| FileOrganizer.OutputNameInjective | tonuino_organizer/file_organizer.py:65 | different indexes give different names |
| FileOrganizer.DestInjective | tonuino_organizer/file_organizer.py:66 | different indexes give different destinations |
| FileOrganizer.DestinationsLayout | tonuino_organizer/file_organizer.py:63-66 | the i-th destination is `<folder>/NNN.mp3` with NNN reading back as i+1 in 1..255, and all destinations are distinct |
| FileOrganizer.CopiedTreeKeys | tonuino_organizer/file_organizer.py:76-78 | after k copies the tree holds the old paths plus the first k destinations |
| FileOrganizer.CopiedTreeAtDest | tonuino_organizer/file_organizer.py:76-78 | each of the first k destinations holds its source file |
| FileOrganizer.CopiedTreeElsewhere | tonuino_organizer/file_organizer.py:76-78 | every other path is untouched |
| FileOrganizer.OrganizeSucceeds | tonuino_organizer/file_organizer.py:63-95 | when every copy succeeds, each destination holds its own source and the rest of the tree is unchanged |
| FileOrganizer.OutputFolderIsPrefix | tonuino_organizer/file_organizer.py:41-45 | for every folder name starting with two digits, whatever follows them, the output folder is `<output>/` followed by those two digits |
| FileOrganizer.MalformedFoldersAreOrganized | tonuino_organizer/file_organizer.py:41-45 | `001_Album` is organized into `<output>/00` and `01Album` into `<output>/01` |
| FileOrganizer.WellFormedFoldersAgree | tonuino_organizer/file_organizer.py:41-45 | on every name of the form `NN_…` the prefix used and the corrected prefix name the same output folder |
| PodcastRules.FirstAudioFrom | tonuino_organizer/podcast_handler.py:181-191 | the position of the first link whose type starts with `audio/`; none before it is audio |
| PodcastRules.AudioUrl | tonuino_organizer/podcast_handler.py:177-194 | a chosen URL is never empty |
| PodcastRules.AudioUrlSelection | tonuino_organizer/podcast_handler.py:177-194 | the first audio enclosure's href wins; links are consulted only when that gives nothing, and whatever follows the first audio link is ignored; an entry is skipped iff neither gives a URL |
| PodcastRules.IsTooShort | tonuino_organizer/podcast_handler.py:100-111 | `duration > 0 and duration < min_duration` |
| PodcastRules.TooShortRule | tonuino_organizer/podcast_handler.py:93-111 | too short iff 0 < duration < minimum; a failed probe (0.0) is never too short |
| PodcastRules.KeepTitleChars | tonuino_organizer/podcast_handler.py:132 | the filter keeps only alphanumerics, space, `-` and `_`, and keeps a title made only of those unchanged; with `KeepTitleCharsConcat` and `KeepTitleCharsSingle` it is fully determined: the title's kept characters, in order |
| PodcastRules.KeepTitleCharsCounts | tonuino_organizer/podcast_handler.py:132 | the filter keeps every occurrence of an alphanumeric, space, `-` or `_` and drops every other character |
| PodcastRules.SpacesToUnderscores | tonuino_organizer/podcast_handler.py:133 | every space becomes `_` and nothing else changes |
| PodcastRules.UnderscoresCount | tonuino_organizer/podcast_handler.py:133 | replacing spaces keeps the count of every character other than space and `_` |
| PodcastRules.SafeTitle | tonuino_organizer/podcast_handler.py:132-133 | a cleaned title holds only alphanumerics, `-` and `_` and is no longer than the title; it is the filtered title (kept characters in order, by `KeepTitleCharsConcat`) with its edge blanks cut (`Chars.StripIsEdgeTrim`) and every other blank made `_` (`SpacesToUnderscores`) |
| PodcastRules.SafeTitleCounts | tonuino_organizer/podcast_handler.py:132-133 | every character other than space and `_` occurs in the cleaned title as often as in the title if it is alphanumeric or `-`, and not at all otherwise |
| PodcastRules.CleanTitleFixed | tonuino_organizer/podcast_handler.py:132-133 | a title of alphanumerics, `-` and `_` is cleaned to itself |
| PodcastRules.SafeTitleIdempotent | tonuino_organizer/podcast_handler.py:132-133 | cleaning twice is cleaning once |
| PodcastRules.SafeTitleNoSlash | tonuino_organizer/podcast_handler.py:132-134 | a cleaned title never names a sub-directory |
| PodcastRules.SafeTitleOfUnpadded | tonuino_organizer/podcast_handler.py:132-133 | when the kept characters need no strip, cleaning only turns spaces into `_` |
| PodcastRules.KeepTitleCharsAppend | tonuino_organizer/podcast_handler.py:132 | the filter passes a clean prefix through and filters the rest |
| PodcastRules.KeepTitleCharsConcat | tonuino_organizer/podcast_handler.py:132 | filtering a concatenation is concatenating the filtered parts, so the kept characters keep their order |
| PodcastRules.KeepTitleCharsSingle | tonuino_organizer/podcast_handler.py:132 | one character passes the filter iff it is alphanumeric, a space, `-` or `_` |
| PodcastRules.SafeTitleExample | tonuino_organizer/podcast_handler.py:132-133 | `Ep 1!` is cleaned to `Ep_1` |
| PodcastRules.SafeTitleOfUnknown | tonuino_organizer/podcast_handler.py:132-133 | the missing-title default is cleaned to `Unknown_Episode` |
| PodcastRules.EpisodeFileName | tonuino_organizer/podcast_handler.py:113-144 | the name always ends in `.mp3`; a basename ending in `.mp3` (case-sensitive) is used as it is; no `/` is added |
| PodcastRules.EpisodeFileNameFallbacks | tonuino_organizer/podcast_handler.py:129-142 | otherwise a non-empty title gives the cleaned title plus `.mp3` and an empty title gives `episode_` plus the 8 hash digits plus `.mp3` |
| PodcastRules.NameFromTitleExample | tonuino_organizer/podcast_handler.py:129-134 | `show.MP3` with title `Ep 1!` is saved as `Ep_1.mp3` |
| PodcastRules.NameForMissingTitleExample | tonuino_organizer/podcast_handler.py:129-134 | an entry without a title and an unusable basename is saved as `Unknown_Episode.mp3` |
| PodcastRules.NameFromHashExample | tonuino_organizer/podcast_handler.py:136-138 | an empty title gives `episode_0123abcd.mp3` |
| PodcastRules.LastDot | tonuino_organizer/podcast_handler.py:209 | the position of the last `.` of a name, if any |
| PodcastRules.Stem | tonuino_organizer/podcast_handler.py:209 | `Path.stem`: the name up to its last `.`, unless that dot is the first or the last character |
| PodcastRules.StemOfMp3 | tonuino_organizer/podcast_handler.py:209 | the stem of `x.mp3` is `x`, and that of the bare `.mp3` is `.mp3` |
| PodcastRules.CollisionName | tonuino_organizer/podcast_handler.py:210 | `f"{stem}_{counter}.mp3"` |
| PodcastRules.CollisionNameInjective | tonuino_organizer/podcast_handler.py:210 | different counters give different `stem_k.mp3` names |
| PodcastRules.CollisionNamesCount | tonuino_organizer/podcast_handler.py:208-211 | counters 1..k give k distinct names |
| PodcastRules.TakenBound | tonuino_organizer/podcast_handler.py:208-211 | a folder can hold only as many collision names as it holds names, so the loop ends |
| PodcastRules.FirstFreeSuffix | tonuino_organizer/podcast_handler.py:206-211 | the first free counter: its name is not in the folder and every smaller one is |
| PodcastRules.FirstFreeSuffixIsLeast | tonuino_organizer/podcast_handler.py:206-211 | that counter is the least free one |
| PodcastRules.ChosenName | tonuino_organizer/podcast_handler.py:203-211 | the destination is not in the folder; it is the name itself when free, otherwise `stem_k.mp3` from the original stem with every smaller k taken |
| PodcastRules.Lines | tonuino_organizer/podcast_handler.py:47-48 | the text cut at each `\n` and each `\r`, line ends dropped; a `\r\n` pair gives one more, empty, line than `for line in f` reads, and the loader drops it |
| PodcastRules.CrLfLinesExample | tonuino_organizer/podcast_handler.py:47-48 | `a\r\nb` is cut into `a`, an empty line and `b`, and loads as `{a, b}`, the URLs universal-newline reading gives |
| PodcastRules.UrlSet | tonuino_organizer/podcast_handler.py:48 | `{line.strip() for line in f if line.strip()}` |
| PodcastRules.CleanedLinesMembers | tonuino_organizer/podcast_handler.py:41-63 | a URL is loaded iff some line strips to it and it is not blank |
| PodcastRules.UrlsAreClean | tonuino_organizer/podcast_handler.py:41-63 | every loaded URL is non-empty and has no surrounding white space |
| PodcastRules.LoadUrls | tonuino_organizer/podcast_handler.py:41-63 | a missing or unreadable file loads as the empty set; loaded URLs are stripped and non-blank |
| PodcastRules.AppendLine | tonuino_organizer/podcast_handler.py:65-72 | a successful append adds `url\n` to the file, creating it when absent; a failed one changes nothing |
| PodcastRules.LinesAppendPlain | tonuino_organizer/podcast_handler.py:65-81 | appending text without line breaks to a finished text extends its last, empty line |
| PodcastRules.UrlSetAddUrl | tonuino_organizer/podcast_handler.py:41-63 | one more clean line adds exactly its URL |
| PodcastRules.UrlsAfterAppend | tonuino_organizer/podcast_handler.py:65-81 | appending `url\n` to a finished text adds exactly that URL to what loads |
| PodcastRules.EpisodeTitle | tonuino_organizer/podcast_handler.py:201 | `entry.get('title', 'Unknown Episode')` |
| PodcastRules.AppendThenLoad | tonuino_organizer/podcast_handler.py:41-81 | after a successful append, the file loads as the old set plus the URL and is still finished |
| PodcastRules.EntryOutcome | tonuino_organizer/podcast_handler.py:177-272 | an entry is fetched only when it has a URL that is in neither set, and then to a name not in the folder; it yields no outcome iff it has no audio URL |
| PodcastRules.FetchOutcome | tonuino_organizer/podcast_handler.py:217-272 | a fetched entry is kept iff the download did not raise and the file is not too short |
| PodcastRules.ApplyOutcome | tonuino_organizer/podcast_handler.py:247-272 | a too-short file is saved as rejected; a kept one stays in the folder and is saved as downloaded; each set grows only when its append succeeds |
| PodcastRules.RunEntries | tonuino_organizer/podcast_handler.py:176-272 | the entries are processed in feed order, each on the state the previous ones left, with one outcome per entry |
| PodcastRules.RunFeed | tonuino_organizer/podcast_handler.py:146-279 | a feed that cannot be parsed changes nothing and yields nothing; otherwise the pass over its entries |
| PodcastRules.RunEntriesStep | tonuino_organizer/podcast_handler.py:177 | one more entry applies that entry's outcome to the shorter pass |
| PodcastRules.KeptFilesStep | tonuino_organizer/podcast_handler.py:263 | one more outcome adds its destination to the returned files iff it was kept |
| PodcastRules.RunGrows | tonuino_organizer/podcast_handler.py:247-272 | a pass only adds to the two sets and the folder |
| PodcastRules.RunNeverRefetches | tonuino_organizer/podcast_handler.py:197-198 | no URL in either set at the start is fetched; no URL is fetched twice unless the first download raised or its save failed |
| PodcastRules.ApplyOutcomeGrows | tonuino_organizer/podcast_handler.py:247-272 | one outcome only adds to the sets and the folder |
| PodcastRules.RecordedUrlsStay | tonuino_organizer/podcast_handler.py:256-264 | a URL an outcome saved stays in its set for the rest of the pass |
| PodcastRules.DiskStep | tonuino_organizer/podcast_handler.py:249-272 | one more outcome adds to the folder exactly the kept file, if any |
| PodcastRules.RunDiskGrowsByKept | tonuino_organizer/podcast_handler.py:247-279 | after a pass the folder is the old folder plus exactly the returned files; rejected and failed downloads leave nothing |
| PodcastRules.RunKeptFiles | tonuino_organizer/podcast_handler.py:203-265 | the returned files are new names, pairwise distinct |
| PodcastRules.SecondRunIsIdle | tonuino_organizer/podcast_handler.py:197-198 | running the same feed again after a pass with no raised download and working saves fetches nothing, returns nothing and changes nothing |
| PodcastRules.SeenAfterRun | tonuino_organizer/podcast_handler.py:197-264 | after such a pass every entry's URL is in one of the sets |
| PodcastRules.IdleWhenAllSeen | tonuino_organizer/podcast_handler.py:197-198 | a pass over entries whose URLs are all known is a no-op |
| PodcastRules.RunKeepsLogsInSync | tonuino_organizer/podcast_handler.py:41-81 | if each set is what its file loads to, that stays true after a pass whatever the append failures (for clean URLs) |
| PodcastRules.SyncStep | tonuino_organizer/podcast_handler.py:65-81 | one outcome keeps each set equal to what its file loads to |
| PodcastRules.Evicted | tonuino_organizer/podcast_handler.py:289-299 | the files of the listing that are too short, in listing order |
| PodcastRules.Survivors | tonuino_organizer/podcast_handler.py:303 | the files of the listing that are not too short, in listing order |
| PodcastRules.EvictionMembers | tonuino_organizer/podcast_handler.py:289-303 | exactly the too-short files are deleted and exactly the others are returned |
| PodcastRules.SurvivorsSplit | tonuino_organizer/podcast_handler.py:289-303 | the returned and deleted files together are the listing, nothing lost or added |
| PodcastRules.SurvivorsKeepAll | tonuino_organizer/podcast_handler.py:303 | a listing with no short file is returned as it is |
| PodcastRules.SurvivorsAppend | tonuino_organizer/podcast_handler.py:303 | the filter keeps listing order |
| Podcast.FirstAudioHref | tonuino_organizer/podcast_handler.py:181-184 | the loop returns the href of the first audio link |
| Podcast.SelectAudioUrl | tonuino_organizer/podcast_handler.py:177-194 | the two loops choose exactly the reference URL |
| Podcast.PodcastHandler.constructor | tonuino_organizer/podcast_handler.py:26-39 | both sets are loaded from their tracking files |
| Podcast.PodcastHandler.SaveDownloadedUrl | tonuino_organizer/podcast_handler.py:65-72 | the URL is appended to `.downloaded_files` and joins the set only if the append succeeded |
| Podcast.PodcastHandler.SaveRejectedUrl | tonuino_organizer/podcast_handler.py:74-81 | the same for `.rejected_files` |
| Podcast.PodcastHandler.ResolveCollision | tonuino_organizer/podcast_handler.py:206-211 | the counter loop ends on the reference destination, which is not in the folder |
| Podcast.PodcastHandler.FetchEpisode | tonuino_organizer/podcast_handler.py:217-272 | too short: the file is deleted and the URL saved as rejected; kept: the file stays, is returned and the URL is saved as downloaded; raised: nothing changes |
| Podcast.PodcastHandler.ProcessEntry | tonuino_organizer/podcast_handler.py:177-272 | one iteration changes the state exactly as the entry's reference outcome says |
| Podcast.PodcastHandler.DownloadEpisodes | tonuino_organizer/podcast_handler.py:146-279 | the new state and the returned files are those of the reference pass over the feed; an unparseable feed changes nothing |
| Podcast.PodcastHandler.GetLocalFiles | tonuino_organizer/podcast_handler.py:281-303 | returns the listing minus the too-short files, in order, and deletes exactly those from the folder |
| Podcast.PodcastHandler.RemoveTooShort | tonuino_organizer/podcast_handler.py:289-299 | the first loop deletes exactly the evicted files and remembers them in listing order |
| Podcast.FilterRemoved | tonuino_organizer/podcast_handler.py:303 | dropping the remembered files from the listing leaves exactly the survivors, in order |
| Podcast.ProcessPodcast | tonuino_organizer/podcast_handler.py:306-340 | the result is the surviving files of the folder as it is after the optional download pass; the final state holds the sets and tracking files that pass left and the folder without the evicted files |

## Findings

| source | as written | input that shows it | evidently intended | confidence | as-written member | corrected member |
|---|---|---|---|---|---|---|
| tonuino_organizer/utils.py:89 | `re.match(r'^(\d{2})', …)` accepts any name starting with two digits | `001_Album` gives `00`; `01Album` gives `01` | two digits followed by `_`, as tests/test_utils.py:186 and :189 expect and the message at tonuino_organizer/cli.py:89 says | high, not executed | Utils.RegexAcceptsMalformedPrefixes | Utils.FolderPrefixExamples |

`Utils.ExtractTwoDigitPrefix` is the regex as written, and
`FileOrganizer.OrganizeFiles` uses it, as `organize_files` does
(`FileOrganizer.MalformedFoldersAreOrganized` shows the consequence).
`Utils.ExtractFolderPrefix` is the corrected prefix. By
`FileOrganizer.WellFormedFoldersAgree`, the correction changes the output
folder of no well-formed name: it only refuses the malformed ones.

## Left out

- Network access (`feedparser.parse`, `requests.get`): the feed is a value, and each download is an oracle that raises or gives a probed duration.
- `mutagen` probing: the duration is an oracle; durations are reals that are only compared.
- `hashlib.md5` and `urlparse`: the 8-digit hash and the URL basename are oracle functions of the URL.
- Download and append results (`Web`): the download result and the success of each tracking-file append are functions of the URL, so a URL listed twice in one feed gets the same result both times; in Python the first attempt could fail and the second succeed.
- File contents, `open`, `unlink`, `mkdir`, `rglob` and `shutil.copy2`: the podcast folder is a set of names, the output a set of directories plus a map from path to source; `mkdir` and `unlink` do not fail. A failing `shutil.copy2` leaves no file at its destination in the model, while in Python it can leave a partial one. `mkdir(parents=True)` also creates the missing ancestors of `<output>`; the model records only `<output>` and `<output>/NN`.
- `find_mp3_files` and `is_mp3_file`: a filesystem query, passed to `ProcessPodcast` as a function of the folder contents.
- Reading and parsing `description.yaml`: the model starts from the parsed value; YAML mapping keys are strings.
- `format_file_size` and all `rich` console and progress output, including the `new_episodes` counter, which only feeds a message.
- `expand_path`, `config.py`, `album_handler.py`, `cli.py` and `setup.py`: thin wrappers and orchestration outside the modelled core.
- Unicode: digits, letters, white space and lower-casing are ASCII.
- Floating point: `min_duration` and durations are reals; NaN and infinities are not modelled.
- PodcastRules.FetchOutcome: an exception after the file was written and probed (`stat` or the console) is modelled as a successful download, because only the download and probe are oracles.
- Podcast.PodcastHandler.GetLocalFiles: the probe is a function of the name, so a file listed twice is judged the same both times. Python probes the deleted second copy as 0.0 and so skips its `unlink`. Both return the same files and leave the same folder; only the repeated entry in `removed` differs.
- Description.GetMinDuration: the value is returned as a real; Python returns the stored `int` or `float` unchanged.
- FileOrganizer.OrganizeFiles: the unused `overwrite` parameter is not modelled; copying always overwrites.
- Podcast.PodcastHandler.DownloadEpisodes: `feed.bozo` only prints a warning and is not modelled; paths are names relative to the podcast folder.
