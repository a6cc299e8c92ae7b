/** The pure rules behind tonuino_organizer/podcast_handler.py: which audio
    URL an RSS entry offers, what the downloaded file is called, how a name
    collision is resolved, when a file is too short, what the two tracking
    files hold, and, as a reference definition, what a whole pass over the
    feed entries does to the handler's state. The class in podcast_handler.dfy
    is proved against these definitions. */
module PodcastRules {
  import opened Wrappers
  import opened Chars

  /** `DEFAULT_MIN_DURATION_SECONDS`. */
  const DefaultMinDurationSeconds: real := 600.0

  /** `entry.get('title', 'Unknown Episode')` when the title is missing. */
  const UnknownEpisodeTitle := "Unknown Episode"

  // ---------------------------------------------------------------------
  // Feed entries and the outside world
  // ---------------------------------------------------------------------

  /** An enclosure or a link of a feed entry: its `type` and `href`, either
      of which may be missing. */
  datatype Link = Link(mediaType: Option<string>, href: Option<string>)

  datatype Entry = Entry(title: Option<string>, enclosures: seq<Link>, links: seq<Link>)

  /** What `feedparser.parse` gave: it raised, or a list of entries. */
  datatype Feed = Unparseable | Parsed(entries: seq<Entry>)

  /** What downloading one URL gave: the stream raised, or the file was
      written and probing it gave this duration (0.0 when it could not be
      read). */
  datatype Download = Failed | Fetched(duration: real)

  /** The parts of the outside world a download pass consults, as oracles:
      the last path segment of a URL, the first 8 hex digits of its MD5, the
      download itself, and whether appending a URL to each tracking file
      succeeds. */
  datatype Web = Web(
    basename: string -> string,
    hash8: string -> string,
    fetch: string -> Download,
    downloadedAppendOk: string -> bool,
    rejectedAppendOk: string -> bool)

  // ---------------------------------------------------------------------
  // Audio URL selection
  // ---------------------------------------------------------------------

  /** `link.get('type', '').startswith('audio/')`. */
  predicate IsAudio(l: Link) {
    l.mediaType.Some? && StartsWith(l.mediaType.value, "audio/")
  }

  /** The position of the first audio link at or after `i` (or `|links|`). */
  function FirstAudioFrom(links: seq<Link>, i: nat): (k: nat)
    requires i <= |links|
    ensures i <= k <= |links|
    ensures forall j :: i <= j < k ==> !IsAudio(links[j])
    ensures k < |links| ==> IsAudio(links[k])
    decreases |links| - i
  {
    if i == |links| || IsAudio(links[i]) then i else FirstAudioFrom(links, i + 1)
  }

  /** The `href` of the first audio link; the search stops there even when
      that link has no `href`. */
  function AudioHref(links: seq<Link>): Option<string> {
    var k := FirstAudioFrom(links, 0);
    if k == |links| then None else links[k].href
  }

  /** Python truthiness of an optional string. */
  predicate Truthy(u: Option<string>) {
    u.Some? && u.value != []
  }

  /** The URL `download_episodes` picks for an entry: the first audio
      enclosure's `href`; only when that is missing or empty, the first
      audio link's `href`; None when neither gives a non-empty string. */
  function AudioUrl(e: Entry): (r: Option<string>)
    ensures r.Some? ==> r.value != []
  {
    var fromEnclosures := AudioHref(e.enclosures);
    if Truthy(fromEnclosures) then fromEnclosures
    else
      var fromLinks := AudioHref(e.links);
      if Truthy(fromLinks) then fromLinks else None
  }

  /** The enclosure rule wins: when the first audio enclosure has a
      non-empty `href`, that is the URL, whatever the links say; the links
      are looked at only when it does not; and an entry without either has
      no URL. */
  lemma AudioUrlSelection(e: Entry, otherLinks: seq<Link>)
    ensures var k := FirstAudioFrom(e.enclosures, 0);
            k < |e.enclosures| && Truthy(e.enclosures[k].href) ==>
              AudioUrl(e) == e.enclosures[k].href
              && AudioUrl(e.(links := otherLinks)) == AudioUrl(e)
    ensures !Truthy(AudioHref(e.enclosures)) ==>
              AudioUrl(e) == (if Truthy(AudioHref(e.links)) then AudioHref(e.links) else None)
    ensures AudioUrl(e).None? <==> !Truthy(AudioHref(e.enclosures)) && !Truthy(AudioHref(e.links))
  {
  }

  // ---------------------------------------------------------------------
  // The duration rule
  // ---------------------------------------------------------------------

  /** `duration > 0 and duration < min_duration`. A probe that fails reports
      0.0, so it never makes a file too short. */
  predicate IsTooShort(duration: real, minDuration: real) {
    duration > 0.0 && duration < minDuration
  }

  lemma TooShortRule(duration: real, minDuration: real)
    ensures duration <= 0.0 ==> !IsTooShort(duration, minDuration)
    ensures duration >= minDuration ==> !IsTooShort(duration, minDuration)
    ensures 0.0 < duration < minDuration ==> IsTooShort(duration, minDuration)
    ensures !IsTooShort(0.0, minDuration)
  {
  }

  // ---------------------------------------------------------------------
  // File names
  // ---------------------------------------------------------------------

  /** The characters the title filter keeps: `c.isalnum() or c in ' -_'`. */
  predicate KeptInTitle(c: char) {
    IsAlnum(c) || c == ' ' || c == '-' || c == '_'
  }

  function KeepTitleChars(title: string): (r: string)
    ensures |r| <= |title|
    ensures forall i :: 0 <= i < |r| ==> KeptInTitle(r[i])
    ensures (forall i :: 0 <= i < |title| ==> KeptInTitle(title[i])) ==> r == title
    decreases |title|
  {
    if title == [] then []
    else (if KeptInTitle(title[0]) then [title[0]] else []) + KeepTitleChars(title[1..])
  }

  /** The filter keeps every occurrence of a title character and drops every
      other character. */
  lemma {:induction false} KeepTitleCharsCounts(title: string)
    ensures forall c :: multiset(KeepTitleChars(title))[c] == if KeptInTitle(c) then multiset(title)[c] else 0
    decreases |title|
  {
    if title != [] {
      KeepTitleCharsCounts(title[1..]);
      assert title == [title[0]] + title[1..];
    }
  }

  /** `str.replace(' ', '_')`. */
  function SpacesToUnderscores(s: string): (r: string)
    ensures |r| == |s|
    ensures forall i :: 0 <= i < |s| ==> r[i] == (if s[i] == ' ' then '_' else s[i])
  {
    seq(|s|, i requires 0 <= i < |s| => if s[i] == ' ' then '_' else s[i])
  }

  /** The cleaned episode title: filtered, stripped, blanks made `_`. */
  function SafeTitle(title: string): (r: string)
    ensures forall i :: 0 <= i < |r| ==> IsAlnum(r[i]) || r[i] == '-' || r[i] == '_'
    ensures |r| <= |title|
  {
    StrippedTitleChars(KeepTitleChars(title));
    SpacesToUnderscores(Strip(KeepTitleChars(title)))
  }

  /** Stripping a filtered title leaves only title characters. */
  lemma StrippedTitleChars(kept: string)
    requires forall i :: 0 <= i < |kept| ==> KeptInTitle(kept[i])
    ensures forall i :: 0 <= i < |Strip(kept)| ==> KeptInTitle(Strip(kept)[i])
  {
    var s := Strip(kept);
    StripKeepsChars(kept);
    forall i | 0 <= i < |s| ensures KeptInTitle(s[i]) {
      assert s[i] in s;
      var j :| 0 <= j < |kept| && kept[j] == s[i];
    }
  }

  /** A string of title characters without blanks passes every step of the
      cleaning unchanged. */
  lemma CleanTitleFixed(t: string)
    requires forall i :: 0 <= i < |t| ==> IsAlnum(t[i]) || t[i] == '-' || t[i] == '_'
    ensures SafeTitle(t) == t
  {
    assert KeepTitleChars(t) == t;
    assert Strip(t) == t by {
      assert Unpadded(t);
      StripUnpadded(t);
    }
    NoBlanksUnchanged(t);
  }

  /** Every character other than the blank and `_` occurs in the cleaned
      title exactly as often as in the title when it is a title character,
      and not at all otherwise: only edge blanks are stripped, and the blank
      is the only white space among the title characters. */
  lemma SafeTitleCounts(title: string)
    ensures forall c :: c != '_' && c != ' ' ==>
              multiset(SafeTitle(title))[c] == if KeptInTitle(c) then multiset(title)[c] else 0
  {
    forall c | c != '_' && c != ' '
      ensures multiset(SafeTitle(title))[c] == if KeptInTitle(c) then multiset(title)[c] else 0
    {
      SafeTitleCount(title, c);
    }
  }

  lemma SafeTitleCount(title: string, c: char)
    requires c != '_' && c != ' '
    ensures multiset(SafeTitle(title))[c] == if KeptInTitle(c) then multiset(title)[c] else 0
  {
    var k := KeepTitleChars(title);
    var st := Strip(k);
    assert SafeTitle(title) == SpacesToUnderscores(st);
    UnderscoresCount(st, c);
    StripCounts(k, c);
    KeepTitleCharsCounts(title);
    assert multiset(k)[c] == if KeptInTitle(c) then multiset(title)[c] else 0;
    if IsSpace(c) {
      assert !KeptInTitle(c);
      assert multiset(st)[c] == 0;
    }
  }

  /** Turning blanks into `_` leaves every other character's count alone. */
  lemma {:induction false} UnderscoresCount(s: string, c: char)
    requires c != '_' && c != ' '
    ensures multiset(SpacesToUnderscores(s))[c] == multiset(s)[c]
    decreases |s|
  {
    if s != [] {
      var n := |s| - 1;
      UnderscoresCount(s[..n], c);
      assert s == s[..n] + [s[n]];
      assert SpacesToUnderscores(s) == SpacesToUnderscores(s[..n]) + SpacesToUnderscores([s[n]]);
    }
  }

  lemma NoBlanksUnchanged(t: string)
    requires forall i :: 0 <= i < |t| ==> IsAlnum(t[i]) || t[i] == '-' || t[i] == '_'
    ensures SpacesToUnderscores(t) == t
  {
    var r := SpacesToUnderscores(t);
    assert forall i :: 0 <= i < |t| ==> r[i] == t[i];
  }

  /** A cleaned title is its own cleaning. */
  lemma SafeTitleIdempotent(title: string)
    ensures SafeTitle(SafeTitle(title)) == SafeTitle(title)
  {
    CleanTitleFixed(SafeTitle(title));
  }

  /** A cleaned title never names a sub-directory. */
  lemma SafeTitleNoSlash(title: string)
    ensures '/' !in SafeTitle(title)
  {
    var t := SafeTitle(title);
    forall i | 0 <= i < |t| ensures t[i] != '/' {
      CleanCharNotSlash(t[i]);
    }
  }

  lemma CleanCharNotSlash(c: char)
    requires IsAlnum(c) || c == '-' || c == '_'
    ensures c != '/'
  {
  }

  /** `_get_filename_from_url`: the URL's basename when it ends in `.mp3`
      (case-sensitive); otherwise the cleaned title, or, for an empty title,
      `episode_` and 8 hash digits; always with `.mp3`. */
  function EpisodeFileName(basename: string, title: string, hash8: string): (r: string)
    ensures EndsWith(r, ".mp3")
    ensures EndsWith(basename, ".mp3") ==> r == basename
    ensures '/' !in basename && '/' !in hash8 ==> '/' !in r
  {
    if EndsWith(basename, ".mp3") && basename != [] then basename
    else if title != [] then
      SafeTitleNoSlash(title);
      EndsWithAppended(SafeTitle(title), ".mp3");
      SafeTitle(title) + ".mp3"
    else
      EndsWithAppended("episode_" + hash8, ".mp3");
      "episode_" + hash8 + ".mp3"
  }

  /** When the basename does not end in `.mp3`, the title decides the name. */
  lemma EpisodeFileNameFallbacks(basename: string, title: string, hash8: string)
    requires !EndsWith(basename, ".mp3")
    ensures title != [] ==> EpisodeFileName(basename, title, hash8) == SafeTitle(title) + ".mp3"
    ensures title == [] ==> EpisodeFileName(basename, title, hash8) == "episode_" + hash8 + ".mp3"
  {
  }

  /** A title whose kept characters need no stripping is cleaned by turning
      its blanks into `_`. */
  lemma SafeTitleOfUnpadded(title: string)
    requires Unpadded(KeepTitleChars(title))
    ensures SafeTitle(title) == SpacesToUnderscores(KeepTitleChars(title))
  {
    StripUnpadded(KeepTitleChars(title));
  }

  /** Example: the filter drops `!`, and the blank becomes `_`. */
  lemma SafeTitleExample(title: string)
    requires title == "Ep 1!"
    ensures SafeTitle(title) == "Ep_1"
  {
    EpTitleKept(title);
    var k := title[..4];
    assert k == "Ep 1";
    assert Unpadded(k) by { assert k[0] == 'E' && k[3] == '1'; }
    SafeTitleOfUnpadded(title);
    EpTitleUnderscored(k);
  }

  lemma EpTitleKept(title: string)
    requires title == "Ep 1!"
    ensures KeepTitleChars(title) == title[..4]
  {
    assert title == title[..4] + "!";
    KeepTitleCharsAppend(title[..4], "!");
    assert KeepTitleChars("!") == [];
  }

  lemma EpTitleUnderscored(t: string)
    requires t == "Ep 1"
    ensures SpacesToUnderscores(t) == "Ep_1"
  {
    var r := SpacesToUnderscores(t);
    assert r[2] == '_';
  }

  /** The filter works character by character. */
  lemma {:induction false} KeepTitleCharsAppend(a: string, b: string)
    requires forall i :: 0 <= i < |a| ==> KeptInTitle(a[i])
    ensures KeepTitleChars(a + b) == a + KeepTitleChars(b)
    decreases |a|
  {
    if a != [] {
      assert (a + b)[1..] == a[1..] + b;
      KeepTitleCharsAppend(a[1..], b);
    } else {
      assert a + b == b;
    }
  }

  /** The filter distributes over concatenation, so it keeps the kept
      characters in their order. With the one-character cases this
      determines it completely. */
  lemma {:induction false} KeepTitleCharsConcat(a: string, b: string)
    ensures KeepTitleChars(a + b) == KeepTitleChars(a) + KeepTitleChars(b)
    decreases |a|
  {
    if a == [] {
      assert a + b == b;
    } else {
      assert (a + b)[0] == a[0];
      assert (a + b)[1..] == a[1..] + b;
      KeepTitleCharsConcat(a[1..], b);
    }
  }

  /** One character passes the filter iff it is a title character. */
  lemma KeepTitleCharsSingle(c: char)
    ensures KeepTitleChars([c]) == if KeptInTitle(c) then [c] else []
  {
    assert [c][1..] == [];
  }

  /** A feed entry without a title is named `Unknown_Episode`. */
  lemma SafeTitleOfUnknown(title: string)
    requires title == UnknownEpisodeTitle
    ensures SafeTitle(title) == "Unknown_Episode"
  {
    UnknownTitleKept(title);
    SafeTitleOfUnpadded(title);
    UnknownTitleUnderscored(title);
  }

  lemma UnknownTitleKept(title: string)
    requires title == "Unknown Episode"
    ensures KeepTitleChars(title) == title
    ensures Unpadded(title)
  {
    assert forall i :: 0 <= i < |title| ==> KeptInTitle(title[i]);
    assert title[0] == 'U' && title[|title| - 1] == 'e';
  }

  lemma UnknownTitleUnderscored(title: string)
    requires title == UnknownEpisodeTitle
    ensures SpacesToUnderscores(title) == "Unknown_Episode"
  {
    var r := SpacesToUnderscores(title);
    assert r[7] == '_';
  }

  /** Example: a basename ending in `.mp3` is used as it is. */
  lemma NameFromBasenameExample()
    ensures EpisodeFileName("show.mp3", "Ep 1", "0123abcd") == "show.mp3"
  {
    assert "show.mp3"[4..] == ".mp3";
  }

  /** Example: the `.mp3` test is case-sensitive, so `show.MP3` falls back
      to the cleaned title. */
  lemma NameFromTitleExample(basename: string, title: string)
    requires basename == "show.MP3" && title == "Ep 1!"
    ensures EpisodeFileName(basename, title, "0123abcd") == "Ep_1.mp3"
  {
    assert basename[4..] != ".mp3";
    EpisodeFileNameFallbacks(basename, title, "0123abcd");
    SafeTitleExample(title);
  }

  /** Example: an entry without a title and without a usable basename. */
  lemma NameForMissingTitleExample(title: string)
    requires title == UnknownEpisodeTitle
    ensures EpisodeFileName("", title, "0123abcd") == "Unknown_Episode.mp3"
  {
    assert !EndsWith("", ".mp3");
    EpisodeFileNameFallbacks("", title, "0123abcd");
    SafeTitleOfUnknown(title);
    UnknownNameSpelled(SafeTitle(title));
  }

  lemma UnknownNameSpelled(s: string)
    requires s == "Unknown_Episode"
    ensures s + ".mp3" == "Unknown_Episode.mp3"
  {
  }

  /** Example: an empty title falls back to the hash. */
  lemma NameFromHashExample()
    ensures EpisodeFileName("feed", "", "0123abcd") == "episode_0123abcd.mp3"
  {
    assert !EndsWith("feed", ".mp3");
  }

  // ---------------------------------------------------------------------
  // Name collisions
  // ---------------------------------------------------------------------

  /** The position of the last `.` in `s`, if any. */
  function LastDot(s: string): (r: Option<nat>)
    ensures r.Some? ==> r.value < |s| && s[r.value] == '.' && '.' !in s[r.value + 1..]
    ensures r.None? ==> '.' !in s
    decreases |s|
  {
    if s == [] then None
    else if s[|s| - 1] == '.' then Some(|s| - 1)
    else
      var r := LastDot(s[..|s| - 1]);
      assert s == s[..|s| - 1] + [s[|s| - 1]];
      r
  }

  /** `PurePath.stem`: the name without its last suffix, where a suffix
      needs a dot that is neither first nor last. */
  function Stem(name: string): string {
    match LastDot(name)
    case Some(i) => if 0 < i < |name| - 1 then name[..i] else name
    case None => name
  }

  /** For a name `x.mp3` the stem is `x`, except that `.mp3` alone is its
      own stem. */
  lemma StemOfMp3(x: string)
    ensures Stem(x + ".mp3") == (if x == [] then ".mp3" else x)
  {
    var n := x + ".mp3";
    assert n[|x|] == '.' && n[|x| + 1..] == "mp3";
  }

  /** `f"{stem}_{counter}.mp3"`. */
  function CollisionName(stem: string, counter: nat): string {
    stem + "_" + NatToString(counter) + ".mp3"
  }

  lemma CollisionNameInjective(stem: string, i: nat, j: nat)
    requires CollisionName(stem, i) == CollisionName(stem, j)
    ensures i == j
  {
    var a, b := CollisionName(stem, i), CollisionName(stem, j);
    assert NatToString(i) == a[|stem| + 1..|a| - 4];
    assert NatToString(j) == b[|stem| + 1..|b| - 4];
    NatToStringInjective(i, j);
  }

  /** An injective map of `1..k` has `k` distinct values. */
  lemma {:induction false} InjectiveImageCount(f: nat -> string, k: nat)
    requires forall i: nat, j: nat :: f(i) == f(j) ==> i == j
    ensures |set j | 1 <= j <= k :: f(j)| == k
    decreases k
  {
    if k > 0 {
      var s := set j | 1 <= j <= k :: f(j);
      var t := set j | 1 <= j <= k - 1 :: f(j);
      InjectiveImageCount(f, k - 1);
      assert s == t + {f(k)};
      assert f(k) !in t;
    }
  }

  lemma CollisionNamesCount(stem: string, k: nat)
    ensures |set j | 1 <= j <= k :: CollisionName(stem, j)| == k
  {
    var f := (j: nat) => CollisionName(stem, j);
    forall i: nat, j: nat | f(i) == f(j) ensures i == j {
      CollisionNameInjective(stem, i, j);
    }
    InjectiveImageCount(f, k);
    var a := set j | 1 <= j <= k :: f(j);
    var b := set j | 1 <= j <= k :: CollisionName(stem, j);
    forall x | x in b ensures x in a {
      var j :| 1 <= j <= k && x == CollisionName(stem, j);
      assert x == f(j);
    }
    assert a == b;
  }

  /** Pigeonhole: a finite folder holds only so many `stem_j.mp3` names, so
      the counter loop ends. */
  lemma TakenBound(stem: string, disk: set<string>, k: nat)
    requires forall j :: 1 <= j <= k ==> CollisionName(stem, j) in disk
    ensures k <= |disk|
  {
    var s := set j | 1 <= j <= k :: CollisionName(stem, j);
    CollisionNamesCount(stem, k);
    assert s <= disk;
    SubsetCard(s, disk);
  }

  lemma SubsetCard(a: set<string>, b: set<string>)
    requires a <= b
    ensures |a| <= |b|
  {
    assert b == a + (b - a);
  }

  /** The smallest counter `>= k` whose collision name is free, given that
      all smaller ones are taken. */
  function FirstFreeSuffix(stem: string, disk: set<string>, k: nat): (r: nat)
    requires k >= 1
    requires forall j :: 1 <= j < k ==> CollisionName(stem, j) in disk
    ensures r >= k
    ensures CollisionName(stem, r) !in disk
    ensures forall j :: 1 <= j < r ==> CollisionName(stem, j) in disk
    decreases |disk| + 1 - k
  {
    if CollisionName(stem, k) !in disk then k
    else
      TakenBound(stem, disk, k);
      FirstFreeSuffix(stem, disk, k + 1)
  }

  /** The free counter is the least one: any free `r` with every smaller
      counter taken is the one `FirstFreeSuffix` finds. */
  lemma FirstFreeSuffixIsLeast(stem: string, disk: set<string>, k: nat, r: nat)
    requires 1 <= k <= r
    requires forall j :: 1 <= j < r ==> CollisionName(stem, j) in disk
    requires CollisionName(stem, r) !in disk
    ensures FirstFreeSuffix(stem, disk, k) == r
  {
  }

  /** The destination the `while dest_file.exists()` loop settles on. */
  function ChosenName(name: string, disk: set<string>): (r: string)
    ensures r !in disk
    ensures name !in disk ==> r == name
    ensures name in disk ==> exists k :: k >= 1 && r == CollisionName(Stem(name), k)
                                         && forall j :: 1 <= j < k ==> CollisionName(Stem(name), j) in disk
  {
    if name !in disk then name
    else CollisionName(Stem(name), FirstFreeSuffix(Stem(name), disk, 1))
  }

  // ---------------------------------------------------------------------
  // The tracking files `.downloaded_files` and `.rejected_files`
  // ---------------------------------------------------------------------

  /** A tracking file as the loader finds it. */
  datatype TrackingFile = Absent | Unreadable | Contents(text: string)

  predicate IsLineBreak(c: char) { c == '\n' || c == '\r' }

  /** The text of a tracking file cut at every `'\n'` and every `'\r'`, line
      ends dropped; a final line break leaves an empty last line. A `"\r\n"`
      pair therefore yields one more, empty, line than Python's
      universal-newline reading, and `UrlSet` drops that line again
      (`CrLfLinesExample`). */
  function Lines(s: string): (r: seq<string>)
    ensures |r| >= 1
    decreases |s|
  {
    if s == [] then [[]]
    else
      var p := Lines(s[..|s| - 1]);
      var c := s[|s| - 1];
      if IsLineBreak(c) then p + [[]]
      else p[..|p| - 1] + [p[|p| - 1] + [c]]
  }

  /** The non-empty values of `clean` over `lines`, line by line. Kept
      generic in `clean` so that proofs about the set never unfold it. */
  function CleanedLines(lines: seq<string>, clean: string -> string): set<string>
    decreases |lines|
  {
    if lines == [] then {}
    else
      var u := clean(lines[|lines| - 1]);
      CleanedLines(lines[..|lines| - 1], clean) + (if u != [] then {u} else {})
  }

  /** The members are exactly the non-empty cleaned lines. */
  lemma {:induction false} CleanedLinesMembers(lines: seq<string>, clean: string -> string, u: string)
    ensures u in CleanedLines(lines, clean) <==> exists i :: 0 <= i < |lines| && clean(lines[i]) != [] && clean(lines[i]) == u
    decreases |lines|
  {
    if lines != [] {
      var init := lines[..|lines| - 1];
      CleanedLinesMembers(init, clean, u);
      if exists i :: 0 <= i < |lines| && clean(lines[i]) != [] && clean(lines[i]) == u {
        var i :| 0 <= i < |lines| && clean(lines[i]) != [] && clean(lines[i]) == u;
        if i < |init| { assert init[i] == lines[i]; }
      }
      if exists i :: 0 <= i < |init| && clean(init[i]) != [] && clean(init[i]) == u {
        var i :| 0 <= i < |init| && clean(init[i]) != [] && clean(init[i]) == u;
        assert lines[i] == init[i];
      }
    }
  }

  lemma CleanedLinesAppendOne(prefix: seq<string>, line: string, clean: string -> string)
    ensures CleanedLines(prefix + [line], clean)
              == CleanedLines(prefix, clean) + (if clean(line) != [] then {clean(line)} else {})
  {
    var l := prefix + [line];
    assert l[..|l| - 1] == prefix;
  }

  /** `{line.strip() for line in f if line.strip()}`. */
  function UrlSet(lines: seq<string>): set<string> {
    CleanedLines(lines, Strip)
  }

  /** Example: `"a\r\nb"` is cut into `a`, an empty line and `b`, and loads
      as the two URLs a universal-newline reading gives. */
  lemma CrLfLinesExample()
    ensures Lines("a\r\nb") == ["a", "", "b"]
    ensures LoadUrls(Contents("a\r\nb")) == {"a", "b"}
  {
    assert "a"[..0] == "";
    assert Lines("") == [""];
    assert "a"[0] == 'a' && !IsLineBreak('a');
    assert [] + ['a'] == "a";
    assert [""][..0] == [];
    assert [""][..0] + [[] + ['a']] == ["a"];
    assert Lines("a") == ["a"];
    assert "a\r"[..1] == "a";
    assert Lines("a\r") == ["a", ""];
    assert "a\r\n"[..2] == "a\r";
    assert Lines("a\r\n") == ["a", "", ""];
    assert "a\r\nb"[..3] == "a\r\n" && "a\r\nb"[3] == 'b';
    assert [] + ['b'] == "b";
    assert ["a", "", ""][..2] == ["a", ""];
    assert Lines("a\r\nb") == ["a", "", "b"];
    StripUnpadded("a");
    StripUnpadded("b");
    assert Strip("") == "";
    CleanedLinesAppendOne([], "a", Strip);
    CleanedLinesAppendOne(["a"], "", Strip);
    CleanedLinesAppendOne(["a", ""], "b", Strip);
  }

  /** Every URL read is non-empty and has no surrounding white space. */
  lemma UrlsAreClean(lines: seq<string>)
    ensures forall u :: u in UrlSet(lines) ==> u != [] && Unpadded(u)
  {
    forall u | u in UrlSet(lines) ensures u != [] && Unpadded(u) {
      CleanedLinesMembers(lines, Strip, u);
    }
  }

  /** `_load_downloaded_urls` / `_load_rejected_urls`: a missing or
      unreadable file gives the empty set. */
  function LoadUrls(f: TrackingFile): (r: set<string>)
    ensures !f.Contents? ==> r == {}
    ensures forall u :: u in r ==> u != [] && Unpadded(u)
  {
    match f
    case Contents(text) =>
      UrlsAreClean(Lines(text));
      UrlSet(Lines(text))
    case _ => {}
  }

  /** `f.write(f"{url}\n")` in append mode, when it succeeds; a missing file
      is created. */
  function AppendLine(f: TrackingFile, url: string, ok: bool): TrackingFile {
    if !ok then f
    else match f
      case Absent => Contents(url + "\n")
      case Unreadable => Unreadable
      case Contents(text) => Contents(text + url + "\n")
  }

  /** A URL the loader reads back as itself: non-empty, no surrounding
      white space, no line break inside. */
  predicate CleanUrl(url: string) {
    url != [] && Unpadded(url) && forall i :: 0 <= i < |url| ==> !IsLineBreak(url[i])
  }

  /** A text every line of which has been ended. */
  predicate EndsLine(text: string) {
    text == [] || IsLineBreak(text[|text| - 1])
  }

  lemma {:induction false} LinesAppendPlain(c: string, u: string)
    requires EndsLine(c)
    requires forall i :: 0 <= i < |u| ==> !IsLineBreak(u[i])
    ensures Lines(c + u) == Lines(c)[..|Lines(c)| - 1] + [u]
    ensures Lines(c)[|Lines(c)| - 1] == []
    decreases |u|
  {
    if c != [] {
      assert c[..|c| - 1] + [c[|c| - 1]] == c;
    }
    if u == [] {
      assert c + u == c;
    } else {
      var v := u[..|u| - 1];
      LinesAppendPlain(c, v);
      var w := c + u;
      assert w[..|w| - 1] == c + v;
      assert w[|w| - 1] == u[|u| - 1];
      assert v + [u[|u| - 1]] == u;
    }
  }

  /** A blank line adds no URL. */
  lemma UrlSetAddBlank(prefix: seq<string>)
    ensures UrlSet(prefix + [[]]) == UrlSet(prefix)
  {
    CleanedLinesAppendOne(prefix, [], Strip);
    StripBlank();
  }

  lemma StripBlank()
    ensures Strip([]) == []
  {
  }

  /** A clean line adds the URL it spells. */
  lemma UrlSetAddUrl(prefix: seq<string>, url: string)
    requires url != [] && Unpadded(url)
    ensures UrlSet(prefix + [url]) == UrlSet(prefix) + {url}
  {
    CleanedLinesAppendOne(prefix, url, Strip);
    StripUnpadded(url);
  }

  /** Appending a line to an ended text replaces its empty last line by the
      new line and a fresh empty one. */
  lemma LinesAfterAppend(c: string, url: string)
    requires EndsLine(c)
    requires forall i :: 0 <= i < |url| ==> !IsLineBreak(url[i])
    ensures Lines(c + url + "\n") == Lines(c)[..|Lines(c)| - 1] + [url] + [[]]
    ensures Lines(c) == Lines(c)[..|Lines(c)| - 1] + [[]]
  {
    LinesAppendPlain(c, url);
    var w := c + url + "\n";
    assert w[..|w| - 1] == c + url;
    var ls := Lines(c);
    assert ls == ls[..|ls| - 1] + [ls[|ls| - 1]];
  }

  /** The URLs of a text with one more clean line are those of the text and
      that line. */
  lemma UrlsAfterAppend(c: string, url: string)
    requires CleanUrl(url) && EndsLine(c)
    ensures UrlSet(Lines(c + url + "\n")) == UrlSet(Lines(c)) + {url}
  {
    LinesAfterAppend(c, url);
    var pre := Lines(c)[..|Lines(c)| - 1];
    UrlsOfNewLine(pre, url);
  }

  /** Putting a clean line before the empty last line adds its URL. */
  lemma UrlsOfNewLine(pre: seq<string>, url: string)
    requires url != [] && Unpadded(url)
    ensures UrlSet(pre + [url] + [[]]) == UrlSet(pre + [[]]) + {url}
  {
    UrlSetAddBlank(pre + [url]);
    UrlSetAddUrl(pre, url);
    UrlSetAddBlank(pre);
  }

  /** Saving then loading: appending a clean URL to a tracking file adds
      exactly that URL to what the loader reads back. */
  lemma AppendThenLoad(f: TrackingFile, url: string)
    requires CleanUrl(url)
    requires f.Contents? ==> EndsLine(f.text)
    requires !f.Unreadable?
    ensures LoadUrls(AppendLine(f, url, true)) == LoadUrls(f) + {url}
    ensures AppendLine(f, url, true).Contents? && EndsLine(AppendLine(f, url, true).text)
  {
    if f.Contents? {
      UrlsAfterAppend(f.text, url);
    } else {
      UrlsAfterAppend([], url);
      assert [] + url + "\n" == url + "\n";
      UrlSetAddBlank([]);
      assert Lines([]) == [] + [[]];
    }
  }

  // ---------------------------------------------------------------------
  // A pass over the feed entries
  // ---------------------------------------------------------------------

  /** Everything `download_episodes` reads or changes: the two URL sets,
      the two tracking files, and the names present in the podcast folder. */
  datatype Store = Store(
    downloaded: set<string>,
    rejected: set<string>,
    downloadedLog: TrackingFile,
    rejectedLog: TrackingFile,
    disk: set<string>)

  /** What happened to one entry. */
  datatype Outcome =
    | NoAudio
    | AlreadySeen(url: string)
    | TooShort(url: string, dest: string)
    | Kept(url: string, dest: string)
    | DownloadFailed(url: string, dest: string)

  predicate Fetches(o: Outcome) {
    o.TooShort? || o.Kept? || o.DownloadFailed?
  }

  function EpisodeTitle(e: Entry): string {
    e.title.GetOr(UnknownEpisodeTitle)
  }

  /** The destination an entry with URL `url` is written to. */
  function EntryDest(e: Entry, url: string, web: Web, disk: set<string>): string {
    ChosenName(EpisodeFileName(web.basename(url), EpisodeTitle(e), web.hash8(url)), disk)
  }

  /** The fate of one entry: no URL or a URL already seen is skipped;
      otherwise it is fetched to a free name and kept or rejected by the
      duration rule, unless the download raised. */
  function EntryOutcome(s: Store, e: Entry, web: Web, minDuration: real): (o: Outcome)
    ensures Fetches(o) ==> o.url !in s.downloaded && o.url !in s.rejected
                           && o.dest !in s.disk && Some(o.url) == AudioUrl(e)
    ensures o.NoAudio? <==> AudioUrl(e).None?
  {
    match AudioUrl(e)
    case None => NoAudio
    case Some(url) =>
      if url in s.downloaded || url in s.rejected then AlreadySeen(url)
      else
        FetchOutcome(url, EntryDest(e, url, web, s.disk), web.fetch(url), minDuration)
  }

  /** The fetch of a new URL to `dest`: kept or rejected by the duration
      rule, unless the download raised. */
  function FetchOutcome(url: string, dest: string, download: Download, minDuration: real): (o: Outcome)
    ensures Fetches(o) && o.url == url && o.dest == dest
    ensures o.Kept? <==> download.Fetched? && !IsTooShort(download.duration, minDuration)
  {
    match download
    case Failed => DownloadFailed(url, dest)
    case Fetched(d) => if IsTooShort(d, minDuration) then TooShort(url, dest) else Kept(url, dest)
  }

  /** The effect of an outcome on the store. A too-short file is deleted and
      its URL saved as rejected; a kept file stays and its URL is saved as
      downloaded; in either case the URL joins the in-memory set only when
      the append succeeded. A failed download leaves nothing behind. */
  function ApplyOutcome(s: Store, o: Outcome, web: Web): Store {
    match o
    case TooShort(url, _) =>
      var ok := web.rejectedAppendOk(url);
      s.(rejected := if ok then s.rejected + {url} else s.rejected,
         rejectedLog := AppendLine(s.rejectedLog, url, ok))
    case Kept(url, dest) =>
      var ok := web.downloadedAppendOk(url);
      s.(disk := s.disk + {dest},
         downloaded := if ok then s.downloaded + {url} else s.downloaded,
         downloadedLog := AppendLine(s.downloadedLog, url, ok))
    case _ => s
  }

  datatype Pass = Pass(store: Store, outcomes: seq<Outcome>)

  /** The reference definition of `download_episodes` over a list of
      entries, entry by entry in feed order. */
  function RunEntries(s: Store, entries: seq<Entry>, web: Web, minDuration: real): (p: Pass)
    ensures |p.outcomes| == |entries|
    decreases |entries|
  {
    if entries == [] then Pass(s, [])
    else
      var p := RunEntries(s, entries[..|entries| - 1], web, minDuration);
      var o := EntryOutcome(p.store, entries[|entries| - 1], web, minDuration);
      Pass(ApplyOutcome(p.store, o, web), p.outcomes + [o])
  }

  /** `download_episodes`: a feed that cannot be parsed changes nothing. */
  function RunFeed(s: Store, feed: Feed, web: Web, minDuration: real): Pass {
    match feed
    case Unparseable => Pass(s, [])
    case Parsed(entries) => RunEntries(s, entries, web, minDuration)
  }

  /** One more entry: the pass over a prefix one entry longer applies that
      entry's outcome to the shorter pass. */
  lemma RunEntriesStep(s: Store, entries: seq<Entry>, i: nat, web: Web, minDuration: real)
    requires i < |entries|
    ensures var p := RunEntries(s, entries[..i], web, minDuration);
            var o := EntryOutcome(p.store, entries[i], web, minDuration);
            RunEntries(s, entries[..i + 1], web, minDuration) == Pass(ApplyOutcome(p.store, o, web), p.outcomes + [o])
  {
    assert entries[..i + 1][..i] == entries[..i];
  }

  /** The files `download_episodes` returns: the kept destinations, in order. */
  function KeptFiles(outcomes: seq<Outcome>): (r: seq<string>)
    ensures |r| <= |outcomes|
    decreases |outcomes|
  {
    if outcomes == [] then []
    else
      var o := outcomes[|outcomes| - 1];
      KeptFiles(outcomes[..|outcomes| - 1]) + (if o.Kept? then [o.dest] else [])
  }

  /** The two URL sets and the folder only grow. */
  lemma {:induction false} RunGrows(s: Store, entries: seq<Entry>, web: Web, minDuration: real)
    ensures var t := RunEntries(s, entries, web, minDuration).store;
            s.downloaded <= t.downloaded && s.rejected <= t.rejected && s.disk <= t.disk
    decreases |entries|
  {
    if entries != [] {
      RunGrows(s, entries[..|entries| - 1], web, minDuration);
    }
  }

  /** No re-fetch: a URL that is in either set when a pass starts is never
      fetched during it; and every URL a pass does fetch is fetched once,
      unless its download raised (a raised download records nothing). */
  lemma {:induction false} RunNeverRefetches(s: Store, entries: seq<Entry>, web: Web, minDuration: real)
    ensures var os := RunEntries(s, entries, web, minDuration).outcomes;
            forall i :: 0 <= i < |os| && Fetches(os[i]) ==>
              os[i].url !in s.downloaded && os[i].url !in s.rejected
    ensures var os := RunEntries(s, entries, web, minDuration).outcomes;
            forall i, j :: 0 <= i < j < |os| && Fetches(os[i]) && Fetches(os[j]) && os[i].url == os[j].url ==>
              os[i].DownloadFailed? || !RecordedBy(os[i], web)
    decreases |entries|
  {
    if entries != [] {
      var init := entries[..|entries| - 1];
      var p := RunEntries(s, init, web, minDuration);
      RunNeverRefetches(s, init, web, minDuration);
      RunGrows(s, init, web, minDuration);
      RecordedUrlsStay(s, init, web, minDuration);
    }
  }

  /** Whether an outcome put its URL into one of the sets. */
  predicate RecordedBy(o: Outcome, web: Web) {
    (o.TooShort? && web.rejectedAppendOk(o.url)) || (o.Kept? && web.downloadedAppendOk(o.url))
  }

  /** One outcome only adds: to the sets, to the folder; and a recorded URL
      is in its set afterwards. */
  lemma ApplyOutcomeGrows(s: Store, o: Outcome, web: Web)
    ensures var t := ApplyOutcome(s, o, web);
            && s.downloaded <= t.downloaded && s.rejected <= t.rejected && s.disk <= t.disk
            && (RecordedBy(o, web) ==> o.url in t.downloaded + t.rejected)
            && (t.disk == if o.Kept? then s.disk + {o.dest} else s.disk)
  {
  }

  predicate RecordedIn(o: Outcome, s: Store)
    requires Fetches(o)
  {
    o.url in s.downloaded + s.rejected
  }

  /** Every URL an outcome recorded is in the sets at the end of the pass. */
  lemma {:induction false} RecordedUrlsStay(s: Store, entries: seq<Entry>, web: Web, minDuration: real)
    ensures forall i :: 0 <= i < |entries| && RecordedBy(RunEntries(s, entries, web, minDuration).outcomes[i], web) ==>
              RecordedIn(RunEntries(s, entries, web, minDuration).outcomes[i], RunEntries(s, entries, web, minDuration).store)
    decreases |entries|
  {
    if entries != [] {
      var n := |entries| - 1;
      RecordedUrlsStay(s, entries[..n], web, minDuration);
      var p := RunEntries(s, entries[..n], web, minDuration);
      var o := EntryOutcome(p.store, entries[n], web, minDuration);
      var full := RunEntries(s, entries, web, minDuration);
      assert entries[..n] == entries[..|entries| - 1];
      assert full == Pass(ApplyOutcome(p.store, o, web), p.outcomes + [o]);
      ApplyOutcomeGrows(p.store, o, web);
      forall i | 0 <= i < |full.outcomes| && RecordedBy(full.outcomes[i], web)
        ensures full.outcomes[i].url in full.store.downloaded + full.store.rejected
      {
        if i < n {
          assert full.outcomes[i] == p.outcomes[i];
          assert RecordedBy(p.outcomes[i], web);
          assert RecordedIn(p.outcomes[i], p.store);
        } else {
          assert full.outcomes[i] == o;
        }
      }
    }
  }

  /** Every file of `kept` is new to `disk`, and none appears twice. */
  predicate FreshAndDistinct(kept: seq<string>, disk: set<string>) {
    && (forall i :: 0 <= i < |kept| ==> kept[i] !in disk)
    && (forall i, j :: 0 <= i < j < |kept| ==> kept[i] != kept[j])
  }

  lemma KeptFilesStep(outcomes: seq<Outcome>, o: Outcome)
    ensures KeptFiles(outcomes + [o]) == KeptFiles(outcomes) + (if o.Kept? then [o.dest] else [])
  {
    assert (outcomes + [o])[..|outcomes|] == outcomes;
  }

  /** One outcome adds its kept file, if any, to the folder. */
  lemma DiskStep(s: Store, p: Pass, o: Outcome, web: Web)
    requires p.store.disk == s.disk + set f | f in KeptFiles(p.outcomes)
    ensures ApplyOutcome(p.store, o, web).disk == s.disk + set f | f in KeptFiles(p.outcomes + [o])
  {
    ApplyOutcomeGrows(p.store, o, web);
    KeptFilesStep(p.outcomes, o);
    var kept := KeptFiles(p.outcomes);
    if o.Kept? {
      assert (set f | f in kept + [o.dest]) == (set f | f in kept) + {o.dest};
    } else {
      assert KeptFiles(p.outcomes + [o]) == kept;
    }
  }

  /** One outcome keeps the kept files new and distinct, given that a kept
      destination is not yet in the folder. */
  lemma FreshStep(s: Store, p: Pass, o: Outcome)
    requires p.store.disk == s.disk + set f | f in KeptFiles(p.outcomes)
    requires FreshAndDistinct(KeptFiles(p.outcomes), s.disk)
    requires o.Kept? ==> o.dest !in p.store.disk
    ensures FreshAndDistinct(KeptFiles(p.outcomes + [o]), s.disk)
  {
    KeptFilesStep(p.outcomes, o);
    var kept := KeptFiles(p.outcomes);
    if o.Kept? {
      assert forall i :: 0 <= i < |kept| ==> kept[i] in p.store.disk;
      assert KeptFiles(p.outcomes + [o]) == kept + [o.dest];
    } else {
      assert KeptFiles(p.outcomes + [o]) == kept;
    }
  }

  /** The kept files are exactly what the pass adds to the folder. */
  lemma {:induction false} RunDiskGrowsByKept(s: Store, entries: seq<Entry>, web: Web, minDuration: real)
    ensures RunEntries(s, entries, web, minDuration).store.disk
              == s.disk + set f | f in KeptFiles(RunEntries(s, entries, web, minDuration).outcomes)
    decreases |entries|
  {
    if entries != [] {
      var n := |entries| - 1;
      RunDiskGrowsByKept(s, entries[..n], web, minDuration);
      var p := RunEntries(s, entries[..n], web, minDuration);
      var o := EntryOutcome(p.store, entries[n], web, minDuration);
      assert entries[..n] == entries[..|entries| - 1];
      assert RunEntries(s, entries, web, minDuration) == Pass(ApplyOutcome(p.store, o, web), p.outcomes + [o]);
      DiskStep(s, p, o, web);
    }
  }

  /** The kept files are new names in the folder, and pairwise distinct. */
  lemma {:induction false} RunKeptFiles(s: Store, entries: seq<Entry>, web: Web, minDuration: real)
    ensures FreshAndDistinct(KeptFiles(RunEntries(s, entries, web, minDuration).outcomes), s.disk)
    decreases |entries|
  {
    if entries != [] {
      var n := |entries| - 1;
      RunKeptFiles(s, entries[..n], web, minDuration);
      RunDiskGrowsByKept(s, entries[..n], web, minDuration);
      var p := RunEntries(s, entries[..n], web, minDuration);
      var o := EntryOutcome(p.store, entries[n], web, minDuration);
      assert entries[..n] == entries[..|entries| - 1];
      assert RunEntries(s, entries, web, minDuration).outcomes == p.outcomes + [o];
      FreshStep(s, p, o);
    }
  }

  /** Run the same feed twice: when no download raised and every save
      succeeded, the second pass fetches nothing, keeps nothing and changes
      nothing. */
  lemma SecondRunIsIdle(s: Store, entries: seq<Entry>, web: Web, minDuration: real)
    requires forall u :: web.downloadedAppendOk(u) && web.rejectedAppendOk(u)
    requires forall i :: 0 <= i < |RunEntries(s, entries, web, minDuration).outcomes| ==>
               !RunEntries(s, entries, web, minDuration).outcomes[i].DownloadFailed?
    ensures var t := RunEntries(s, entries, web, minDuration).store;
            var q := RunEntries(t, entries, web, minDuration);
            && q.store == t
            && KeptFiles(q.outcomes) == []
            && forall i :: 0 <= i < |q.outcomes| ==> !Fetches(q.outcomes[i])
  {
    var t := RunEntries(s, entries, web, minDuration).store;
    SeenAfterRun(s, entries, web, minDuration);
    IdleWhenAllSeen(t, entries, web, minDuration);
  }

  /** After a pass without raised downloads and with working saves, every
      entry's URL is in one of the sets. */
  lemma {:induction false} SeenAfterRun(s: Store, entries: seq<Entry>, web: Web, minDuration: real)
    requires forall u :: web.downloadedAppendOk(u) && web.rejectedAppendOk(u)
    requires forall i :: 0 <= i < |RunEntries(s, entries, web, minDuration).outcomes| ==>
               !RunEntries(s, entries, web, minDuration).outcomes[i].DownloadFailed?
    ensures var t := RunEntries(s, entries, web, minDuration).store;
            forall i :: 0 <= i < |entries| && AudioUrl(entries[i]).Some? ==>
              AudioUrl(entries[i]).value in t.downloaded + t.rejected
    decreases |entries|
  {
    if entries != [] {
      var n := |entries| - 1;
      var init := entries[..n];
      var p := RunEntries(s, init, web, minDuration);
      var full := RunEntries(s, entries, web, minDuration);
      assert full.outcomes[..n] == p.outcomes;
      forall i | 0 <= i < |p.outcomes| ensures !p.outcomes[i].DownloadFailed? {
        assert p.outcomes[i] == full.outcomes[i];
      }
      SeenAfterRun(s, init, web, minDuration);
      assert full.outcomes[n] == EntryOutcome(p.store, entries[n], web, minDuration);
      forall i | 0 <= i < |entries| && AudioUrl(entries[i]).Some?
        ensures AudioUrl(entries[i]).value in full.store.downloaded + full.store.rejected
      {
        if i < n {
          assert entries[i] == init[i];
        }
      }
    }
  }

  /** A pass over entries whose URLs are all already in the sets skips them
      all. */
  lemma {:induction false} IdleWhenAllSeen(t: Store, entries: seq<Entry>, web: Web, minDuration: real)
    requires forall i :: 0 <= i < |entries| && AudioUrl(entries[i]).Some? ==>
               AudioUrl(entries[i]).value in t.downloaded + t.rejected
    ensures var q := RunEntries(t, entries, web, minDuration);
            && q.store == t
            && KeptFiles(q.outcomes) == []
            && forall i :: 0 <= i < |q.outcomes| ==> !Fetches(q.outcomes[i])
    decreases |entries|
  {
    if entries != [] {
      var n := |entries| - 1;
      var init := entries[..n];
      forall i | 0 <= i < |init| && AudioUrl(init[i]).Some?
        ensures AudioUrl(init[i]).value in t.downloaded + t.rejected
      {
        assert init[i] == entries[i];
      }
      IdleWhenAllSeen(t, init, web, minDuration);
      var q := RunEntries(t, entries, web, minDuration);
      assert q.outcomes[..n] == RunEntries(t, init, web, minDuration).outcomes;
    }
  }

  /** The tracking files and the in-memory sets stay in step: when each set
      is what its file loads to before the pass, and every URL met is clean,
      each still is afterwards. */
  lemma {:induction false} RunKeepsLogsInSync(s: Store, entries: seq<Entry>, web: Web, minDuration: real)
    requires InSync(s)
    requires forall i :: 0 <= i < |entries| && AudioUrl(entries[i]).Some? ==> CleanUrl(AudioUrl(entries[i]).value)
    ensures InSync(RunEntries(s, entries, web, minDuration).store)
    decreases |entries|
  {
    if entries != [] {
      var n := |entries| - 1;
      var init := entries[..n];
      forall i | 0 <= i < |init| && AudioUrl(init[i]).Some?
        ensures CleanUrl(AudioUrl(init[i]).value)
      {
        assert init[i] == entries[i];
      }
      RunKeepsLogsInSync(s, init, web, minDuration);
      var p := RunEntries(s, init, web, minDuration);
      var o := EntryOutcome(p.store, entries[n], web, minDuration);
      assert init == entries[..|entries| - 1];
      assert RunEntries(s, entries, web, minDuration).store == ApplyOutcome(p.store, o, web);
      SyncStep(p.store, o, web);
    }
  }

  /** One outcome with a clean URL keeps the sets and the files in step. */
  lemma SyncStep(s: Store, o: Outcome, web: Web)
    requires InSync(s)
    requires Fetches(o) ==> CleanUrl(o.url)
    ensures InSync(ApplyOutcome(s, o, web))
  {
    if o.TooShort? && web.rejectedAppendOk(o.url) {
      AppendThenLoad(s.rejectedLog, o.url);
    } else if o.Kept? && web.downloadedAppendOk(o.url) {
      AppendThenLoad(s.downloadedLog, o.url);
    }
  }

  /** Each set is what its tracking file loads to, and each file can be
      read and ends its last line. */
  predicate InSync(s: Store) {
    && !s.downloadedLog.Unreadable? && !s.rejectedLog.Unreadable?
    && (s.downloadedLog.Contents? ==> EndsLine(s.downloadedLog.text))
    && (s.rejectedLog.Contents? ==> EndsLine(s.rejectedLog.text))
    && s.downloaded == LoadUrls(s.downloadedLog)
    && s.rejected == LoadUrls(s.rejectedLog)
  }

  // ---------------------------------------------------------------------
  // Local eviction
  // ---------------------------------------------------------------------

  /** The files `get_local_files` deletes, in listing order. */
  function Evicted(files: seq<string>, probe: string -> real, minDuration: real): seq<string>
    decreases |files|
  {
    if files == [] then []
    else
      var f := files[|files| - 1];
      Evicted(files[..|files| - 1], probe, minDuration) + (if IsTooShort(probe(f), minDuration) then [f] else [])
  }

  /** The files `get_local_files` returns, in listing order. */
  function Survivors(files: seq<string>, probe: string -> real, minDuration: real): seq<string>
    decreases |files|
  {
    if files == [] then []
    else
      var f := files[|files| - 1];
      Survivors(files[..|files| - 1], probe, minDuration) + (if IsTooShort(probe(f), minDuration) then [] else [f])
  }

  /** Exactly the too-short files are deleted and exactly the others are
      returned. */
  lemma {:induction false} EvictionMembers(files: seq<string>, probe: string -> real, minDuration: real)
    ensures forall f :: f in Evicted(files, probe, minDuration) <==> f in files && IsTooShort(probe(f), minDuration)
    ensures forall f :: f in Survivors(files, probe, minDuration) <==> f in files && !IsTooShort(probe(f), minDuration)
    decreases |files|
  {
    if files != [] {
      var init := files[..|files| - 1];
      EvictionMembers(init, probe, minDuration);
      assert files == init + [files[|files| - 1]];
    }
  }

  /** The listing splits into survivors and evicted files, nothing lost or
      added. */
  lemma {:induction false} SurvivorsSplit(files: seq<string>, probe: string -> real, minDuration: real)
    ensures multiset(Survivors(files, probe, minDuration)) + multiset(Evicted(files, probe, minDuration)) == multiset(files)
    decreases |files|
  {
    if files != [] {
      var n := |files| - 1;
      SurvivorsSplit(files[..n], probe, minDuration);
      assert multiset(files) == multiset(files[..n]) + multiset{files[n]} by {
        assert files == files[..n] + [files[n]];
      }
    }
  }

  /** A listing without short files is returned as it is. */
  lemma {:induction false} SurvivorsKeepAll(files: seq<string>, probe: string -> real, minDuration: real)
    requires forall i :: 0 <= i < |files| ==> !IsTooShort(probe(files[i]), minDuration)
    ensures Survivors(files, probe, minDuration) == files
    decreases |files|
  {
    if files != [] {
      var n := |files| - 1;
      var init := files[..n];
      assert forall i :: 0 <= i < |init| ==> init[i] == files[i];
      SurvivorsKeepAll(init, probe, minDuration);
      assert files == init + [files[n]];
    }
  }

  /** The survivors keep their listing order: filtering commutes with
      concatenation. */
  lemma {:induction false} SurvivorsAppend(a: seq<string>, b: seq<string>, probe: string -> real, minDuration: real)
    ensures Survivors(a + b, probe, minDuration) == Survivors(a, probe, minDuration) + Survivors(b, probe, minDuration)
    decreases |b|
  {
    if b == [] {
      assert a + b == a;
    } else {
      var binit := b[..|b| - 1];
      SurvivorsAppend(a, binit, probe, minDuration);
      assert (a + b)[..|a + b| - 1] == a + binit;
    }
  }
}
