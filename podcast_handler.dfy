/** tonuino_organizer/podcast_handler.py: the `PodcastHandler` class, whose
    fields the download pass and the local clean-up update in place, and
    `process_podcast`. Each method is proved against the reference
    definitions of podcast_rules.dfy. The podcast folder is the set of names
    it holds; the network, the duration probe, the MD5 hash, URL parsing and
    the directory walk are oracles passed in as parameters. */
module Podcast {
  import opened Wrappers
  import opened PodcastRules

  /** The `for enclosure in entry.enclosures` (or `entry.links`) loop: the
      `href` of the first audio link, the loop stopping there. */
  method FirstAudioHref(links: seq<Link>) returns (href: Option<string>)
    ensures href == AudioHref(links)
  {
    href := None;
    var i := 0;
    while i < |links|
      invariant 0 <= i <= |links|
      invariant FirstAudioFrom(links, 0) == FirstAudioFrom(links, i)
      invariant href == None
    {
      if IsAudio(links[i]) {
        href := links[i].href;
        return;
      }
      i := i + 1;
    }
  }

  /** The URL selection of `download_episodes`: the enclosures first, the
      links only when that gave nothing truthy; a falsy result skips the
      entry. */
  method SelectAudioUrl(e: Entry) returns (url: Option<string>)
    ensures url == AudioUrl(e)
  {
    url := FirstAudioHref(e.enclosures);
    if !Truthy(url) {
      url := FirstAudioHref(e.links);
    }
    if !Truthy(url) {
      url := None;
    }
  }

  class PodcastHandler {
    const minDuration: real
    var downloadedUrls: set<string>
    var rejectedUrls: set<string>
    /** `.downloaded_files` and `.rejected_files`. */
    var downloadedLog: TrackingFile
    var rejectedLog: TrackingFile
    /** The names present in the podcast folder. */
    var disk: set<string>

    /** The handler's state as the value the reference definitions use. */
    function Snapshot(): Store
      reads this
    {
      Store(downloadedUrls, rejectedUrls, downloadedLog, rejectedLog, disk)
    }

    /** `__init__`: both URL sets are loaded from their tracking files. */
    constructor (minDuration: real, downloadedLog: TrackingFile, rejectedLog: TrackingFile, disk: set<string>)
      ensures this.minDuration == minDuration
      ensures Snapshot() == Store(LoadUrls(downloadedLog), LoadUrls(rejectedLog), downloadedLog, rejectedLog, disk)
    {
      this.minDuration := minDuration;
      this.downloadedLog := downloadedLog;
      this.rejectedLog := rejectedLog;
      this.disk := disk;
      this.downloadedUrls := LoadUrls(downloadedLog);
      this.rejectedUrls := LoadUrls(rejectedLog);
    }

    /** `_save_downloaded_url`: the URL joins the set only when the append
        succeeded. */
    method SaveDownloadedUrl(url: string, ok: bool)
      modifies this
      ensures Snapshot() == old(Snapshot()).(
                downloaded := if ok then old(downloadedUrls) + {url} else old(downloadedUrls),
                downloadedLog := AppendLine(old(downloadedLog), url, ok))
    {
      downloadedLog := AppendLine(downloadedLog, url, ok);
      if ok {
        downloadedUrls := downloadedUrls + {url};
      }
    }

    /** `_save_rejected_url`. */
    method SaveRejectedUrl(url: string, ok: bool)
      modifies this
      ensures Snapshot() == old(Snapshot()).(
                rejected := if ok then old(rejectedUrls) + {url} else old(rejectedUrls),
                rejectedLog := AppendLine(old(rejectedLog), url, ok))
    {
      rejectedLog := AppendLine(rejectedLog, url, ok);
      if ok {
        rejectedUrls := rejectedUrls + {url};
      }
    }

    /** The `while dest_file.exists()` loop: `name`, or else the first
        `<stem>_<counter>.mp3` not in the folder. */
    method ResolveCollision(name: string) returns (dest: string)
      ensures dest == ChosenName(name, disk)
      ensures dest !in disk
    {
      var stem := Stem(name);
      dest := name;
      var counter := 1;
      while dest in disk
        invariant counter >= 1
        invariant dest == if counter == 1 then name else CollisionName(stem, counter - 1)
        invariant counter > 1 ==> name in disk
        invariant forall j :: 1 <= j < counter - 1 ==> CollisionName(stem, j) in disk
        decreases |disk| + 2 - counter
      {
        if counter > 1 {
          TakenBound(stem, disk, counter - 1);
        }
        dest := CollisionName(stem, counter);
        counter := counter + 1;
      }
      if counter > 1 {
        FirstFreeSuffixIsLeast(stem, disk, 1, counter - 1);
        assert ChosenName(name, disk) == CollisionName(stem, counter - 1);
      }
    }

    /** The `try` block of `download_episodes`: the file is written to
        `dest`, then deleted and its URL rejected when it is too short, or
        kept and its URL saved as downloaded. A download that raises leaves
        nothing behind. */
    method FetchEpisode(url: string, dest: string, web: Web) returns (kept: seq<string>)
      requires dest !in disk
      modifies this
      ensures var o := FetchOutcome(url, dest, web.fetch(url), minDuration);
              Snapshot() == ApplyOutcome(old(Snapshot()), o, web)
              && kept == if o.Kept? then [dest] else []
    {
      kept := [];
      match web.fetch(url)
      case Failed =>
      case Fetched(duration) =>
        disk := disk + {dest};
        if IsTooShort(duration, minDuration) {
          disk := disk - {dest};
          SaveRejectedUrl(url, web.rejectedAppendOk(url));
        } else {
          kept := [dest];
          SaveDownloadedUrl(url, web.downloadedAppendOk(url));
        }
    }

    /** One iteration of the entry loop of `download_episodes`. */
    method ProcessEntry(e: Entry, web: Web) returns (kept: seq<string>)
      modifies this
      ensures Snapshot() == ApplyOutcome(old(Snapshot()), EntryOutcome(old(Snapshot()), e, web, minDuration), web)
      ensures kept == KeptFiles([EntryOutcome(old(Snapshot()), e, web, minDuration)])
    {
      ghost var o := EntryOutcome(Snapshot(), e, web, minDuration);
      KeptFilesStep([], o);
      kept := [];
      var url := SelectAudioUrl(e);
      if url.None? {
        return;
      }
      var u := url.value;
      if u in downloadedUrls || u in rejectedUrls {
        return;
      }
      var fileName := EpisodeFileName(web.basename(u), EpisodeTitle(e), web.hash8(u));
      var dest := ResolveCollision(fileName);
      kept := FetchEpisode(u, dest, web);
    }

    /** `download_episodes`: a feed that cannot be parsed changes nothing;
        otherwise each entry in feed order. Returns the kept files. */
    method DownloadEpisodes(feed: Feed, web: Web) returns (files: seq<string>)
      modifies this
      ensures Snapshot() == RunFeed(old(Snapshot()), feed, web, minDuration).store
      ensures files == KeptFiles(RunFeed(old(Snapshot()), feed, web, minDuration).outcomes)
    {
      files := [];
      if feed.Unparseable? {
        return;
      }
      var entries := feed.entries;
      ghost var s0 := Snapshot();
      var i := 0;
      while i < |entries|
        invariant 0 <= i <= |entries|
        invariant Snapshot() == RunEntries(s0, entries[..i], web, minDuration).store
        invariant files == KeptFiles(RunEntries(s0, entries[..i], web, minDuration).outcomes)
      {
        ghost var p := RunEntries(s0, entries[..i], web, minDuration);
        var kept := ProcessEntry(entries[i], web);
        RunEntriesStep(s0, entries, i, web, minDuration);
        KeptFilesStep(p.outcomes, EntryOutcome(p.store, entries[i], web, minDuration));
        KeptFilesStep([], EntryOutcome(p.store, entries[i], web, minDuration));
        files := files + kept;
        i := i + 1;
      }
      assert entries[..i] == entries;
    }

    /** `get_local_files`: deletes the too-short files of the listing, then
        returns the others in listing order. */
    method GetLocalFiles(listing: seq<string>, probe: string -> real) returns (files: seq<string>)
      modifies this
      ensures files == Survivors(listing, probe, minDuration)
      ensures Snapshot() == old(Snapshot()).(disk := old(disk) - set f | f in Evicted(listing, probe, minDuration))
    {
      var removed := RemoveTooShort(listing, probe);
      files := FilterRemoved(listing, removed, probe, minDuration);
    }

    /** The first loop of `get_local_files`: each too-short file is deleted
        and remembered, in listing order. */
    method RemoveTooShort(listing: seq<string>, probe: string -> real) returns (removed: seq<string>)
      modifies this
      ensures removed == Evicted(listing, probe, minDuration)
      ensures Snapshot() == old(Snapshot()).(disk := old(disk) - set f | f in removed)
    {
      removed := [];
      var i := 0;
      while i < |listing|
        invariant 0 <= i <= |listing|
        invariant removed == Evicted(listing[..i], probe, minDuration)
        invariant Snapshot() == old(Snapshot()).(disk := old(disk) - set f | f in removed)
      {
        var f := listing[i];
        assert listing[..i + 1][..i] == listing[..i];
        if IsTooShort(probe(f), minDuration) {
          disk := disk - {f};
          removed := removed + [f];
        }
        i := i + 1;
      }
      assert listing[..i] == listing;
    }
  }

  /** `[f for f in mp3_files if f not in files_to_remove]`: with the removed
      files being the evicted ones, exactly the survivors remain. */
  method FilterRemoved(listing: seq<string>, removed: seq<string>, probe: string -> real, minDuration: real)
    returns (files: seq<string>)
    requires removed == Evicted(listing, probe, minDuration)
    ensures files == Survivors(listing, probe, minDuration)
  {
    EvictionMembers(listing, probe, minDuration);
    files := [];
    var j := 0;
    while j < |listing|
      invariant 0 <= j <= |listing|
      invariant files == Survivors(listing[..j], probe, minDuration)
    {
      var f := listing[j];
      assert listing[..j + 1][..j] == listing[..j];
      assert f in listing;
      if f !in removed {
        files := files + [f];
      }
      j := j + 1;
    }
    assert listing[..j] == listing;
  }

  /** `process_podcast`: the handler is built from the tracking files; with
      `update` it downloads first; then the folder's MP3 files, as
      `find_mp3_files` lists them, are cleaned of too-short ones. Returns the
      remaining files and the handler's final state: URL sets and tracking
      files as the download pass left them, and the folder without the
      evicted files. */
  method ProcessPodcast(minDuration: real, update: bool, feed: Feed, web: Web,
                        downloadedLog: TrackingFile, rejectedLog: TrackingFile, disk: set<string>,
                        findMp3: set<string> -> seq<string>, probe: string -> real)
    returns (files: seq<string>, final: Store)
    ensures var s := Store(LoadUrls(downloadedLog), LoadUrls(rejectedLog), downloadedLog, rejectedLog, disk);
            var mid := if update then RunFeed(s, feed, web, minDuration).store else s;
            && files == Survivors(findMp3(mid.disk), probe, minDuration)
            && final == mid.(disk := mid.disk - set f | f in Evicted(findMp3(mid.disk), probe, minDuration))
  {
    var handler := new PodcastHandler(minDuration, downloadedLog, rejectedLog, disk);
    if update {
      var _ := handler.DownloadEpisodes(feed, web);
    }
    files := handler.GetLocalFiles(findMp3(handler.disk), probe);
    final := handler.Snapshot();
  }
}
