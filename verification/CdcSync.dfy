/** The change-data listener: which event files a sync takes, and what it does to the cache (src/cdc_sync.rs). */
module CdcSync {
  import opened Options
  import Lru
  import opened CacheLayer

  /** A directory entry as listed: unreadable, or a path whose contents may fail to read. */
  datatype DirEntry = Unlisted | File(path: string, content: Option<string>)

  /** The last component of a path. */
  function FileName(path: string): string {
    if '/' in path then FileName(path[1..]) else path
  }

  /** Rust's `Path::extension() == "json"`: a file name of the form `x.json` with `x` non-empty. */
  predicate HasJsonExtension(path: string) {
    var name := FileName(path);
    |name| > 5 && name[|name| - 5..] == ".json"
  }

  /** The name part of a path: what follows the last separator, or the whole path. */
  lemma {:induction false} FileNameIsLastPart(before: string, name: string)
    requires '/' !in name
    ensures FileName(name) == name && FileName(before + "/" + name) == name
  {
    var path := before + "/" + name;
    assert path[|before|] == '/';
    if before == "" {
      assert path[1..] == name;
    } else {
      assert path[1..] == before[1..] + "/" + name;
      FileNameIsLastPart(before[1..], name);
    }
  }

  lemma {:induction false} FileNameEndsPath(path: string) returns (before: string)
    ensures '/' !in FileName(path)
    ensures path == FileName(path) || path == before + "/" + FileName(path)
  {
    before := "";
    if '/' in path {
      var tail := path[1..];
      var b := FileNameEndsPath(tail);
      assert path == [path[0]] + tail;
      if '/' in tail {
        before := [path[0]] + b;
        assert [path[0]] + (b + "/" + FileName(tail)) == before + "/" + FileName(tail);
      } else {
        assert path[0] == '/' && FileName(tail) == tail;
        assert path == "" + "/" + tail;
      }
    }
  }

  /** The event files are those named `x.json`, in any directory, where `x` is not empty. */
  lemma JsonFilesAre(path: string)
    ensures HasJsonExtension(path) <==>
      exists before, stem :: stem != "" && '/' !in stem && (path == stem + ".json" || path == before + "/" + (stem + ".json"))
  {
    hide FileName;
    var name := FileName(path);
    var b := FileNameEndsPath(path);
    if HasJsonExtension(path) {
      var stem := name[..|name| - 5];
      assert name == stem + ".json";
      assert '/' !in stem && (path == stem + ".json" || path == b + "/" + (stem + ".json"));
    }
    if before, stem :| stem != "" && '/' !in stem && (path == stem + ".json" || path == before + "/" + (stem + ".json")) {
      FileNameIsLastPart(before, stem + ".json");
      assert name == stem + ".json";
      assert name[|name| - 5..] == ".json";
    }
  }

  /** An entry a sync takes, given what was processed before it. */
  predicate IsNew(processed: set<string>, e: DirEntry) {
    e.File? && HasJsonExtension(e.path) && e.path !in processed && e.content.Some?
  }

  function ProcessedAfter(processed: set<string>, entries: seq<DirEntry>): set<string> {
    if entries == [] then processed
    else
      var before, e := ProcessedAfter(processed, entries[..|entries| - 1]), entries[|entries| - 1];
      if IsNew(before, e) then before + {e.path} else before
  }

  function EventsOf(processed: set<string>, entries: seq<DirEntry>): seq<string> {
    if entries == [] then []
    else
      var init, e := entries[..|entries| - 1], entries[|entries| - 1];
      EventsOf(processed, init) + if IsNew(ProcessedAfter(processed, init), e) then [e.content.value] else []
  }

  /** Each event path is counted once, and a path is taken exactly if it is json, readable somewhere and was not taken before. */
  lemma {:induction false} EventsAreCountedOnce(processed: set<string>, entries: seq<DirEntry>)
    ensures |ProcessedAfter(processed, entries)| == |processed| + |EventsOf(processed, entries)|
    ensures forall p :: p in ProcessedAfter(processed, entries) <==>
      p in processed || (HasJsonExtension(p) && exists i | 0 <= i < |entries| :: entries[i].File? && entries[i].path == p && entries[i].content.Some?)
  {
    if entries != [] {
      var init, e := entries[..|entries| - 1], entries[|entries| - 1];
      EventsAreCountedOnce(processed, init);
      assert forall i | 0 <= i < |init| :: init[i] == entries[i];
      forall p | p in ProcessedAfter(processed, init) ensures p in ProcessedAfter(processed, entries) {
      }
    }
  }

  /** What a listing contributes; a path that is not a local directory, or cannot be listed, contributes nothing. */
  function Listed(listing: Option<seq<DirEntry>>): seq<DirEntry> {
    if listing.Some? then listing.value else []
  }

  /** The processed set after a series of syncs from a fresh listener. */
  function ProcessedByAll(listings: seq<Option<seq<DirEntry>>>): set<string> {
    if listings == [] then {}
    else ProcessedAfter(ProcessedByAll(listings[..|listings| - 1]), Listed(listings[|listings| - 1]))
  }

  /** The sum of what those syncs returned. */
  function TotalReturned(listings: seq<Option<seq<DirEntry>>>): nat {
    if listings == [] then 0
    else
      var init := listings[..|listings| - 1];
      TotalReturned(init) + |EventsOf(ProcessedByAll(init), Listed(listings[|listings| - 1]))|
  }

  /** Over any series of syncs the return values sum to the number of processed paths. */
  lemma {:induction false} ReturnsSumToProcessed(listings: seq<Option<seq<DirEntry>>>)
    ensures TotalReturned(listings) == |ProcessedByAll(listings)|
  {
    if listings != [] {
      var init := listings[..|listings| - 1];
      ReturnsSumToProcessed(init);
      EventsAreCountedOnce(ProcessedByAll(init), Listed(listings[|listings| - 1]));
    }
  }

  /** A json file that could not be read is still pending: the first listing that reads it takes it. */
  lemma UnreadableStaysPending(processed: set<string>, entries: seq<DirEntry>, path: string, later: seq<DirEntry>, i: nat, content: string)
    requires path !in processed && HasJsonExtension(path)
    requires forall k | 0 <= k < |entries| :: entries[k].File? && entries[k].path == path ==> entries[k].content.None?
    requires i < |later| && later[i] == File(path, Some(content))
    ensures path !in ProcessedAfter(processed, entries)
    ensures path in ProcessedAfter(ProcessedAfter(processed, entries), later)
    ensures |EventsOf(ProcessedAfter(processed, entries), later)| > 0
  {
    EventsAreCountedOnce(processed, entries);
    var now := ProcessedAfter(processed, entries);
    EventsAreCountedOnce(now, later);
    assert now < ProcessedAfter(now, later);
    assert ProcessedAfter(now, later) == now + (ProcessedAfter(now, later) - now);
  }

  class CdcListener {
    var processed: set<string>

    constructor ()
      ensures processed == {}
    {
      processed := {};
    }

    method ReadNewLocalEvents(listing: Option<seq<DirEntry>>) returns (events: seq<string>)
      modifies this
      ensures events == EventsOf(old(processed), Listed(listing))
      ensures processed == ProcessedAfter(old(processed), Listed(listing))
    {
      events := [];
      if listing.None? {
        return;
      }
      var entries := listing.value;
      for i := 0 to |entries|
        invariant processed == ProcessedAfter(old(processed), entries[..i])
        invariant events == EventsOf(old(processed), entries[..i])
      {
        assert entries[..i + 1][..i] == entries[..i];
        var entry := entries[i];
        if entry.File? && HasJsonExtension(entry.path) && entry.path !in processed {
          match entry.content
          case Some(content) =>
            processed := processed + {entry.path};
            events := events + [content];
          case None =>
        }
      }
      assert entries[..|entries|] == entries;
    }

    /** One uninterrupted sync: any new event empties the cache, no event leaves it alone. */
    method Sync<V>(isDir: bool, listing: Option<seq<DirEntry>>, cache: Cache<V>) returns (n: nat)
      requires cache.Valid()
      modifies this, cache
      ensures cache.Valid()
      ensures !isDir ==> n == 0 && processed == old(processed)
      ensures isDir ==> n == |EventsOf(old(processed), Listed(listing))| && processed == ProcessedAfter(old(processed), Listed(listing))
      ensures cache.Snapshot() == if n > 0 then Lru.Clear(old(cache.Snapshot())) else old(cache.Snapshot())
    {
      if !isDir {
        return 0;
      }
      var events := ReadNewLocalEvents(listing);
      if events != [] {
        var empty := cache.IsEmpty();
        if !empty {
          cache.Clear();
        }
      }
      n := |events|;
    }
  }
}
