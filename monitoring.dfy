/** The monitor's fusion of a status snapshot with the manifest catalog
    (monitor.py): the entries it builds and the name cache it keeps, the
    lazily fetched library list, and the console rendering grouped by status.
    The progress text after the N/A guard is an abstract function. */
module Monitoring {
  import opened Common
  import opened Text
  import opened LogParser
  import opened Manifests

  /** `GameEntry`: one line of the report. */
  datatype GameEntry = GameEntry(
    name: string,
    status: string,
    rate: string,
    appid: string,
    downloadedBytes: int,
    totalBytes: int,
    remainingBytes: int)

  /** The status string a snapshot carries. */
  function StatusText(s: Status): string {
    match s
    case Downloading => "downloading"
    case Paused => "paused"
    case Unknown => "unknown"
  }

  /** The snapshot names an active title: its id is present and non-empty. */
  predicate HasActive(snap: Snapshot) {
    snap.appid.Some? && snap.appid.value != ""
  }

  /** The rate shown for the active title: the zero marker when paused, else
      the snapshot's rate when non-empty, else "N/A". */
  function ActiveRate(snap: Snapshot): string {
    if snap.status == Paused then ZeroRate
    else if snap.rate.Some? && snap.rate.value != "" then snap.rate.value
    else "N/A"
  }

  /** A snapshot status is never shown as "queued", and never empty. */
  lemma StatusTextNotQueued(s: Status)
    ensures StatusText(s) != "queued" && StatusText(s) != ""
  {
  }

  /** The active rate is never empty: paused shows the zero marker, any
      other status shows the snapshot's rate when it is non-empty, and "N/A"
      when it is missing or empty. */
  lemma ActiveRateFacts(snap: Snapshot)
    ensures ActiveRate(snap) != ""
    ensures snap.status == Paused ==> ActiveRate(snap) == ZeroRate
    ensures snap.status != Paused ==>
      (ActiveRate(snap) == "N/A" <==> snap.rate.None? || snap.rate.value == "" || snap.rate.value == "N/A")
    ensures snap.status != Paused && snap.rate.Some? && snap.rate.value != "" ==> ActiveRate(snap) == snap.rate.value
  {
  }

  /** The manifests with bytes left to download, in input order. */
  function Pending(ms: seq<Manifest>): seq<Manifest> {
    if ms == [] then []
    else
      var m := ms[|ms| - 1];
      Pending(ms[..|ms| - 1]) + (if RemainingBytes(m) > 0 then [m] else [])
  }

  /** A manifest is pending exactly when it is in the catalog with bytes left. */
  lemma {:induction false} PendingMembers(ms: seq<Manifest>)
    ensures forall m :: m in Pending(ms) <==> m in ms && RemainingBytes(m) > 0
  {
    if ms != [] {
      var init := ms[..|ms| - 1];
      PendingMembers(init);
      assert ms == init + [ms[|ms| - 1]];
    }
  }

  /** The entry of a pending manifest: the snapshot's status and the active
      rate for the active title, "queued" and "N/A" for the others. */
  function PendingEntry(snap: Snapshot, m: Manifest): GameEntry {
    var active := HasActive(snap) && m.appid == snap.appid.value;
    GameEntry(m.name,
              if active then StatusText(snap.status) else "queued",
              if active then ActiveRate(snap) else "N/A",
              m.appid, m.bytesDownloaded, m.bytesToDownload, RemainingBytes(m))
  }

  function PendingEntries(snap: Snapshot, pending: seq<Manifest>): (es: seq<GameEntry>)
    ensures |es| == |pending|
    ensures forall i :: 0 <= i < |pending| ==> es[i] == PendingEntry(snap, pending[i])
  {
    if pending == [] then []
    else PendingEntries(snap, pending[..|pending| - 1]) + [PendingEntry(snap, pending[|pending| - 1])]
  }

  /** The name cache after the pending loop: each pending manifest writes its name. */
  function CacheNames(cache: map<string, string>, pending: seq<Manifest>): map<string, string> {
    if pending == [] then cache
    else
      var m := pending[|pending| - 1];
      CacheNames(cache, pending[..|pending| - 1])[m.appid := m.name]
  }

  /** Some manifest of `ms` has the id `id`. */
  predicate HasAppId(ms: seq<Manifest>, id: string) {
    exists i :: 0 <= i < |ms| && ms[i].appid == id
  }

  /** `{m.appid: m for m in manifests}.get(id)`: the last manifest with the id. */
  function LastByAppId(ms: seq<Manifest>, id: string): (r: Option<Manifest>)
    ensures r.None? <==> !HasAppId(ms, id)
    ensures r.Some? ==> r.value.appid == id && r.value in ms
    ensures r.Some? ==> exists i :: 0 <= i < |ms| && ms[i] == r.value && forall j :: i < j < |ms| ==> ms[j].appid != id
  {
    if ms == [] then None
    else if ms[|ms| - 1].appid == id then Some(ms[|ms| - 1])
    else
      var r := LastByAppId(ms[..|ms| - 1], id);
      assert forall i :: 0 <= i < |ms| - 1 ==> ms[..|ms| - 1][i] == ms[i];
      r
  }

  /** The active title needs an entry of its own: it is set and no pending
      manifest carries it. */
  predicate NeedsExtra(snap: Snapshot, manifests: seq<Manifest>) {
    HasActive(snap) && !HasAppId(Pending(manifests), snap.appid.value)
  }

  /** The name of the extra entry: the cached name (which the catalog manifest
      has just written, when there is one), else the manifest's name, else
      "AppID <id>". */
  function ExtraName(id: string, found: Option<Manifest>, cache: map<string, string>): string {
    var cache1 := if found.Some? then cache[id := found.value.name] else cache;
    if id in cache1 && cache1[id] != "" then cache1[id]
    else if found.Some? && found.value.name != "" then found.value.name
    else "AppID " + id
  }

  /** The extra entry for the active title, with counters from the catalog or zero. */
  function ExtraEntry(snap: Snapshot, manifests: seq<Manifest>, cache: map<string, string>): GameEntry
    requires HasActive(snap)
  {
    var id := snap.appid.value;
    var found := LastByAppId(manifests, id);
    GameEntry(ExtraName(id, found, cache), StatusText(snap.status), ActiveRate(snap), id,
              if found.Some? then found.value.bytesDownloaded else 0,
              if found.Some? then found.value.bytesToDownload else 0,
              if found.Some? then RemainingBytes(found.value) else 0)
  }

  /** What `_build_entries` returns for a snapshot, the catalog and the name
      cache it starts from. */
  function Entries(snap: Snapshot, manifests: seq<Manifest>, cache: map<string, string>): seq<GameEntry> {
    var pending := Pending(manifests);
    var c := CacheNames(cache, pending);
    PendingEntries(snap, pending) + (if NeedsExtra(snap, manifests) then [ExtraEntry(snap, manifests, c)] else [])
  }

  /** The name cache `_build_entries` leaves behind. */
  function CacheAfter(snap: Snapshot, manifests: seq<Manifest>, cache: map<string, string>): map<string, string> {
    var c := CacheNames(cache, Pending(manifests));
    if NeedsExtra(snap, manifests) then
      var found := LastByAppId(manifests, snap.appid.value);
      if found.Some? then c[snap.appid.value := found.value.name] else c
    else c
  }

  /** One entry per pending manifest, in order, then at most one extra entry. */
  lemma EntriesShape(snap: Snapshot, manifests: seq<Manifest>, cache: map<string, string>)
    ensures var es := Entries(snap, manifests, cache); var pending := Pending(manifests);
      |es| == |pending| + (if NeedsExtra(snap, manifests) then 1 else 0)
      && (forall i :: 0 <= i < |pending| ==>
            es[i].appid == pending[i].appid && es[i].name == pending[i].name
            && es[i].downloadedBytes == pending[i].bytesDownloaded
            && es[i].totalBytes == pending[i].bytesToDownload
            && es[i].remainingBytes == RemainingBytes(pending[i]) > 0)
  {
    var pending := Pending(manifests);
    PendingMembers(manifests);
    forall i | 0 <= i < |pending| ensures RemainingBytes(pending[i]) > 0 {
      assert pending[i] in pending;
    }
  }

  /** Only entries of the active title leave the queue: every other pending
      entry is "queued" at "N/A", and the active one carries the snapshot's
      status and the active rate. */
  lemma EntriesStatus(snap: Snapshot, manifests: seq<Manifest>, cache: map<string, string>)
    ensures var es := Entries(snap, manifests, cache);
      forall i :: 0 <= i < |es| ==>
        (es[i].status == "queued" <==> !(HasActive(snap) && es[i].appid == snap.appid.value))
        && (es[i].status != "queued" ==> es[i].status == StatusText(snap.status) && es[i].rate == ActiveRate(snap))
        && (es[i].status == "queued" ==> es[i].rate == "N/A")
  {
  }

  /** The extra entry comes last, names the active title, and its name is
      never empty; its counters are those of the last catalog manifest of the
      title, or zero without one. */
  lemma ExtraEntryFacts(snap: Snapshot, manifests: seq<Manifest>, cache: map<string, string>)
    requires NeedsExtra(snap, manifests)
    ensures var es := Entries(snap, manifests, cache); var e := es[|es| - 1];
      e.appid == snap.appid.value && e.name != "" && e.status == StatusText(snap.status)
      && e.rate == ActiveRate(snap)
      && (!HasAppId(manifests, snap.appid.value) ==> e.downloadedBytes == 0 && e.totalBytes == 0 && e.remainingBytes == 0)
      && (HasAppId(manifests, snap.appid.value) ==>
            var m := LastByAppId(manifests, snap.appid.value).value;
            e.downloadedBytes == m.bytesDownloaded && e.totalBytes == m.bytesToDownload
            && e.remainingBytes == RemainingBytes(m))
  {
  }

  /** The extra entry's name: the catalog manifest's name when it is
      non-empty; without a catalog manifest, the cached name when non-empty;
      otherwise "AppID <id>". */
  lemma ExtraNameOrder(id: string, found: Option<Manifest>, cache: map<string, string>)
    ensures found.Some? && found.value.name != "" ==> ExtraName(id, found, cache) == found.value.name
    ensures found.None? && id in cache && cache[id] != "" ==> ExtraName(id, found, cache) == cache[id]
    ensures (found.Some? && found.value.name == "") || (found.None? && (id !in cache || cache[id] == ""))
            ==> ExtraName(id, found, cache) == "AppID " + id
  {
  }

  /** The pending loop writes every pending name and removes nothing: a title
      ends up with the name of its last pending manifest, and a key it does
      not write keeps its old name. */
  lemma {:induction false} CacheNamesFacts(cache: map<string, string>, pending: seq<Manifest>)
    ensures var c := CacheNames(cache, pending);
      cache.Keys <= c.Keys
      && (forall i :: 0 <= i < |pending| ==> pending[i].appid in c)
      && (forall k :: k in cache && !HasAppId(pending, k) ==> c[k] == cache[k])
      && (forall i :: 0 <= i < |pending| && LastOfTitle(pending, i) ==> c[pending[i].appid] == pending[i].name)
  {
    if pending != [] {
      var init := pending[..|pending| - 1];
      CacheNamesFacts(cache, init);
      forall i | 0 <= i < |pending| - 1 ensures pending[i] == init[i] {
      }
      forall i | 0 <= i < |pending| - 1 && LastOfTitle(pending, i)
        ensures LastOfTitle(init, i)
      {
      }
    }
  }

  /** No manifest after index `i` has the title of `ms[i]`. */
  predicate LastOfTitle(ms: seq<Manifest>, i: nat)
    requires i < |ms|
  {
    forall j :: i < j < |ms| ==> ms[j].appid != ms[i].appid
  }

  /** The cache only grows; afterwards every pending title has the name of
      its last pending manifest, and an extra title found in the catalog has
      the name of its last catalog manifest. */
  lemma CacheGrows(snap: Snapshot, manifests: seq<Manifest>, cache: map<string, string>)
    ensures var c := CacheAfter(snap, manifests, cache); var pending := Pending(manifests);
      cache.Keys <= c.Keys && (forall m :: m in pending ==> m.appid in c)
      && (forall i :: 0 <= i < |pending| && LastOfTitle(pending, i) ==> c[pending[i].appid] == pending[i].name)
      && (NeedsExtra(snap, manifests) && HasAppId(manifests, snap.appid.value) ==>
            c[snap.appid.value] == LastByAppId(manifests, snap.appid.value).value.name)
  {
    var pending := Pending(manifests);
    CacheNamesFacts(cache, pending);
    forall i | 0 <= i < |pending| && NeedsExtra(snap, manifests)
      ensures pending[i].appid != snap.appid.value
    {
    }
  }

  /** The body of the pending loop: "queued" at "N/A" unless the manifest is
      the active title. */
  method MakeEntry(snap: Snapshot, m: Manifest, activeRate: string) returns (entry: GameEntry)
    requires activeRate == ActiveRate(snap)
    ensures entry == PendingEntry(snap, m)
  {
    var status := "queued";
    var rate := "N/A";
    if snap.appid.Some? && snap.appid.value != "" && m.appid == snap.appid.value {
      status := StatusText(snap.status);
      rate := activeRate;
    }
    entry := GameEntry(m.name, status, rate, m.appid, m.bytesDownloaded, m.bytesToDownload, RemainingBytes(m));
  }

  /** `SteamDownloadMonitor`: the state `_build_entries` and
      `_get_library_paths` keep between samples. `providerCalls` counts the
      calls to the library provider. */
  class Monitor {
    var nameCache: map<string, string>
    var libraryPaths: Option<seq<string>>
    ghost var providerCalls: nat

    /** The provider has been called once exactly when the list is cached. */
    ghost predicate Valid()
      reads this
    {
      providerCalls == if libraryPaths.Some? then 1 else 0
    }

    constructor ()
      ensures Valid() && nameCache == map[] && libraryPaths == None
    {
      nameCache := map[];
      libraryPaths := None;
      providerCalls := 0;
    }

    /** `_build_entries`: the pending loop, then the extra entry for an active
        title that no pending manifest carries. */
    method BuildEntries(snap: Snapshot, manifests: seq<Manifest>) returns (entries: seq<GameEntry>)
      modifies this
      ensures entries == Entries(snap, manifests, old(nameCache))
      ensures nameCache == CacheAfter(snap, manifests, old(nameCache))
      ensures libraryPaths == old(libraryPaths) && providerCalls == old(providerCalls)
    {
      var pending := Pending(manifests);
      var activeRate := if snap.status == Paused then "0 Mbps"
                        else if snap.rate.Some? && snap.rate.value != "" then snap.rate.value else "N/A";
      assert activeRate == ActiveRate(snap);
      entries := QueuePending(snap, pending, activeRate);
      ghost var cached := nameCache;

      var inPending := false;
      if snap.appid.Some? && snap.appid.value != "" {
        var id := snap.appid.value;
        inPending := HasAppId(pending, id);
        if !inPending {
          var found := LastByAppId(manifests, id);
          var name := "";
          var downloaded, total, remaining := 0, 0, 0;
          if found.Some? {
            name := found.value.name;
            downloaded := found.value.bytesDownloaded;
            total := found.value.bytesToDownload;
            remaining := RemainingBytes(found.value);
            nameCache := nameCache[id := found.value.name];
          }
          if id in nameCache && nameCache[id] != "" {
            name := nameCache[id];
          }
          if name == "" {
            name := "AppID " + id;
          }
          assert name == ExtraName(id, found, cached);
          assert NeedsExtra(snap, manifests);
          entries := entries + [GameEntry(name, StatusText(snap.status), activeRate, id, downloaded, total, remaining)];
        }
      }
    }

    /** The loop of `_build_entries` over the pending manifests: one entry
        each, and each writes its name into the cache. */
    method QueuePending(snap: Snapshot, pending: seq<Manifest>, activeRate: string) returns (entries: seq<GameEntry>)
      requires activeRate == ActiveRate(snap)
      modifies this
      ensures entries == PendingEntries(snap, pending)
      ensures nameCache == CacheNames(old(nameCache), pending)
      ensures libraryPaths == old(libraryPaths) && providerCalls == old(providerCalls)
    {
      entries := [];
      var i := 0;
      while i < |pending|
        invariant 0 <= i <= |pending|
        invariant entries == PendingEntries(snap, pending[..i])
        invariant nameCache == CacheNames(old(nameCache), pending[..i])
        invariant libraryPaths == old(libraryPaths) && providerCalls == old(providerCalls)
      {
        var m := pending[i];
        var entry := MakeEntry(snap, m, activeRate);
        nameCache := nameCache[m.appid := m.name];
        entries := entries + [entry];
        assert pending[..i + 1][..i] == pending[..i];
        i := i + 1;
      }
      assert pending[..|pending|] == pending;
    }

    /** `_get_library_paths`: the provider's list, fetched on the first call
        only. `provided` is what the provider would return now. */
    method GetLibraryPaths(provided: seq<string>) returns (paths: seq<string>)
      requires Valid()
      modifies this
      ensures Valid() && providerCalls <= 1 && nameCache == old(nameCache)
      ensures old(libraryPaths).Some? ==> paths == old(libraryPaths).value && libraryPaths == old(libraryPaths)
      ensures old(libraryPaths).None? ==> paths == provided && libraryPaths == Some(provided)
    {
      if libraryPaths.None? {
        libraryPaths := Some(provided);
        providerCalls := providerCalls + 1;
      }
      paths := libraryPaths.value;
    }
  }

  /** Two calls in a row: the provider runs at most once and both calls return
      the same list. */
  method LibraryPathsTwice(monitor: Monitor, first: seq<string>, second: seq<string>) returns (a: seq<string>, b: seq<string>)
    requires monitor.Valid()
    modifies monitor
    ensures a == b && monitor.providerCalls <= old(monitor.providerCalls) + 1 && monitor.providerCalls <= 1
  {
    a := monitor.GetLibraryPaths(first);
    b := monitor.GetLibraryPaths(second);
  }

  /** The line printed when no group has an entry. */
  const Placeholder: string := "Нет активных загрузок"

  /** `_format_progress`: "Progress: N/A" when the total is not positive,
      otherwise the detailed text, which `detail` stands for. */
  function FormatProgress(detail: (int, int, int) -> string, downloaded: int, total: int, remaining: int): string {
    if total <= 0 then "Progress: N/A" else detail(downloaded, total, remaining)
  }

  /** The N/A text appears exactly for a non-positive total, as long as the
      detailed text is never that text itself. */
  lemma FormatProgressGuard(detail: (int, int, int) -> string, downloaded: int, total: int, remaining: int)
    requires total > 0 ==> detail(downloaded, total, remaining) != "Progress: N/A"
    ensures FormatProgress(detail, downloaded, total, remaining) == "Progress: N/A" <==> total <= 0
  {
  }

  /** The entries with a given status, in order. */
  function Group(entries: seq<GameEntry>, status: string): (g: seq<GameEntry>)
    ensures forall e :: e in g <==> e in entries && e.status == status
    ensures |g| <= |entries|
  {
    if entries == [] then []
    else
      var e := entries[|entries| - 1];
      var init := entries[..|entries| - 1];
      assert entries == init + [e];
      Group(init, status) + (if e.status == status then [e] else [])
  }

  /** Grouping keeps the order of the entries: the group of `a + b` is the
      group of `a` followed by the group of `b`. */
  lemma {:induction false} GroupAppend(a: seq<GameEntry>, b: seq<GameEntry>, status: string)
    ensures Group(a + b, status) == Group(a, status) + Group(b, status)
    decreases |b|
  {
    if b == [] {
      assert a + b == a;
    } else {
      var init := b[..|b| - 1];
      assert (a + b)[..|a + b| - 1] == a + init;
      assert (a + b)[|a + b| - 1] == b[|b| - 1];
      GroupAppend(a, init, status);
    }
  }

  /** The indices below `n` of the entries with a given status. */
  function WithStatus(entries: seq<GameEntry>, status: string, n: nat): set<nat>
    requires n <= |entries|
  {
    set i: nat | i < n && entries[i].status == status
  }

  /** The count in a section title is the number of entries with that status. */
  lemma {:induction false} GroupCount(entries: seq<GameEntry>, status: string)
    ensures |Group(entries, status)| == |WithStatus(entries, status, |entries|)|
  {
    if entries != [] {
      var n := |entries| - 1;
      var init := entries[..n];
      GroupCount(init, status);
      assert WithStatus(init, status, n) == WithStatus(entries, status, n) by {
        forall i | 0 <= i < n ensures init[i] == entries[i] {
        }
      }
      WithStatusStep(entries, status, n);
    }
  }

  /** Adding index `n` adds it to the set exactly when its entry has the status. */
  lemma WithStatusStep(entries: seq<GameEntry>, status: string, n: nat)
    requires n < |entries|
    ensures |WithStatus(entries, status, n + 1)| == |WithStatus(entries, status, n)| + (if entries[n].status == status then 1 else 0)
  {
    var before := WithStatus(entries, status, n);
    var after := WithStatus(entries, status, n + 1);
    var added: set<nat> := if entries[n].status == status then {n} else {};
    assert n !in before;
    forall i: nat | i in after ensures i in before + added {
      if i < n { assert i in before; }
    }
    forall i: nat | i in before + added ensures i in after {
    }
    assert after == before + added;
  }

  /** A group is empty exactly when no entry has its status. */
  lemma {:induction false} GroupEmpty(entries: seq<GameEntry>, status: string)
    ensures Group(entries, status) == [] <==> forall i :: 0 <= i < |entries| ==> entries[i].status != status
  {
    if entries != [] {
      var init := entries[..|entries| - 1];
      GroupEmpty(init, status);
      forall i | 0 <= i < |init| ensures init[i] == entries[i] {
      }
    }
  }

  /** `self.titles.get(status, status)`. */
  function Title(titles: map<string, string>, status: string): string {
    if status in titles then titles[status] else status
  }

  /** The line of one entry. */
  function ItemLine(detail: (int, int, int) -> string, e: GameEntry): string {
    "- " + e.name + " | Rate: " + e.rate + " | " + FormatProgress(detail, e.downloadedBytes, e.totalBytes, e.remainingBytes)
  }

  function ItemLines(detail: (int, int, int) -> string, items: seq<GameEntry>): (ls: seq<string>)
    ensures |ls| == |items|
    ensures forall i :: 0 <= i < |items| ==> ls[i] == ItemLine(detail, items[i])
  {
    if items == [] then []
    else ItemLines(detail, items[..|items| - 1]) + [ItemLine(detail, items[|items| - 1])]
  }

  /** The section of one non-empty group: its title with the count, then its items. */
  function Section(titles: map<string, string>, detail: (int, int, int) -> string, status: string, items: seq<GameEntry>): seq<string> {
    if items == [] then []
    else [Title(titles, status) + " (" + NatToString(|items|) + ")"] + ItemLines(detail, items)
  }

  /** The sections of the statuses in `order`, in that order. */
  function Sections(titles: map<string, string>, order: seq<string>, detail: (int, int, int) -> string, entries: seq<GameEntry>): seq<string> {
    if order == [] then []
    else
      var status := order[|order| - 1];
      Sections(titles, order[..|order| - 1], detail, entries) + Section(titles, detail, status, Group(entries, status))
  }

  /** What `render` returns. */
  function Rendered(titles: map<string, string>, order: seq<string>, detail: (int, int, int) -> string,
                    timestamp: string, entries: seq<GameEntry>): seq<string> {
    var body := Sections(titles, order, detail, entries);
    ["[" + timestamp + "]"] + (if body == [] then [Placeholder] else body) + [""]
  }

  /** No section is printed exactly when no entry has a status listed in `order`. */
  lemma {:induction false} SectionsEmpty(titles: map<string, string>, order: seq<string>, detail: (int, int, int) -> string, entries: seq<GameEntry>)
    ensures Sections(titles, order, detail, entries) == [] <==>
      forall j, i :: 0 <= j < |order| && 0 <= i < |entries| ==> entries[i].status != order[j]
  {
    if order != [] {
      var init := order[..|order| - 1];
      var status := order[|order| - 1];
      SectionsEmpty(titles, init, detail, entries);
      GroupEmpty(entries, status);
      forall j | 0 <= j < |init| ensures init[j] == order[j] {
      }
    }
  }

  /** The report starts with the timestamp line, ends with an empty line, and
      carries the placeholder exactly when no entry has a status in `order`. */
  lemma RenderedFrame(titles: map<string, string>, order: seq<string>, detail: (int, int, int) -> string,
                      timestamp: string, entries: seq<GameEntry>)
    ensures var r := Rendered(titles, order, detail, timestamp, entries);
      |r| >= 3 && r[0] == "[" + timestamp + "]" && r[|r| - 1] == ""
      && (r[1] == Placeholder && |r| == 3 <==>
            forall j, i :: 0 <= j < |order| && 0 <= i < |entries| ==> entries[i].status != order[j])
  {
    SectionsEmpty(titles, order, detail, entries);
    var body := Sections(titles, order, detail, entries);
    if body != [] {
      SectionStartsWithTitle(titles, order, detail, entries);
    }
  }

  /** The status at index `j` of `order` is the first one with entries. */
  predicate FirstShown(entries: seq<GameEntry>, order: seq<string>, j: nat)
    requires j < |order|
  {
    Group(entries, order[j]) != [] && forall k :: 0 <= k < j ==> Group(entries, order[k]) == []
  }

  /** `lines` opens with the title of `status` with the count of `items`,
      then the line of its first item. */
  predicate OpensWith(titles: map<string, string>, detail: (int, int, int) -> string,
                      lines: seq<string>, status: string, items: seq<GameEntry>)
  {
    |lines| >= 2 && items != []
    && lines[0] == Title(titles, status) + " (" + NatToString(|items|) + ")"
    && lines[1] == ItemLine(detail, items[0])
  }

  /** What opens `lines` still opens it after more lines are appended. */
  lemma OpensWithAppend(titles: map<string, string>, detail: (int, int, int) -> string,
                        lines: seq<string>, more: seq<string>, status: string, items: seq<GameEntry>)
    requires OpensWith(titles, detail, lines, status, items)
    ensures OpensWith(titles, detail, lines + more, status, items)
  {
    assert (lines + more)[0] == lines[0] && (lines + more)[1] == lines[1];
  }

  /** The section of a non-empty group opens with its title and first item. */
  lemma SectionOpens(titles: map<string, string>, detail: (int, int, int) -> string, status: string, items: seq<GameEntry>)
    requires items != []
    ensures OpensWith(titles, detail, Section(titles, detail, status, items), status, items)
  {
    var ls := ItemLines(detail, items);
    assert ls[0] == ItemLine(detail, items[0]);
  }

  /** A body whose earlier statuses print nothing opens with the section of
      the last status of `order`. */
  lemma SectionsOpenAtLast(titles: map<string, string>, order: seq<string>, detail: (int, int, int) -> string, entries: seq<GameEntry>)
    requires order != [] && Sections(titles, order, detail, entries) != []
    requires Sections(titles, order[..|order| - 1], detail, entries) == []
    ensures FirstShown(entries, order, |order| - 1)
    ensures OpensWith(titles, detail, Sections(titles, order, detail, entries), order[|order| - 1], Group(entries, order[|order| - 1]))
  {
    var init := order[..|order| - 1];
    var status := order[|order| - 1];
    var items := Group(entries, status);
    SectionsEmpty(titles, init, detail, entries);
    forall k | 0 <= k < |init| ensures Group(entries, order[k]) == [] {
      assert init[k] == order[k];
      GroupEmpty(entries, order[k]);
    }
    SectionOpens(titles, detail, status, items);
  }

  /** What opens the body of a prefix of `order` still opens the whole body. */
  lemma SectionsOpenInPrefix(titles: map<string, string>, order: seq<string>, detail: (int, int, int) -> string,
                             entries: seq<GameEntry>, j: nat)
    requires order != [] && j < |order| - 1
    requires FirstShown(entries, order[..|order| - 1], j)
    requires OpensWith(titles, detail, Sections(titles, order[..|order| - 1], detail, entries), order[j], Group(entries, order[j]))
    ensures FirstShown(entries, order, j)
    ensures OpensWith(titles, detail, Sections(titles, order, detail, entries), order[j], Group(entries, order[j]))
  {
    var init := order[..|order| - 1];
    var status := order[|order| - 1];
    assert init[j] == order[j];
    forall k | 0 <= k < j ensures Group(entries, order[k]) == [] {
      assert init[k] == order[k];
    }
    OpensWithAppend(titles, detail, Sections(titles, init, detail, entries),
                    Section(titles, detail, status, Group(entries, status)), order[j], Group(entries, order[j]));
  }

  /** A non-empty body opens with the section of the first status in `order`
      that has entries: its title with the count, then its first item. */
  lemma {:induction false} SectionStartsWithTitle(titles: map<string, string>, order: seq<string>, detail: (int, int, int) -> string, entries: seq<GameEntry>)
    requires Sections(titles, order, detail, entries) != []
    ensures exists j :: 0 <= j < |order| && FirstShown(entries, order, j)
                        && OpensWith(titles, detail, Sections(titles, order, detail, entries), order[j], Group(entries, order[j]))
  {
    var init := order[..|order| - 1];
    if Sections(titles, init, detail, entries) != [] {
      SectionStartsWithTitle(titles, init, detail, entries);
      var j :| 0 <= j < |init| && FirstShown(entries, init, j)
               && OpensWith(titles, detail, Sections(titles, init, detail, entries), init[j], Group(entries, init[j]));
      assert init[j] == order[j];
      SectionsOpenInPrefix(titles, order, detail, entries, j);
    } else {
      SectionsOpenAtLast(titles, order, detail, entries);
    }
  }

  /** The grouping loop of `render`: every status of `order` gets its
      entries, in order. */
  method GroupByStatus(order: seq<string>, entries: seq<GameEntry>) returns (grouped: map<string, seq<GameEntry>>)
    ensures forall s :: s in order ==> s in grouped && grouped[s] == Group(entries, s)
  {
    grouped := map s | s in order :: [];
    var i := 0;
    while i < |entries|
      invariant 0 <= i <= |entries|
      invariant forall s :: s in order ==> s in grouped && grouped[s] == Group(entries[..i], s)
    {
      var e := entries[i];
      var items := if e.status in grouped then grouped[e.status] else [];
      grouped := grouped[e.status := items + [e]];
      assert entries[..i + 1][..i] == entries[..i];
      i := i + 1;
    }
    assert entries[..|entries|] == entries;
  }

  /** The item loop of `render`: one line per entry of a group. */
  method AppendItems(lines: seq<string>, detail: (int, int, int) -> string, items: seq<GameEntry>) returns (out: seq<string>)
    ensures out == lines + ItemLines(detail, items)
  {
    out := lines;
    var k := 0;
    while k < |items|
      invariant 0 <= k <= |items|
      invariant out == lines + ItemLines(detail, items[..k])
    {
      var item := items[k];
      var progress := FormatProgress(detail, item.downloadedBytes, item.totalBytes, item.remainingBytes);
      out := out + ["- " + item.name + " | Rate: " + item.rate + " | " + progress];
      assert items[..k + 1][..k] == items[..k];
      k := k + 1;
    }
    assert items[..|items|] == items;
  }

  lemma SectionAppended(header: seq<string>, done: seq<string>, section: seq<string>)
    ensures (header + done) + section == header + (done + section)
  {
  }

  /** One pass of the loop over `order`: nothing for an empty group, else
      the title with the count and then the group's items. */
  method AppendSection(lines: seq<string>, titles: map<string, string>, detail: (int, int, int) -> string,
                       status: string, items: seq<GameEntry>) returns (out: seq<string>)
    ensures out == lines + Section(titles, detail, status, items)
  {
    out := lines;
    if items != [] {
      var title := if status in titles then titles[status] else status;
      var count := title + " (" + NatToString(|items|) + ")";
      out := AppendItems(out + [count], detail, items);
      assert Section(titles, detail, status, items) == [count] + ItemLines(detail, items);
      SectionAppended(lines, [count], ItemLines(detail, items));
    }
  }

  /** `ConsoleRenderer.render`: the groups, then the header line, one section
      per non-empty group in `order`, the placeholder when there was none,
      and the closing empty line. */
  method Render(titles: map<string, string>, order: seq<string>, detail: (int, int, int) -> string,
                timestamp: string, entries: seq<GameEntry>) returns (lines: seq<string>)
    ensures lines == Rendered(titles, order, detail, timestamp, entries)
  {
    var grouped := GroupByStatus(order, entries);
    var header := ["[" + timestamp + "]"];
    lines := header;
    var j := 0;
    while j < |order|
      invariant 0 <= j <= |order|
      invariant lines == header + Sections(titles, order[..j], detail, entries)
    {
      var status := order[j];
      ghost var done := Sections(titles, order[..j], detail, entries);
      assert order[..j + 1][..j] == order[..j];
      assert Sections(titles, order[..j + 1], detail, entries) == done + Section(titles, detail, status, grouped[status]);
      lines := AppendSection(lines, titles, detail, status, grouped[status]);
      SectionAppended(header, done, Section(titles, detail, status, grouped[status]));
      j := j + 1;
    }
    assert order[..|order|] == order;
    assert |lines| == 1 <==> Sections(titles, order, detail, entries) == [];
    if |lines| == 1 {
      lines := lines + [Placeholder];
    }
    lines := lines + [""];
  }
}
