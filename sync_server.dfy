/** The directory-sync server (ex1/syncserver.c): a fixed table of client
    slots, the broadcaster, the file transfer, the inotify event walk and the
    initial synchronisation of a new client.

    The socket traffic of each slot is kept as the sequence of payloads handed
    to `send`/`sendfile` through that slot. The watched tree is given as a map
    from path to file bytes (`files`) and the set of directory paths (`dirs`),
    as it stands when the server looks at it. */
module SyncServer {
  import opened CText
  import opened IgnoreFilter

  const MAX_PATH := 2048
  const MAX_IGNORE := 256
  const MAX_CLIENTS := 10
  /** `sizeof(struct inotify_event)` on Linux: four 32-bit fields before the name. */
  const EVENT_SIZE := 16

  const IN_MOVED_FROM: bv32 := 0x40
  const IN_MOVED_TO: bv32 := 0x80
  const IN_CREATE: bv32 := 0x100
  const IN_DELETE: bv32 := 0x200
  const IN_ISDIR: bv32 := 0x4000_0000

  /** One entry of `clients[]` (the peer address is not modelled). */
  datatype Slot = Slot(socket: int, ignoreList: string, active: bool)

  /** One `struct inotify_event` of a read buffer: its mask, its `len` field
      (the size of the NUL-padded name area) and the name as a C string. */
  datatype Event = Event(mask: bv32, len: nat, name: string)

  datatype Kind = Created | Deleted | MovedFrom | MovedTo

  /** One `readdir` entry: its name and whether `d_type` is `DT_DIR`. */
  datatype DirEntry = DirEntry(name: string, isDir: bool)

  // ---------------------------------------------------------------------------
  // Paths

  /** `path` without its trailing slashes. */
  function TrimSlashes(path: string): (q: string)
    ensures q <= path
    ensures q == [] || q[|q| - 1] != '/'
    decreases |path|
  {
    if path != [] && path[|path| - 1] == '/' then TrimSlashes(path[..|path| - 1]) else path
  }

  /** Where the last component of `path` starts: just after its last slash, or 0. */
  function ComponentStart(path: string): (n: nat)
    ensures n <= |path|
    ensures forall k :: n <= k < |path| ==> path[k] != '/'
    ensures n > 0 ==> path[n - 1] == '/'
    decreases |path|
  {
    if path == [] || path[|path| - 1] == '/' then |path| else ComponentStart(path[..|path| - 1])
  }

  /** POSIX `basename` (libgen.h): the last component with trailing slashes
      removed, "/" for a path of slashes only, "." for the empty path. */
  function Basename(path: string): string
  {
    if path == [] then "."
    else
      var q := TrimSlashes(path);
      if q == [] then "/" else q[ComponentStart(q)..]
  }

  lemma {:induction false} ComponentStartOfJoin(dir: string, name: string)
    requires '/' !in name
    ensures ComponentStart(dir + "/" + name) == |dir| + 1
    decreases |name|
  {
    var p := dir + "/" + name;
    if name != [] {
      assert p[|p| - 1] == name[|name| - 1];
      assert p[..|p| - 1] == dir + "/" + name[..|name| - 1];
      ComponentStartOfJoin(dir, name[..|name| - 1]);
    }
  }

  /** The basename of `dir/name` is `name` when `name` is a non-empty single component. */
  lemma BasenameOfJoin(dir: string, name: string)
    requires name != [] && '/' !in name
    ensures Basename(dir + "/" + name) == name
  {
    var p := dir + "/" + name;
    assert p[|p| - 1] == name[|name| - 1];
    assert TrimSlashes(p) == p;
    ComponentStartOfJoin(dir, name);
    assert p[|dir| + 1..] == name;
  }

  /** `snprintf(filepath, MAX_PATH, "%s/%s", dir, name)`. */
  function PathOf(dir: string, name: string): string
  {
    Snprintf(dir + "/" + name, MAX_PATH)
  }

  // ---------------------------------------------------------------------------
  // The slot table

  /** Number of active slots. */
  function CountActive(s: seq<Slot>): (n: nat)
    ensures n <= |s|
    decreases |s|
  {
    if s == [] then 0 else (if s[0].active then 1 else 0) + CountActive(s[1..])
  }

  /** Replacing one slot changes the count by the change of that slot's flag. */
  lemma {:induction false} CountActiveUpdate(s: seq<Slot>, i: int, x: Slot)
    requires 0 <= i < |s|
    ensures CountActive(s[i := x]) ==
            CountActive(s) - (if s[i].active then 1 else 0) + (if x.active then 1 else 0)
    decreases |s|
  {
    if i == 0 {
      assert s[i := x][1..] == s[1..];
    } else {
      assert s[i := x][1..] == s[1..][i - 1 := x];
      CountActiveUpdate(s[1..], i - 1, x);
    }
  }

  /** A table whose slots are all active counts every slot. */
  lemma {:induction false} AllActiveCount(s: seq<Slot>)
    ensures (forall k :: 0 <= k < |s| ==> s[k].active) ==> CountActive(s) == |s|
    decreases |s|
  {
    if s != [] {
      AllActiveCount(s[1..]);
      if forall k :: 0 <= k < |s| ==> s[k].active {
        assert forall k :: 0 <= k < |s| - 1 ==> s[1..][k] == s[k + 1];
      }
    }
  }

  /** A table whose count is below its size has an inactive slot. */
  lemma SomeSlotInactive(s: seq<Slot>)
    requires CountActive(s) < |s|
    ensures exists k :: 0 <= k < |s| && !s[k].active
  {
    AllActiveCount(s);
  }

  /** A table with no active slot counts zero. */
  lemma {:induction false} NoneActiveCount(s: seq<Slot>)
    requires forall k :: 0 <= k < |s| ==> !s[k].active
    ensures CountActive(s) == 0
    decreases |s|
  {
    if s != [] {
      assert forall k :: 0 <= k < |s| - 1 ==> s[1..][k] == s[k + 1];
      NoneActiveCount(s[1..]);
    }
  }

  /** Slot `i` gets a broadcast (`send_to_clients`): it lies below `client_count`,
      is active, and, when a filename is given, does not ignore it. */
  predicate Receives(s: Slot, i: int, count: int, filename: Option<string>)
  {
    0 <= i < count && s.active && (filename.None? || !Ignored(s.ignoreList, filename.value))
  }

  /** Who the broadcast was evidently meant for: every active slot not ignoring the file. */
  predicate IntendedReceives(s: Slot, filename: Option<string>)
  {
    s.active && (filename.None? || !Ignored(s.ignoreList, filename.value))
  }

  /** Slot `i` gets the file of a CREATE as the watcher's fan-out is written:
      it lies below `client_count` and is active. */
  predicate FanOutReaches(s: Slot, i: int, count: int)
  {
    0 <= i < count && s.active
  }

  /** After slots 0 and 1 register and slot 0 disconnects, `client_count` is 1
      and slot 1 is active; the scan `i < client_count` then never reaches it. */
  lemma StrandedSlotMissesBroadcast(list: string)
    ensures var table := [Slot(-1, "", false), Slot(8, list, true)];
            CountActive(table) == 1 && table[1].active
            && !Receives(table[1], 1, CountActive(table), None)
            && IntendedReceives(table[1], None)
  {
  }

  /** The file fan-out scans `j < client_count` as well: in the same table
      slot 1 is active but is sent no file. */
  lemma StrandedSlotMissesFile(list: string)
    ensures var table := [Slot(-1, "", false), Slot(8, list, true)];
            table[1].active && !FanOutReaches(table[1], 1, CountActive(table))
  {
  }

  /** When every active slot lies below the count, the scan as written reaches
      exactly the intended recipients. */
  lemma ScanAgreesWhenPacked(s: seq<Slot>, filename: Option<string>, i: int)
    requires 0 <= i < |s|
    requires forall k :: CountActive(s) <= k < |s| ==> !s[k].active
    ensures Receives(s[i], i, CountActive(s), filename) <==> IntendedReceives(s[i], filename)
  {
  }

  // ---------------------------------------------------------------------------
  // Messages

  /** The `"FILE <basename>\n"` header of a file transfer. */
  function Header(path: string): string
  {
    Snprintf("FILE " + Basename(path) + "\n", MAX_PATH)
  }

  /** What `send_file_to_client` sends for `path` to a client with ignore list
      `list`: nothing if the path is ignored or cannot be opened, otherwise the
      header and then the whole file. */
  function FileTransfer(list: string, path: string, files: map<string, string>): seq<string>
  {
    if Ignored(list, path) || path !in files then [] else [Header(path), files[path]]
  }

  /** For a file `dir/name` that is not ignored and exists, the transfer is
      exactly `"FILE " + name + "\n"` followed by all of the file's bytes. */
  lemma TransferOfJoinedPath(list: string, dir: string, name: string, files: map<string, string>)
    requires name != [] && '/' !in name
    requires |dir| + |name| + 1 < MAX_PATH && |name| + 6 < MAX_PATH
    ensures var path := PathOf(dir, name);
            FileTransfer(list, path, files) ==
              if Ignored(list, path) || path !in files then []
              else ["FILE " + name + "\n", files[path]]
  {
    var path := PathOf(dir, name);
    assert path == dir + "/" + name;
    BasenameOfJoin(dir, name);
    assert Header(path) == "FILE " + name + "\n";
  }

  function KindOf(mask: bv32): (k: Option<Kind>)
    ensures k == Some(Created) <==> mask & IN_CREATE != 0
    ensures k == Some(Deleted) <==> mask & IN_CREATE == 0 && mask & IN_DELETE != 0
    ensures k == Some(MovedFrom) <==> mask & (IN_CREATE | IN_DELETE) == 0 && mask & IN_MOVED_FROM != 0
    ensures k == Some(MovedTo) <==>
            mask & (IN_CREATE | IN_DELETE | IN_MOVED_FROM) == 0 && mask & IN_MOVED_TO != 0
  {
    if mask & IN_CREATE != 0 then Some(Created)
    else if mask & IN_DELETE != 0 then Some(Deleted)
    else if mask & IN_MOVED_FROM != 0 then Some(MovedFrom)
    else if mask & IN_MOVED_TO != 0 then Some(MovedTo)
    else None
  }

  function KindName(k: Kind): string
  {
    match k
    case Created => "CREATE"
    case Deleted => "DELETE"
    case MovedFrom => "MOVED_FROM"
    case MovedTo => "MOVED_TO"
  }

  /** The notification the watcher builds for an event, if any. */
  function Notice(e: Event): Option<string>
  {
    if e.len == 0 then None
    else
      match KindOf(e.mask)
      case None => None
      case Some(k) => Some(Snprintf(KindName(k) + " " + e.name, MAX_PATH))
  }

  /** The watches `add_recursive_watches(path)` adds: none if `path` is not a
      directory, otherwise `path` and every directory below it. */
  function AddWatches(path: string, dirs: set<string>): (w: set<string>)
    ensures w <= dirs
    ensures path in w <==> path in dirs
    ensures forall d :: d in w ==> d == path || path + "/" <= d
  {
    if path in dirs then set d | d in dirs && (d == path || path + "/" <= d) else {}
  }

  /** What a slot is sent while the watcher handles event `e`, with the
      broadcast and the fan-out reaching every active slot. */
  function EventTraffic(s: Slot, e: Event, root: string, files: map<string, string>): seq<string>
  {
    match Notice(e)
    case None => []
    case Some(msg) =>
      (if IntendedReceives(s, Some(e.name)) then [msg] else [])
      + (if KindOf(e.mask) == Some(Created) && e.mask & IN_ISDIR == 0 && s.active
         then FileTransfer(s.ignoreList, PathOf(root, e.name), files)
         else [])
  }

  /** What slot `i` is sent for event `e` as the watcher is written: the
      notice through the `i < client_count` scan of `send_to_clients` and the
      file through the `j < client_count` fan-out. */
  function EventTrafficAsWritten(s: Slot, i: int, count: int, e: Event, root: string,
                                 files: map<string, string>): seq<string>
  {
    match Notice(e)
    case None => []
    case Some(msg) =>
      (if Receives(s, i, count, Some(e.name)) then [msg] else [])
      + (if KindOf(e.mask) == Some(Created) && e.mask & IN_ISDIR == 0 && FanOutReaches(s, i, count)
         then FileTransfer(s.ignoreList, PathOf(root, e.name), files)
         else [])
  }

  /** While no active slot lies at or beyond the count, the event handler as
      written sends every slot exactly the intended traffic. */
  lemma EventTrafficAgreesWhenPacked(s: seq<Slot>, i: int, e: Event, root: string,
                                     files: map<string, string>)
    requires 0 <= i < |s|
    requires forall k :: CountActive(s) <= k < |s| ==> !s[k].active
    ensures EventTrafficAsWritten(s[i], i, CountActive(s), e, root, files) == EventTraffic(s[i], e, root, files)
  {
    ScanAgreesWhenPacked(s, Some(e.name), i);
    assert FanOutReaches(s[i], i, CountActive(s)) <==> s[i].active;
  }

  /** In the stranded table the handler as written sends the active slot 1
      nothing at all, where a notice it does not ignore was meant for it. */
  lemma StrandedSlotMissesEvent(list: string, e: Event, root: string, files: map<string, string>)
    ensures var table := [Slot(-1, "", false), Slot(8, list, true)];
            EventTrafficAsWritten(table[1], 1, CountActive(table), e, root, files) == []
            && (Notice(e).Some? && !Ignored(list, e.name) ==> EventTraffic(table[1], e, root, files) != [])
  {
    StrandedSlotMissesBroadcast(list);
    StrandedSlotMissesFile(list);
  }

  /** The watches the watcher adds while it handles event `e`. */
  function EventWatches(e: Event, root: string, dirs: set<string>): set<string>
  {
    if e.len > 0 && KindOf(e.mask) == Some(Created) && e.mask & IN_ISDIR != 0
    then AddWatches(PathOf(root, e.name), dirs)
    else {}
  }

  /** What a slot is sent while the watcher handles a whole read buffer. */
  function BufferTraffic(s: Slot, events: seq<Event>, root: string, files: map<string, string>): seq<string>
    decreases |events|
  {
    if events == [] then []
    else BufferTraffic(s, events[..|events| - 1], root, files) + EventTraffic(s, events[|events| - 1], root, files)
  }

  /** Handling event `n` after the first `n` extends the traffic of the first `n + 1`. */
  lemma BufferTrafficStep(s: Slot, events: seq<Event>, n: int, root: string,
                          files: map<string, string>, sent: seq<string>)
    requires 0 <= n < |events|
    ensures (sent + BufferTraffic(s, events[..n], root, files)) + EventTraffic(s, events[n], root, files)
            == sent + BufferTraffic(s, events[..n + 1], root, files)
  {
    assert events[..n + 1][..n] == events[..n];
    AppendAssoc(sent, BufferTraffic(s, events[..n], root, files), EventTraffic(s, events[n], root, files));
  }

  function BufferWatches(events: seq<Event>, root: string, dirs: set<string>): set<string>
    decreases |events|
  {
    if events == [] then {}
    else BufferWatches(events[..|events| - 1], root, dirs) + EventWatches(events[|events| - 1], root, dirs)
  }

  /** Bytes the events occupy in the read buffer: each is EVENT_SIZE plus its name area. */
  function BufferSize(events: seq<Event>): nat
    decreases |events|
  {
    if events == [] then 0 else EVENT_SIZE + events[0].len + BufferSize(events[1..])
  }

  /** An event with an empty name area produces no traffic and no watch. */
  lemma NamelessEventIsSilent(s: Slot, e: Event, root: string,
                              files: map<string, string>, dirs: set<string>)
    requires e.len == 0
    ensures EventTraffic(s, e, root, files) == []
    ensures EventWatches(e, root, dirs) == {}
  {
  }

  /** Any other event with a known kind sends each eligible slot exactly one
      `"<KIND> <name>"` message, with no newline, chosen by the precedence
      CREATE, DELETE, MOVED_FROM, MOVED_TO; only CREATE of a file adds more. */
  lemma EventSendsOneNotice(s: Slot, e: Event, root: string, files: map<string, string>)
    requires e.len > 0 && KindOf(e.mask).Some?
    requires |e.name| + 11 < MAX_PATH && '\n' !in e.name
    ensures var k := KindOf(e.mask).value;
            var t := EventTraffic(s, e, root, files);
            var msg := KindName(k) + " " + e.name;
            '\n' !in msg
            && (k != Created ==> t == (if IntendedReceives(s, Some(e.name)) then [msg] else []))
            && (k == Created && e.mask & IN_ISDIR != 0 ==>
                  t == (if IntendedReceives(s, Some(e.name)) then [msg] else []))
  {
  }

  /** A CREATE of a file is followed, for every active slot, by that slot's
      filtered file transfer; a CREATE of a directory sends no bytes and adds
      the directory's watches. */
  lemma CreateFansOutFile(s: Slot, e: Event, root: string,
                          files: map<string, string>, dirs: set<string>)
    requires e.len > 0 && e.mask & IN_CREATE != 0
    ensures var msg := Snprintf("CREATE " + e.name, MAX_PATH);
            var notice := if IntendedReceives(s, Some(e.name)) then [msg] else [];
            var path := PathOf(root, e.name);
            (e.mask & IN_ISDIR == 0 ==>
               EventTraffic(s, e, root, files) ==
                 notice + (if s.active then FileTransfer(s.ignoreList, path, files) else [])
               && EventWatches(e, root, dirs) == {})
            && (e.mask & IN_ISDIR != 0 ==>
                  EventTraffic(s, e, root, files) == notice
                  && EventWatches(e, root, dirs) == AddWatches(path, dirs))
  {
    assert KindOf(e.mask) == Some(Created);
    assert KindName(Created) + " " + e.name == "CREATE " + e.name;
  }

  // ---------------------------------------------------------------------------
  // Initial synchronisation

  /** What `send_initial_state` sends for one directory entry: nothing for "."
      and "..", otherwise an unfiltered CREATE and, for a non-directory, the
      filtered file transfer. */
  function EntryTraffic(list: string, root: string, e: DirEntry, files: map<string, string>): seq<string>
  {
    if e.name == "." || e.name == ".." then []
    else [Snprintf("CREATE " + e.name, MAX_PATH)]
         + (if e.isDir then [] else FileTransfer(list, PathOf(root, e.name), files))
  }

  /** The payloads of successive sends, in order. */
  function Flatten(parts: seq<seq<string>>): seq<string>
    decreases |parts|
  {
    if parts == [] then [] else Flatten(parts[..|parts| - 1]) + parts[|parts| - 1]
  }

  lemma {:induction false} FlattenAppend(a: seq<seq<string>>, b: seq<seq<string>>)
    ensures Flatten(a + b) == Flatten(a) + Flatten(b)
    decreases |b|
  {
    if b == [] {
      assert a + b == a;
    } else {
      var c := a + b;
      assert c[..|c| - 1] == a + b[..|b| - 1] && c[|c| - 1] == b[|b| - 1];
      FlattenAppend(a, b[..|b| - 1]);
    }
  }

  /** Each directory entry's traffic, in listing order. */
  function SyncParts(list: string, root: string, entries: seq<DirEntry>,
                     files: map<string, string>): (parts: seq<seq<string>>)
    ensures |parts| == |entries|
    ensures forall k :: 0 <= k < |entries| ==> parts[k] == EntryTraffic(list, root, entries[k], files)
  {
    seq(|entries|, k requires 0 <= k < |entries| => EntryTraffic(list, root, entries[k], files))
  }

  /** What `send_initial_state` sends for a whole listing. */
  function SyncTraffic(list: string, root: string, entries: seq<DirEntry>,
                       files: map<string, string>): seq<string>
  {
    Flatten(SyncParts(list, root, entries, files))
  }

  /** The traffic of a listing is the traffic of its parts, in listing order. */
  lemma SyncTrafficAppend(list: string, root: string, a: seq<DirEntry>,
                          b: seq<DirEntry>, files: map<string, string>)
    ensures SyncTraffic(list, root, a + b, files) ==
            SyncTraffic(list, root, a, files) + SyncTraffic(list, root, b, files)
  {
    var pa, pb := SyncParts(list, root, a, files), SyncParts(list, root, b, files);
    assert SyncParts(list, root, a + b, files) == pa + pb;
    FlattenAppend(pa, pb);
  }

  /** Listing one more entry appends that entry's traffic. */
  lemma SyncTrafficSnoc(list: string, root: string, entries: seq<DirEntry>,
                        e: DirEntry, files: map<string, string>)
    ensures SyncTraffic(list, root, entries + [e], files) ==
            SyncTraffic(list, root, entries, files) + EntryTraffic(list, root, e, files)
  {
    var p := SyncParts(list, root, entries + [e], files);
    assert p[..|entries|] == SyncParts(list, root, entries, files);
  }

  /** A listing of one entry sends that entry's traffic. */
  lemma SyncTrafficSingle(list: string, root: string, e: DirEntry, files: map<string, string>)
    ensures SyncTraffic(list, root, [e], files) == EntryTraffic(list, root, e, files)
  {
    SyncTrafficSnoc(list, root, [], e, files);
    assert [] + [e] == [e];
  }

  /** The traffic of the first j + 1 entries. */
  lemma SyncTrafficPrefix(list: string, root: string, entries: seq<DirEntry>, j: int,
                          files: map<string, string>)
    requires 0 <= j < |entries|
    ensures SyncTraffic(list, root, entries[..j + 1], files) ==
            SyncTraffic(list, root, entries[..j], files) + SyncTraffic(list, root, [entries[j]], files)
  {
    assert entries[..j + 1] == entries[..j] + [entries[j]];
    SyncTrafficAppend(list, root, entries[..j], [entries[j]], files);
  }

  /** Every entry other than "." and ".." is announced with a CREATE, whatever
      the client's ignore list. */
  lemma InitialSyncAnnouncesEveryEntry(list: string, root: string, entries: seq<DirEntry>,
                                       files: map<string, string>, k: int)
    requires 0 <= k < |entries| && entries[k].name != "." && entries[k].name != ".."
    ensures Snprintf("CREATE " + entries[k].name, MAX_PATH) in SyncTraffic(list, root, entries, files)
  {
    var e := entries[k];
    assert entries == entries[..k] + ([e] + entries[k + 1..]);
    SyncTrafficAppend(list, root, entries[..k], [e] + entries[k + 1..], files);
    SyncTrafficAppend(list, root, [e], entries[k + 1..], files);
    SyncTrafficSnoc(list, root, [], e, files);
    assert [] + [e] == [e];
    var a := SyncTraffic(list, root, entries[..k], files);
    assert SyncTraffic(list, root, entries, files)[|a|] == Snprintf("CREATE " + e.name, MAX_PATH);
  }

  /** A directory entry, or a file the client ignores, contributes only its CREATE. */
  lemma IgnoredEntrySendsNoBytes(list: string, root: string, e: DirEntry, files: map<string, string>)
    requires e.name != "." && e.name != ".."
    requires e.isDir || Ignored(list, PathOf(root, e.name))
    ensures EntryTraffic(list, root, e, files) == [Snprintf("CREATE " + e.name, MAX_PATH)]
  {
  }

  // ---------------------------------------------------------------------------
  // The server state

  class Server {
    const syncDir: string
    const maxClients: int
    const slots: array<Slot>
    var clientCount: int
    /** Per slot, the payloads sent through it, oldest first. */
    var outbox: seq<seq<string>>
    /** Paths with an inotify watch. */
    var watches: set<string>

    /** `client_count` moves in step with the `active` flags. */
    ghost predicate Valid()
      reads this, slots
    {
      slots.Length == MAX_CLIENTS && |outbox| == MAX_CLIENTS && maxClients <= MAX_CLIENTS
      && clientCount == CountActive(slots[..])
    }

    /** Start-up: `sync_dir` is `strncpy`'d with at most MAX_PATH - 1 characters,
        the global table is zero-initialised. */
    constructor (dir: string, maxClients: int)
      requires maxClients <= MAX_CLIENTS
      ensures Valid() && fresh(slots)
      ensures syncDir == Snprintf(dir, MAX_PATH) && this.maxClients == maxClients
      ensures clientCount == 0 && watches == {}
      ensures forall i :: 0 <= i < MAX_CLIENTS ==> slots[i] == Slot(0, "", false) && outbox[i] == []
    {
      syncDir := Snprintf(dir, MAX_PATH);
      this.maxClients := maxClients;
      slots := new Slot[MAX_CLIENTS](_ => Slot(0, "", false));
      clientCount := 0;
      outbox := seq(MAX_CLIENTS, _ => []);
      watches := {};
      new;
      NoneActiveCount(slots[..]);
    }

    /** The watcher's first step: watch the synced directory and everything below it. */
    method WatchTree(dirs: set<string>)
      requires Valid()
      modifies this
      ensures Valid() && outbox == old(outbox) && clientCount == old(clientCount)
      ensures watches == old(watches) + AddWatches(syncDir, dirs)
    {
      watches := watches + AddWatches(syncDir, dirs);
    }

    /** Accept loop: admit socket `sock` into the lowest inactive slot, or
        refuse it (close it) when `client_count >= max_clients`. */
    method Register(sock: int) returns (r: Option<nat>)
      requires Valid()
      modifies this, slots
      ensures Valid() && outbox == old(outbox) && watches == old(watches)
      ensures old(clientCount) >= maxClients ==>
                r.None? && slots[..] == old(slots[..]) && clientCount == old(clientCount)
      ensures old(clientCount) < maxClients ==>
                r.Some? && r.value < MAX_CLIENTS && !old(slots[r.value]).active
                && (forall k :: 0 <= k < r.value ==> old(slots[k]).active)
                && slots[..] == old(slots[..])[r.value := old(slots[r.value]).(socket := sock, active := true)]
                && clientCount == old(clientCount) + 1
    {
      if clientCount >= maxClients {
        return None;
      }
      SomeSlotInactive(slots[..]);
      ghost var free :| 0 <= free < MAX_CLIENTS && !slots[..][free].active;
      var i := 0;
      while i < MAX_CLIENTS && slots[i].active
        invariant 0 <= i <= free
        invariant forall k :: 0 <= k < i ==> slots[k].active
      {
        i := i + 1;
      }
      CountActiveUpdate(slots[..], i, slots[i].(socket := sock, active := true));
      slots[i] := slots[i].(socket := sock, active := true);
      clientCount := clientCount + 1;
      r := Some(i);
    }

    /** `pthread_create` failed for the session of slot `i`: undo the registration. */
    method Rollback(i: nat)
      requires Valid() && i < MAX_CLIENTS && slots[i].active
      modifies this, slots
      ensures Valid() && outbox == old(outbox) && watches == old(watches)
      ensures slots[..] == old(slots[..])[i := old(slots[i]).(active := false)]
      ensures clientCount == old(clientCount) - 1
    {
      CountActiveUpdate(slots[..], i, slots[i].(active := false));
      slots[i] := slots[i].(active := false);
      clientCount := clientCount - 1;
    }

    /** Session start: the first receive on the socket (at most MAX_IGNORE - 1
        bytes) becomes the ignore list; a receive of nothing keeps the slot's
        previous list. */
    method Handshake(i: nat, hello: string)
      requires Valid() && i < MAX_CLIENTS
      modifies slots
      ensures Valid()
      ensures slots[..] == old(slots[..])[i := if hello == [] then old(slots[i])
                 else old(slots[i]).(ignoreList := CString(if |hello| < MAX_IGNORE then hello else hello[..MAX_IGNORE - 1]))]
    {
      if hello != [] {
        var got := if |hello| < MAX_IGNORE then hello else hello[..MAX_IGNORE - 1];
        CountActiveUpdate(slots[..], i, slots[i].(ignoreList := CString(got)));
        slots[i] := slots[i].(ignoreList := CString(got));
      }
    }

    /** Session end: the slot's socket becomes -1, it turns inactive and the count drops by one. */
    method Disconnect(i: nat)
      requires Valid() && i < MAX_CLIENTS && slots[i].active
      modifies this, slots
      ensures Valid() && outbox == old(outbox) && watches == old(watches)
      ensures slots[..] == old(slots[..])[i := old(slots[i]).(socket := -1, active := false)]
      ensures clientCount == old(clientCount) - 1
    {
      CountActiveUpdate(slots[..], i, slots[i].(socket := -1, active := false));
      slots[i] := slots[i].(socket := -1, active := false);
      clientCount := clientCount - 1;
    }

    /** `send_to_clients`: send `message` to every slot that `Receives` it. */
    method Broadcast(message: string, filename: Option<string>)
      requires Valid()
      modifies this
      ensures Valid() && clientCount == old(clientCount) && watches == old(watches)
      ensures |outbox| == MAX_CLIENTS
      ensures forall k :: 0 <= k < MAX_CLIENTS ==>
                outbox[k] == old(outbox[k]) + (if Receives(slots[k], k, clientCount, filename) then [message] else [])
    {
      var i := 0;
      while i < clientCount
        invariant 0 <= i <= clientCount <= MAX_CLIENTS
        invariant Valid() && clientCount == old(clientCount) && watches == old(watches)
        invariant forall k :: 0 <= k < MAX_CLIENTS ==>
                    outbox[k] == old(outbox[k])
                                 + (if k < i && Receives(slots[k], k, clientCount, filename) then [message] else [])
      {
        var send := slots[i].active;
        if send && filename.Some? {
          var ignored := IsIgnored(slots[i].ignoreList, filename.value);
          send := !ignored;
        }
        if send {
          outbox := outbox[i := outbox[i] + [message]];
        }
        i := i + 1;
      }
    }

    /** The broadcast as evidently intended: every active slot, wherever it lies in the table. */
    method BroadcastToActive(message: string, filename: Option<string>)
      requires Valid()
      modifies this
      ensures Valid() && clientCount == old(clientCount) && watches == old(watches)
      ensures |outbox| == MAX_CLIENTS
      ensures forall k :: 0 <= k < MAX_CLIENTS ==>
                outbox[k] == old(outbox[k]) + (if IntendedReceives(slots[k], filename) then [message] else [])
    {
      var i := 0;
      while i < MAX_CLIENTS
        invariant 0 <= i <= MAX_CLIENTS
        invariant Valid() && clientCount == old(clientCount) && watches == old(watches)
        invariant forall k :: 0 <= k < MAX_CLIENTS ==>
                    outbox[k] == old(outbox[k])
                                 + (if k < i && IntendedReceives(slots[k], filename) then [message] else [])
      {
        var send := slots[i].active;
        if send && filename.Some? {
          var ignored := IsIgnored(slots[i].ignoreList, filename.value);
          send := !ignored;
        }
        if send {
          outbox := outbox[i := outbox[i] + [message]];
        }
        i := i + 1;
      }
    }

    /** `send_file_to_client(&clients[i], path)`. */
    method SendFile(i: nat, path: string, files: map<string, string>)
      requires Valid() && i < MAX_CLIENTS
      modifies this
      ensures Valid() && clientCount == old(clientCount) && watches == old(watches)
      ensures outbox == old(outbox)[i := old(outbox[i]) + FileTransfer(slots[i].ignoreList, path, files)]
    {
      var ignored := IsIgnored(slots[i].ignoreList, path);
      if ignored || path !in files {
        assert outbox[i] + [] == outbox[i];
        assert outbox[i := outbox[i] + []] == outbox;
        return;
      }
      outbox := outbox[i := outbox[i] + [Header(path), files[path]]];
    }

    /** The watcher's file fan-out after a CREATE of a non-directory, as
        written: the slots below `client_count`. */
    method FanOutFile(path: string, files: map<string, string>)
      requires Valid()
      modifies this
      ensures Valid() && clientCount == old(clientCount) && watches == old(watches)
      ensures |outbox| == MAX_CLIENTS
      ensures forall k :: 0 <= k < MAX_CLIENTS ==>
                outbox[k] == old(outbox[k])
                             + (if FanOutReaches(slots[k], k, clientCount)
                                then FileTransfer(slots[k].ignoreList, path, files) else [])
    {
      var j := 0;
      while j < clientCount
        invariant 0 <= j <= clientCount <= MAX_CLIENTS
        invariant Valid() && watches == old(watches)
        invariant forall k :: 0 <= k < MAX_CLIENTS ==>
                    outbox[k] == old(outbox[k])
                                 + (if k < j && FanOutReaches(slots[k], k, clientCount)
                                    then FileTransfer(slots[k].ignoreList, path, files) else [])
      {
        if slots[j].active {
          SendFile(j, path, files);
        }
        j := j + 1;
      }
    }

    /** The fan-out as evidently intended: every active slot, wherever it lies in the table. */
    method FanOutToActive(path: string, files: map<string, string>)
      requires Valid()
      modifies this
      ensures Valid() && clientCount == old(clientCount) && watches == old(watches)
      ensures |outbox| == MAX_CLIENTS
      ensures forall k :: 0 <= k < MAX_CLIENTS ==>
                outbox[k] == old(outbox[k])
                             + (if slots[k].active then FileTransfer(slots[k].ignoreList, path, files) else [])
    {
      var j := 0;
      while j < MAX_CLIENTS
        invariant 0 <= j <= MAX_CLIENTS
        invariant Valid() && clientCount == old(clientCount) && watches == old(watches)
        invariant forall k :: 0 <= k < MAX_CLIENTS ==>
                    outbox[k] == old(outbox[k])
                                 + (if k < j && slots[k].active
                                    then FileTransfer(slots[k].ignoreList, path, files) else [])
      {
        if slots[j].active {
          SendFile(j, path, files);
        }
        j := j + 1;
      }
    }

    /** One event of a read buffer, with the broadcast and the fan-out
        reaching every active slot. */
    method ProcessEvent(e: Event, files: map<string, string>, dirs: set<string>)
      requires Valid()
      modifies this
      ensures Valid() && clientCount == old(clientCount)
      ensures |outbox| == MAX_CLIENTS
      ensures forall k :: 0 <= k < MAX_CLIENTS ==>
                outbox[k] == old(outbox[k]) + EventTraffic(slots[k], e, syncDir, files)
      ensures watches == old(watches) + EventWatches(e, syncDir, dirs)
    {
      if e.len > 0 {
        var path := PathOf(syncDir, e.name);
        var kind := KindOf(e.mask);
        if kind.Some? {
          var message := Snprintf(KindName(kind.value) + " " + e.name, MAX_PATH);
          BroadcastToActive(message, Some(e.name));
          if kind.value == Created {
            if e.mask & IN_ISDIR == 0 {
              FanOutToActive(path, files);
              forall k | 0 <= k < MAX_CLIENTS
                ensures outbox[k] == old(outbox[k]) + EventTraffic(slots[k], e, syncDir, files)
              {
                AppendAssoc(old(outbox[k]),
                            if IntendedReceives(slots[k], Some(e.name)) then [message] else [],
                            if slots[k].active then FileTransfer(slots[k].ignoreList, path, files) else []);
              }
            } else {
              watches := watches + AddWatches(path, dirs);
            }
          }
        }
      }
    }

    /** One event of a read buffer as `watch_directory` is written: the
        notice and the file go only to the slots below `client_count`. */
    method ProcessEventAsWritten(e: Event, files: map<string, string>, dirs: set<string>)
      requires Valid()
      modifies this
      ensures Valid() && clientCount == old(clientCount)
      ensures |outbox| == MAX_CLIENTS
      ensures forall k :: 0 <= k < MAX_CLIENTS ==>
                outbox[k] == old(outbox[k]) + EventTrafficAsWritten(slots[k], k, clientCount, e, syncDir, files)
      ensures watches == old(watches) + EventWatches(e, syncDir, dirs)
    {
      if e.len > 0 {
        var path := PathOf(syncDir, e.name);
        var kind := KindOf(e.mask);
        if kind.Some? {
          var message := Snprintf(KindName(kind.value) + " " + e.name, MAX_PATH);
          Broadcast(message, Some(e.name));
          if kind.value == Created {
            if e.mask & IN_ISDIR == 0 {
              FanOutFile(path, files);
              forall k | 0 <= k < MAX_CLIENTS
                ensures outbox[k] == old(outbox[k]) + EventTrafficAsWritten(slots[k], k, clientCount, e, syncDir, files)
              {
                AppendAssoc(old(outbox[k]),
                            if Receives(slots[k], k, clientCount, Some(e.name)) then [message] else [],
                            if FanOutReaches(slots[k], k, clientCount) then FileTransfer(slots[k].ignoreList, path, files) else []);
              }
            } else {
              watches := watches + AddWatches(path, dirs);
            }
          }
        }
      }
    }

    /** One `read` of the inotify descriptor: walk the buffer in steps of
        EVENT_SIZE + len until the read length is reached. */
    method ProcessBuffer(events: seq<Event>, length: int, files: map<string, string>, dirs: set<string>)
      requires Valid() && length == BufferSize(events)
      modifies this
      ensures Valid() && clientCount == old(clientCount)
      ensures |outbox| == MAX_CLIENTS
      ensures forall k :: 0 <= k < MAX_CLIENTS ==>
                outbox[k] == old(outbox[k]) + BufferTraffic(slots[k], events, syncDir, files)
      ensures watches == old(watches) + BufferWatches(events, syncDir, dirs)
    {
      var i := 0;
      var n := 0;
      while i < length
        invariant 0 <= n <= |events|
        invariant i + BufferSize(events[n..]) == length
        invariant Valid() && clientCount == old(clientCount)
        invariant forall k :: 0 <= k < MAX_CLIENTS ==>
                    outbox[k] == old(outbox[k]) + BufferTraffic(slots[k], events[..n], syncDir, files)
        invariant watches == old(watches) + BufferWatches(events[..n], syncDir, dirs)
        decreases |events| - n
      {
        assert events[n..] != [];
        assert events[n..][1..] == events[n + 1..];
        var e := events[n];
        ProcessEvent(e, files, dirs);
        forall k | 0 <= k < MAX_CLIENTS
          ensures outbox[k] == old(outbox[k]) + BufferTraffic(slots[k], events[..n + 1], syncDir, files)
        {
          BufferTrafficStep(slots[k], events, n, syncDir, files, old(outbox[k]));
        }
        assert events[..n + 1][..n] == events[..n];
        i := i + EVENT_SIZE + e.len;
        n := n + 1;
      }
      assert events[n..] == [] && events[..n] == events;
    }

    /** One entry of the initial sync. */
    method SyncEntry(i: nat, e: DirEntry, files: map<string, string>)
      requires Valid() && i < MAX_CLIENTS
      modifies this
      ensures Valid() && clientCount == old(clientCount) && watches == old(watches)
      ensures |outbox| == MAX_CLIENTS && forall k :: 0 <= k < MAX_CLIENTS && k != i ==> outbox[k] == old(outbox[k])
      ensures outbox[i] == old(outbox[i]) + SyncTraffic(slots[i].ignoreList, syncDir, [e], files)
    {
      SyncTrafficSingle(slots[i].ignoreList, syncDir, e, files);
      if e.name == "." || e.name == ".." {
        assert outbox[i] + [] == outbox[i];
        return;
      }
      var path := PathOf(syncDir, e.name);
      ghost var create := [Snprintf("CREATE " + e.name, MAX_PATH)];
      AppendAssoc(outbox[i], create, if e.isDir then [] else FileTransfer(slots[i].ignoreList, path, files));
      outbox := outbox[i := outbox[i] + [Snprintf("CREATE " + e.name, MAX_PATH)]];
      if !e.isDir {
        SendFile(i, path, files);
      } else {
        assert outbox[i] + [] == outbox[i];
      }
    }

    /** `send_initial_state`: walk the top level of the synced directory;
        nothing is sent when it cannot be opened. */
    method InitialSync(i: nat, listing: Option<seq<DirEntry>>, files: map<string, string>)
      requires Valid() && i < MAX_CLIENTS
      modifies this
      ensures Valid() && clientCount == old(clientCount) && watches == old(watches)
      ensures |outbox| == MAX_CLIENTS && forall k :: 0 <= k < MAX_CLIENTS && k != i ==> outbox[k] == old(outbox[k])
      ensures outbox[i] == old(outbox[i])
                 + (if listing.None? then [] else SyncTraffic(slots[i].ignoreList, syncDir, listing.value, files))
    {
      if listing.None? {
        assert outbox[i] + [] == outbox[i];
      } else {
        SyncListing(i, listing.value, files);
      }
    }

    /** The `readdir` loop of the initial sync. */
    method SyncListing(i: nat, entries: seq<DirEntry>, files: map<string, string>)
      requires Valid() && i < MAX_CLIENTS
      modifies this
      ensures Valid() && clientCount == old(clientCount) && watches == old(watches)
      ensures |outbox| == MAX_CLIENTS && forall k :: 0 <= k < MAX_CLIENTS && k != i ==> outbox[k] == old(outbox[k])
      ensures outbox[i] == old(outbox[i]) + SyncTraffic(slots[i].ignoreList, syncDir, entries, files)
    {
      ghost var list := slots[i].ignoreList;
      var j := 0;
      assert old(outbox[i]) + SyncTraffic(list, syncDir, entries[..0], files) == old(outbox[i]);
      while j < |entries|
        invariant 0 <= j <= |entries|
        invariant Valid() && clientCount == old(clientCount) && watches == old(watches)
        invariant forall k :: 0 <= k < MAX_CLIENTS && k != i ==> outbox[k] == old(outbox[k])
        invariant outbox[i] == old(outbox[i]) + SyncTraffic(list, syncDir, entries[..j], files)
      {
        var e := entries[j];
        SyncTrafficPrefix(list, syncDir, entries, j, files);
        AppendAssoc(old(outbox[i]), SyncTraffic(list, syncDir, entries[..j], files), SyncTraffic(list, syncDir, [e], files));
        SyncEntry(i, e, files);
        j := j + 1;
      }
      assert entries[..j] == entries;
    }
  }

  /** From a fresh table: two clients register and the first disconnects;
      the second is then active but outside the broadcast scan, so a
      broadcast as written leaves its outbox as it was. */
  method StrandedSlotScenario() returns (missed: bool)
    ensures missed
  {
    var server := new Server("dir", 2);
    var a := server.Register(7);
    assert server.slots[1] == Slot(0, "", false);
    var b := server.Register(8);
    assert a == Some(0) && b == Some(1);
    server.Disconnect(0);
    assert server.clientCount == 1 && server.slots[1].active;
    var before := server.outbox[1];
    server.Broadcast("DELETE x", None);
    missed := server.outbox[1] == before;
  }
}
