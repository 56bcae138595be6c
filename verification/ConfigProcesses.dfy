/** Any number of processes sharing one user's configuration file (src/scim_global_config.cpp:301-436). */
module ConfigProcesses {
  import opened Common
  import opened ConfigText
  import GC = GlobalConfig

  type Pid = nat

  /** The two files, each `None` while there is none, and the repositories of the processes. The system
      file does not change. */
  datatype World = World(sysFile: Option<string>, file: Option<string>, procs: map<Pid, GC.Repository>)

  datatype Event =
    | Start(pid: Pid)
    | Write(pid: Pid, key: string, value: string)
    | Reset(pid: Pid, key: string)
    | Flush(pid: Pid)                              // the file opens for writing; all in one step
    | FlushFails(pid: Pid, dirUsable: bool)        // the directory or the file cannot be opened

  function DiskOf(w: World): GC.Disk {
    GC.Disk(w.sysFile, w.file)
  }

  /** One step of one process, as its operations are specified. */
  ghost predicate Next(w: World, e: Event, w': World) {
    && w'.sysFile == w.sysFile
    && (e.Start? <==> e.pid !in w.procs)
    && e.pid in w'.procs && w'.procs == w.procs[e.pid := w'.procs[e.pid]]
    && (match e
        case Start(p) =>
          w'.procs[p] == GC.Reload(GC.Repository(map[], map[], map[], false), DiskOf(w)) && w'.file == w.file
        case Write(p, key, value) =>
          w'.procs[p] == GC.Write(GC.Ready(w.procs[p], DiskOf(w)), key, value) && w'.file == w.file
        case Reset(p, key) => w'.procs[p] == GC.Reset(GC.Ready(w.procs[p], DiskOf(w)), key) && w'.file == w.file
        case Flush(p) =>
          GC.FlushResult(w.procs[p], DiskOf(w), true, true, w'.procs[p], DiskOf(w'), w.procs[p].initialized)
        case FlushFails(p, dirUsable) =>
          GC.FlushResult(w.procs[p], DiskOf(w), dirUsable, false, w'.procs[p], DiskOf(w'),
                         w.procs[p].initialized && w.procs[p].updated == map[]))
  }

  ghost predicate IsRun(states: seq<World>, events: seq<Event>) {
    && |states| == |events| + 1
    && forall i :: 0 <= i < |events| ==> Next(states[i], events[i], states[i + 1])
  }

  // ----- what the file should hold, told from the events alone -----

  datatype Op = Put(value: string) | Erase

  /** The last change process `p` made to the key since its last flush. */
  function PendingOp(events: seq<Event>, p: Pid, key: string): Option<Op>
    decreases |events|
  {
    if events == [] then None
    else
      var before := PendingOp(events[..|events| - 1], p, key);
      match events[|events| - 1]
      case Write(q, k, value) => if q == p && k == key && k != [] then Some(Put(value)) else before
      case Reset(q, k) => if q == p && k == key && k != [] then Some(Erase) else before
      case Flush(q) => if q == p then None else before
      case _ => before
  }

  /** The change of the latest flush that had one for the key, without the blanks around its value, and
      otherwise the initial value. */
  function FileAt(initial: map<string, string>, events: seq<Event>, key: string): Option<string>
    decreases |events|
  {
    if events == [] then Lookup(initial, key)
    else
      var before := events[..|events| - 1];
      match events[|events| - 1]
      case Flush(p) =>
        (match PendingOp(before, p, key)
         case Some(Put(value)) => Some(TrimBlank(value))
         case Some(Erase) => None
         case None => FileAt(initial, before, key))
      case _ => FileAt(initial, before, key)
  }

  // ----- premises -----

  /** An entry that can be written to the file on a line that the reader's buffer fits. */
  ghost predicate GoodEntry(key: string, value: string) {
    StorableKey(key) && WritableValue(value) && |key| + 3 + |value| < BUFFER_SIZE
  }

  ghost predicate GoodEntries(m: map<string, string>) {
    forall k :: k in m ==> GoodEntry(k, m[k])
  }

  ghost predicate GoodPending(events: seq<Event>, p: Pid) {
    forall k, v :: PendingOp(events, p, k) == Some(Put(v)) ==> GoodEntry(k, v)
  }

  /** Whatever is flushed is good. A value that is changed again before the flush may be anything. */
  ghost predicate GoodEvents(events: seq<Event>) {
    forall i :: 0 <= i < |events| && events[i].Flush? ==> GoodPending(events[..i], events[i].pid)
  }

  ghost predicate GoodFile(file: Option<string>) {
    (file.Some? ==> FitsBuffer(file.value)) && GoodEntries(GC.ParseFile(file))
  }

  /** At the start there is a file to read, and every process has read its files and changed nothing. */
  ghost predicate Initial(w: World) {
    && (w.sysFile.Some? || w.file.Some?) && GoodFile(w.file)
    && forall p :: p in w.procs ==>
         w.procs[p].initialized && w.procs[p].updated == map[] && w.procs[p].sys == GC.ParseFile(w.sysFile)
  }

  // ----- the invariant -----

  function Logged(r: GC.Repository, key: string): Option<Op> {
    if key !in r.updated then None
    else if r.updated[key].Updated? then Some(Put(AtOrEmpty(r.usr, key)))
    else Some(Erase)
  }

  /** A process's log is the list of its pending changes. */
  ghost predicate LogMatches(r: GC.Repository, events: seq<Event>, p: Pid) {
    && r.initialized && GC.LogConsistent(r)
    && (forall k :: Logged(r, k) == PendingOp(events, p, k))
  }

  ghost predicate Inv(initial: map<string, string>, events: seq<Event>, w: World) {
    && (forall p :: p in w.procs ==> LogMatches(w.procs[p], events, p))
    && (forall p, k :: p !in w.procs ==> PendingOp(events, p, k) == None)
    && (w.sysFile.Some? || w.file.Some?) && GoodFile(w.file)
    && (forall k :: Lookup(GC.ParseFile(w.file), k) == FileAt(initial, events, k))
  }

  lemma {:induction false} PrintedIsGood(order: seq<string>, m: map<string, string>)
    requires Enumerates(order, m.Keys) && GoodEntries(m)
    ensures GoodFile(Some(Print(order, m))) && GC.ParseFile(Some(Print(order, m))) == TrimValues(m)
  {
    hide Print, Parse, TrimBlank;
    PrintParseTrims(order, m);
    PrintFits(order, m);
    forall k | k in m ensures GoodEntry(k, TrimBlank(m[k])) {
      TrimmedIsStorable(m[k]);
    }
  }

  /** What a process holds behind a merge: its pending change, or else what the file had. */
  function Known(pending: Option<Op>, read: Option<string>): Option<string> {
    match pending
    case Some(Put(value)) => Some(value)
    case Some(Erase) => None
    case None => read
  }

  /** Putting good changes over good entries gives good entries. */
  lemma {:induction false} MergedIsGood(r: GC.Repository, disk: GC.Disk, events: seq<Event>, p: Pid)
    requires LogMatches(r, events, p) && GoodPending(events, p) && GoodEntries(GC.ParseFile(disk.usrFile))
    ensures GoodEntries(GC.Merged(r, disk).usr)
  {
    hide Parse, PendingOp, GoodEntry, LogMatches, GoodPending, GC.Merged;
    var usr := GC.Merged(r, disk).usr;
    forall k | k in usr ensures GoodEntry(k, usr[k]) {
      MergedHolds(r, disk, events, p, k);
      assert Lookup(usr, k) == Some(usr[k]);
      assert PendingOp(events, p, k) == Some(Put(usr[k])) ==> GoodEntry(k, usr[k]) by {
        PendingIsGood(events, p, k, usr[k]);
      }
    }
  }

  lemma PendingIsGood(events: seq<Event>, p: Pid, k: string, v: string)
    requires GoodPending(events, p)
    ensures PendingOp(events, p, k) == Some(Put(v)) ==> GoodEntry(k, v)
  {
  }

  lemma {:induction false} MergedHolds(r: GC.Repository, disk: GC.Disk, events: seq<Event>, p: Pid, key: string)
    requires LogMatches(r, events, p)
    ensures Lookup(GC.Merged(r, disk).usr, key) ==
            Known(PendingOp(events, p, key), Lookup(GC.ParseFile(disk.usrFile), key))
  {
    hide Parse, PendingOp, GC.Merged;
    GC.MergedAt(r, disk, key);
    assert Logged(r, key) == PendingOp(events, p, key);
  }

  /** A successful flush: the file changes at the pending keys and nowhere else. */
  lemma {:induction false} FlushStep(w: World, p: Pid, w': World, events: seq<Event>, key: string)
    requires p in w.procs && Next(w, Flush(p), w')
    requires LogMatches(w.procs[p], events, p) && GoodPending(events, p) && GoodFile(w.file)
    ensures w'.procs[p].updated == map[] && w'.procs[p].initialized
    ensures GoodFile(w'.file) && (w.file.Some? ==> w'.file.Some?)
    ensures Lookup(GC.ParseFile(w'.file), key) ==
            match PendingOp(events, p, key)
            case Some(Put(value)) => Some(TrimBlank(value))
            case Some(Erase) => None
            case None => Lookup(GC.ParseFile(w.file), key)
  {
    hide Print, Parse, PendingOp, GoodEntry, GC.Overlay, GoodFile, GoodEntries, TrimBlank, GoodPending, LogMatches;
    var r, r' := w.procs[p], w'.procs[p];
    LoggedIsPending(r, events, p, key);
    if r.updated != map[] {
      GoodFileParses(w.file);
      MergedIsGood(r, DiskOf(w), events, p);
      MergedHolds(r, DiskOf(w), events, p, key);
      FileIsTrimmed(w.file, key);
      var order :| Enumerates(order, r'.usr.Keys) && w'.file == Some(Print(order, r'.usr));
      PrintedIsGood(order, r'.usr);
      assert key in r'.usr ==> Lookup(TrimValues(r'.usr), key) == Some(TrimBlank(r'.usr[key]));
    }
  }

  /** Values read from a file have no blanks around them. */
  lemma {:induction false} FileIsTrimmed(file: Option<string>, key: string)
    ensures var value := Lookup(GC.ParseFile(file), key);
            value.Some? ==> TrimBlank(value.value) == value.value
  {
    hide Parse, TrimBlank;
    if file.Some? {
      ParseIsStorable(file.value);
      if key in Parse(file.value) {
        StorableTrimmed(Parse(file.value)[key]);
      }
    }
  }

  lemma LoggedIsPending(r: GC.Repository, events: seq<Event>, p: Pid, key: string)
    requires LogMatches(r, events, p)
    ensures Logged(r, key) == PendingOp(events, p, key) && GC.LogConsistent(r) && r.initialized
  {
  }

  lemma GoodFileParses(file: Option<string>)
    requires GoodFile(file)
    ensures GoodEntries(GC.ParseFile(file))
  {
  }

  lemma PendingAfter(events: seq<Event>, e: Event, p: Pid, key: string)
    ensures PendingOp(events + [e], p, key) ==
            match e
            case Write(q, k, value) =>
              if q == p && k == key && k != [] then Some(Put(value)) else PendingOp(events, p, key)
            case Reset(q, k) => if q == p && k == key && k != [] then Some(Erase) else PendingOp(events, p, key)
            case Flush(q) => if q == p then None else PendingOp(events, p, key)
            case _ => PendingOp(events, p, key)
  {
  }

  /** Each step keeps the log of the process that takes it in agreement with the events. */
  lemma LogStep(w: World, e: Event, w': World, events: seq<Event>)
    requires Next(w, e, w') && (w.sysFile.Some? || w.file.Some?)
    requires if e.pid in w.procs then LogMatches(w.procs[e.pid], events, e.pid)
             else forall k :: PendingOp(events, e.pid, k) == None
    ensures LogMatches(w'.procs[e.pid], events + [e], e.pid)
  {
  }

  lemma {:induction false} FileStep(initial: map<string, string>, w: World, e: Event, w': World, events: seq<Event>)
    requires Inv(initial, events, w) && Next(w, e, w')
    requires e.Flush? ==> GoodPending(events, e.pid)
    ensures GoodFile(w'.file) && (w.file.Some? ==> w'.file.Some?)
    ensures forall k :: Lookup(GC.ParseFile(w'.file), k) == FileAt(initial, events + [e], k)
  {
    hide PendingOp, LogMatches, GoodFile, TrimBlank, GoodPending, GC.IsPrintOf, GC.Overlay, Parse;
    assert (events + [e])[..|events|] == events;
    if e.Flush? {
      forall k ensures GoodFile(w'.file) && (w.file.Some? ==> w'.file.Some?)
               ensures Lookup(GC.ParseFile(w'.file), k) == FileAt(initial, events + [e], k) {
        FlushStep(w, e.pid, w', events, k);
      }
      FlushStep(w, e.pid, w', events, []);
    } else {
      assert DiskOf(w').usrFile == DiskOf(w).usrFile;
      assert w'.file == w.file;
    }
  }

  lemma InvStep(initial: map<string, string>, w: World, e: Event, w': World, events: seq<Event>)
    requires Inv(initial, events, w) && Next(w, e, w')
    requires e.Flush? ==> GoodPending(events, e.pid)
    ensures Inv(initial, events + [e], w')
  {
    LogStep(w, e, w', events);
    FileStep(initial, w, e, w', events);
    forall p, k | p != e.pid ensures PendingOp(events + [e], p, k) == PendingOp(events, p, k) {
      PendingAfter(events, e, p, k);
    }
    forall p | p in w'.procs ensures LogMatches(w'.procs[p], events + [e], p) {
      if p != e.pid {
        assert LogMatches(w.procs[p], events, p);
      }
    }
  }

  // ----- every interleaving -----

  lemma RunPrefix(states: seq<World>, events: seq<Event>)
    requires events != [] && IsRun(states, events) && GoodEvents(events)
    ensures var n := |events|;
            && IsRun(states[..n], events[..n - 1]) && GoodEvents(events[..n - 1])
            && (events[n - 1].Flush? ==> GoodPending(events[..n - 1], events[n - 1].pid))
            && states[..n][0] == states[0] && states[..n][n - 1] == states[n - 1]
            && events == events[..n - 1] + [events[n - 1]]
  {
    var n := |events|;
    forall i | 0 <= i < n - 1 && events[i].Flush? ensures GoodPending(events[..n - 1][..i], events[i].pid) {
      assert events[..n - 1][..i] == events[..i];
    }
  }

  lemma {:induction false} RunKeepsInv(states: seq<World>, events: seq<Event>)
    requires IsRun(states, events) && Initial(states[0]) && GoodEvents(events)
    ensures Inv(GC.ParseFile(states[0].file), events, states[|events|])
    decreases |events|
  {
    var n := |events|;
    if n == 0 {
      forall p, k | p in states[0].procs ensures Logged(states[0].procs[p], k) == PendingOp([], p, k) {}
    } else {
      var front := events[..n - 1];
      RunPrefix(states, events);
      RunKeepsInv(states[..n], front);
      assert Next(states[n - 1], events[n - 1], states[n]);
      InvStep(GC.ParseFile(states[0].file), states[n - 1], events[n - 1], states[n], front);
    }
  }

  /** Whatever way the processes' starts, writes, resets, flushes and failed flushes interleave, the
      file holds at each key the change of the latest flush that had one for the key, and otherwise
      its initial value; and the file can still be read. */
  lemma MultiProcessMerge(states: seq<World>, events: seq<Event>, key: string)
    requires IsRun(states, events) && Initial(states[0]) && GoodEvents(events)
    ensures Lookup(GC.ParseFile(states[|events|].file), key) == FileAt(GC.ParseFile(states[0].file), events, key)
    ensures GoodFile(states[|events|].file)
  {
    RunKeepsInv(states, events);
  }

  /** No step changes the file at a key unless it is a flush of a process that has a pending change for it. */
  lemma OnlyLoggedKeysChange(states: seq<World>, events: seq<Event>, key: string)
    requires events != [] && IsRun(states, events) && Initial(states[0]) && GoodEvents(events)
    ensures var n := |events|;
            Lookup(GC.ParseFile(states[n].file), key) != Lookup(GC.ParseFile(states[n - 1].file), key) ==>
            events[n - 1].Flush? && PendingOp(events[..n - 1], events[n - 1].pid, key).Some?
  {
    var n := |events|;
    RunPrefix(states, events);
    MultiProcessMerge(states, events, key);
    MultiProcessMerge(states[..n], events[..n - 1], key);
  }

  // ----- what a process reads -----

  ghost predicate HasPending(events: seq<Event>, p: Pid) {
    exists key :: PendingOp(events, p, key).Some?
  }

  /** The event makes the process read its files: its start, or a flush with changes pending, whether or
      not the file could then be written. A flush without changes reads nothing. */
  ghost predicate Rereads(before: seq<Event>, e: Event, p: Pid) {
    e.pid == p &&
    match e
    case Start(_) => true
    case Flush(_) => HasPending(before, p)
    case FlushFails(_, dirUsable) => dirUsable && HasPending(before, p)
    case _ => false
  }

  /** What the process took over at the key when it last read the user's file: its change, if it had one
      pending and it was flushed, and otherwise what the file had. */
  ghost function LastRead(first: World, events: seq<Event>, p: Pid, key: string): Option<string>
    decreases |events|
  {
    if events == [] then (if p in first.procs then Lookup(first.procs[p].usr, key) else None)
    else
      var before := events[..|events| - 1];
      if Rereads(before, events[|events| - 1], p)
      then Known(PendingOp(before, p, key), FileAt(GC.ParseFile(first.file), before, key))
      else LastRead(first, before, p, key)
  }

  ghost predicate KnowsAt(first: World, events: seq<Event>, w: World, p: Pid, key: string)
    requires p in w.procs
  {
    && Lookup(w.procs[p].usr, key) == Known(PendingOp(events, p, key), LastRead(first, events, p, key))
    && w.procs[p].sys == GC.ParseFile(first.sysFile)
  }

  lemma {:induction false} PendingIsLogged(r: GC.Repository, events: seq<Event>, p: Pid)
    requires LogMatches(r, events, p)
    ensures HasPending(events, p) <==> r.updated != map[]
  {
    hide PendingOp, GoodEntry;
    if k :| k in r.updated {
      assert Logged(r, k).Some?;
      assert PendingOp(events, p, k).Some?;
    }
  }

  lemma ReadAfter(first: World, events: seq<Event>, e: Event, p: Pid, key: string)
    ensures LastRead(first, events + [e], p, key) ==
            if Rereads(events, e, p)
            then Known(PendingOp(events, p, key), FileAt(GC.ParseFile(first.file), events, key))
            else LastRead(first, events, p, key)
  {
    assert (events + [e])[..|events|] == events;
  }

  /** The process that takes a step knows its pending change, or else what it last read. */
  lemma {:induction false} KnowsStep(first: World, w: World, e: Event, w': World, events: seq<Event>, key: string)
    requires Inv(GC.ParseFile(first.file), events, w) && Next(w, e, w')
    requires w.sysFile == first.sysFile
    requires e.pid in w.procs ==> KnowsAt(first, events, w, e.pid, key)
    ensures KnowsAt(first, events + [e], w', e.pid, key)
  {
    hide GC.ParseFile, GoodFile, GoodEntry, GC.Overlay, PendingOp, FileAt, LastRead, LogMatches, GC.IsPrintOf;
    var p := e.pid;
    PendingAfter(events, e, p, key);
    ReadAfter(first, events, e, p, key);
    if p in w.procs {
      PendingIsLogged(w.procs[p], events, p);
      LoggedIsPending(w.procs[p], events, p, key);
      MergedHolds(w.procs[p], DiskOf(w), events, p, key);
    }
  }

  lemma {:induction false} RunKeepsKnowing(states: seq<World>, events: seq<Event>, p: Pid, key: string)
    requires IsRun(states, events) && Initial(states[0]) && GoodEvents(events)
    ensures states[|events|].sysFile == states[0].sysFile
    ensures p in states[|events|].procs ==> KnowsAt(states[0], events, states[|events|], p, key)
    decreases |events|
  {
    hide Inv, KnowsAt, GoodEvents;
    var n := |events|;
    if n == 0 {
      KnowsAtStart(states[0], p, key);
    } else {
      var front, e := events[..n - 1], events[n - 1];
      RunPrefix(states, events);
      RunKeepsKnowing(states[..n], front, p, key);
      RunKeepsInv(states[..n], front);
      assert Next(states[n - 1], e, states[n]);
      if e.pid == p {
        KnowsStep(states[0], states[n - 1], e, states[n], front, key);
      } else {
        OthersKnow(states[0], states[n - 1], e, states[n], front, p, key);
      }
    }
  }

  lemma KnowsAtStart(w: World, p: Pid, key: string)
    requires Initial(w)
    ensures p in w.procs ==> KnowsAt(w, [], w, p, key)
  {
  }

  lemma {:induction false} OthersKnow(first: World, w: World, e: Event, w': World, events: seq<Event>, p: Pid,
      key: string)
    requires Next(w, e, w') && p != e.pid
    requires p in w.procs ==> KnowsAt(first, events, w, p, key)
    ensures p in w'.procs ==> KnowsAt(first, events + [e], w', p, key)
  {
    hide PendingOp, LastRead, GC.FlushResult, FileAt;
    PendingAfter(events, e, p, key);
    ReadAfter(first, events, e, p, key);
  }

  /** In every state of every run a process reads at a key its pending change, or else what the user's
      file had when the process last read it, or else what the system file has. */
  lemma {:induction false} ProcessReads(states: seq<World>, events: seq<Event>, p: Pid, key: string)
    requires IsRun(states, events) && Initial(states[0]) && GoodEvents(events)
    requires p in states[|events|].procs
    ensures var user := Known(PendingOp(events, p, key), LastRead(states[0], events, p, key));
            GC.Find(states[|events|].procs[p], key) ==
            if user.Some? then user else Lookup(GC.ParseFile(states[0].sysFile), key)
  {
    hide PendingOp, LastRead, LogMatches, GoodFile, GoodEvents, Initial;
    var n := |events|;
    RunKeepsKnowing(states, events, p, key);
    RunKeepsInv(states, events);
    LoggedIsPending(states[n].procs[p], events, p, key);
  }

  // ----- from one process to another -----

  /** At `flush` process `writer` put `value` into the file under the key, and no later flush changes it. */
  ghost predicate StaysInFile(events: seq<Event>, flush: nat, writer: Pid, key: string, value: string) {
    && flush < |events| && events[flush] == Flush(writer)
    && PendingOp(events[..flush], writer, key) == Some(Put(value))
    && forall i :: flush < i < |events| && events[i].Flush? ==> PendingOp(events[..i], events[i].pid, key).None?
  }

  /** At `read` process `reader` reads its files, and it changes nothing at the key itself. */
  ghost predicate ReadsAt(events: seq<Event>, read: nat, reader: Pid, key: string) {
    && read < |events| && Rereads(events[..read], events[read], reader)
    && forall i :: read <= i <= |events| ==> PendingOp(events[..i], reader, key).None?
  }

  lemma {:induction false} FileKeeps(initial: map<string, string>, events: seq<Event>, flush: nat, writer: Pid,
      key: string, value: string, n: nat)
    requires StaysInFile(events, flush, writer, key, value) && flush < n <= |events|
    ensures FileAt(initial, events[..n], key) == Some(TrimBlank(value))
    decreases n
  {
    hide TrimBlank;
    assert events[..n][..n - 1] == events[..n - 1];
    if n == flush + 1 {
      assert events[..n][n - 1] == events[flush];
    } else {
      assert events[..n][n - 1] == events[n - 1];
      FileKeeps(initial, events, flush, writer, key, value, n - 1);
    }
  }

  lemma {:induction false} ReaderKeeps(first: World, events: seq<Event>, flush: nat, writer: Pid,
      read: nat, reader: Pid, key: string, value: string, n: nat)
    requires StaysInFile(events, flush, writer, key, value) && ReadsAt(events, read, reader, key)
    requires flush < read < n <= |events|
    ensures LastRead(first, events[..n], reader, key) == Some(TrimBlank(value))
    decreases n
  {
    hide TrimBlank, FileAt, Rereads, StaysInFile;
    var before, e := events[..n - 1], events[n - 1];
    assert events[..n] == before + [e];
    ReadAfter(first, before, e, reader, key);
    FileKeeps(GC.ParseFile(first.file), events, flush, writer, key, value, n - 1);
    if n == read + 1 {
    } else {
      ReaderKeeps(first, events, flush, writer, read, reader, key, value, n - 1);
    }
  }

  /** A value flushed by one process is what any process reads that reads its files before the next
      flush with a change for the key; blanks around the value are lost. */
  lemma {:induction false} FlushedIsRead(states: seq<World>, events: seq<Event>, flush: nat, writer: Pid,
      read: nat, reader: Pid, key: string, value: string)
    requires IsRun(states, events) && Initial(states[0]) && GoodEvents(events)
    requires StaysInFile(events, flush, writer, key, value) && ReadsAt(events, read, reader, key) && flush < read
    requires reader in states[|events|].procs
    ensures GC.Find(states[|events|].procs[reader], key) == Some(TrimBlank(value))
  {
    hide TrimBlank, StaysInFile, GoodEvents, Initial, PendingOp, LastRead, Rereads, GC.Find;
    assert events[..|events|] == events;
    ReaderKeeps(states[0], events, flush, writer, read, reader, key, value, |events|);
    ProcessReads(states, events, reader, key);
  }

  /** So a list of ints written by one process is the list another one reads; the empty list reads as
      the default. */
  lemma {:induction false} FlushedIntsAreRead(states: seq<World>, events: seq<Event>, flush: nat, writer: Pid,
      read: nat, reader: Pid, key: string, vals: seq<int32>, defVal: seq<int32>)
    requires IsRun(states, events) && Initial(states[0]) && GoodEvents(events)
    requires StaysInFile(events, flush, writer, key, GC.EncodeInts(vals))
    requires ReadsAt(events, read, reader, key) && flush < read
    requires reader in states[|events|].procs
    ensures GC.DecodeInts(GC.Find(states[|events|].procs[reader], key), defVal) ==
            if vals == [] then defVal else vals
  {
    hide *;
    FlushedIsRead(states, events, flush, writer, read, reader, key, GC.EncodeInts(vals));
    GC.EncodedIsStorable(vals);
    StorableTrimmed(GC.EncodeInts(vals));
    GC.IntListRoundTrip(vals, defVal);
  }

  // ----- without any file -----

  ghost predicate NoFiles(w: World) {
    w.sysFile == w.file == None && forall p :: p in w.procs ==> !w.procs[p].initialized
  }

  /** When neither file is there no run makes one: every write is dropped and every flush fails. */
  lemma {:induction false} NothingIsSaved(states: seq<World>, events: seq<Event>)
    requires IsRun(states, events) && NoFiles(states[0])
    ensures NoFiles(states[|events|])
    decreases |events|
  {
    var n := |events|;
    if n == 0 {
    } else {
      NothingIsSaved(states[..n], events[..n - 1]);
      assert Next(states[n - 1], events[n - 1], states[n]);
      assert states[..n][n - 1] == states[n - 1];
    }
  }
}
