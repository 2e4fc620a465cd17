/**
 The directory scan that fills the index: the callback handed to
 `filepath.WalkDir` for every entry of a directory tree, the walk of one
 directory, and the loop over the fixed list of application directories.

 The file system is not modelled. A directory's walk is the sequence of
 callback invocations `WalkDir` makes for it (path, directory entry or none,
 error or none), each carrying what the INI loader returns for that path.
 As `WalkDir` does, the walk stops at the first callback that returns an
 error; a callback that calls `os.Exit` or dereferences a missing directory
 entry ends the whole run.
 */
module Scan {
  import opened Text
  import opened PrefixMaps
  import opened Entries

  datatype Option<T> = None | Some(value: T)

  /** An error `WalkDir` passes to the callback; `NotExist` is one for which
      `errors.Is(err, os.ErrNotExist)` holds. */
  datatype WalkError = NotExist(message: string) | Failure(message: string)

  /** What `ini.Load` returns for a path: the file's sections, or an error. */
  datatype IniFile = Parsed(sections: seq<Section>) | Malformed(reason: string)

  /** One callback invocation. `entry` is the directory entry's name, absent
      when `WalkDir` passes no entry (`os.Lstat` of the root failed). */
  datatype WalkEvent = WalkEvent(path: string, entry: Option<string>, err: Option<WalkError>, file: IniFile)

  /** What the callback decides before it looks at the file. */
  datatype Decision = Skip | Propagate(err: WalkError) | NilEntry | Load

  /** What the callback does: return nil, return an error to `WalkDir`, call
      `os.Exit(1)` after a failed load, or panic on the missing entry. */
  datatype Reply = Nil | Err(err: WalkError) | OsExit | NilDeref

  /** The callback's reply together with the insertions it made. */
  datatype Outcome = Outcome(reply: Reply, inserts: seq<Binding<DesktopEntry>>)

  /** The two ways the process dies during the scan. */
  datatype Fatal = ExitOne | Panic

  /** How one directory's walk ends. */
  datatype WalkEnd = Finished | Returned(err: WalkError) | Terminated(fatal: Fatal)

  /** The insertions of one directory's walk and how it ended. */
  datatype Walk = Walk(inserts: seq<Binding<DesktopEntry>>, end: WalkEnd)

  /** How the whole scan ends. */
  datatype Status = Completed | Killed(fatal: Fatal)

  /** The whole scan: the insertions in order, the walk errors logged, and
      whether the process survived. */
  datatype Run = Run(inserts: seq<Binding<DesktopEntry>>, logged: seq<WalkError>, status: Status)

  const DesktopSuffix := ".desktop"

  /** The entry's name, lower-cased, ends in `.desktop`: its last eight
      characters spell `.desktop` in any mix of ASCII case. */
  predicate IsDesktopName(name: string): (b: bool)
    ensures b <==> (|name| >= |DesktopSuffix| &&
      forall k :: 0 <= k < |DesktopSuffix| ==> LowerChar(name[|name| - |DesktopSuffix| + k]) == DesktopSuffix[k])
  {
    var lower := ToLower(name);
    assert forall k :: 0 <= k < |lower| ==> lower[k] == LowerChar(name[k]);
    SuffixChars(lower, DesktopSuffix);
    HasSuffix(lower, DesktopSuffix)
  }

  /** Every name that ends in `.desktop`, whatever comes before, is treated
      as a `.desktop` file. */
  lemma DesktopSuffixNames(front: string)
    ensures IsDesktopName(front + DesktopSuffix)
  {
    var name := front + DesktopSuffix;
    assert ToLower(DesktopSuffix) == DesktopSuffix;
    forall k | 0 <= k < |DesktopSuffix|
      ensures LowerChar(name[|name| - |DesktopSuffix| + k]) == DesktopSuffix[k]
    {
      assert name[|front| + k] == DesktopSuffix[k];
      assert ToLower(DesktopSuffix)[k] == LowerChar(DesktopSuffix[k]);
    }
  }

  /** `errors.Is(err, os.ErrNotExist)`: there is an error and it is a
      not-exist error, whatever its message. */
  predicate IsNotExist(err: Option<WalkError>): (b: bool)
    ensures b <==> exists m :: err == Some(NotExist(m))
  {
    if err.Some? && err.value.NotExist? then
      assert err == Some(NotExist(err.value.message));
      true
    else false
  }

  /** The fixed list of directories scanned, home-relative ones first. When
      the home directory is unknown, `home` is the empty string. */
  function CandidateDirs(home: string): (dirs: seq<string>)
    ensures |dirs| == 4
    ensures IsPrefix(home, dirs[0]) && IsPrefix(home, dirs[1])
    ensures dirs[2..] == ["/usr/share/applications", "/usr/local/share/applications/"]
  {
    [home + "/.local/share/applications", home + "/Desktop",
     "/usr/share/applications", "/usr/local/share/applications/"]
  }

  /** The callback's checks, in the order it makes them: a not-exist error
      is swallowed before anything else, then the name is tested, and only
      then is any other error returned; so an error on an entry that is not
      a `.desktop` file is ignored. */
  function Decide(ev: WalkEvent): (d: Decision)
    ensures d == Skip <==> IsNotExist(ev.err) || (ev.entry.Some? && !IsDesktopName(ev.entry.value))
    ensures d == NilEntry <==> !IsNotExist(ev.err) && ev.entry.None?
    ensures d.Propagate? <==>
      ev.err.Some? && !IsNotExist(ev.err) && ev.entry.Some? && IsDesktopName(ev.entry.value)
    ensures d.Propagate? ==> ev.err == Some(d.err)
    ensures d == Load <==> ev.err.None? && ev.entry.Some? && IsDesktopName(ev.entry.value)
  {
    if IsNotExist(ev.err) then Skip
    else if ev.entry.None? then NilEntry
    else if !IsDesktopName(ev.entry.value) then Skip
    else if ev.err.Some? then Propagate(ev.err.value)
    else Load
  }

  /** What the callback replies for an event and what it inserts. Only a
      loaded `.desktop` file inserts anything, and a load failure is the only
      way to reach `os.Exit`. */
  function CallbackOutcome(ev: WalkEvent): (o: Outcome)
    ensures o.reply != Nil ==> o.inserts == []
    ensures o.reply == OsExit <==> Decide(ev) == Load && ev.file.Malformed?
    ensures o.reply == NilDeref <==> Decide(ev) == NilEntry
    ensures o.inserts != [] ==> Decide(ev) == Load && ev.file.Parsed?
    ensures Decide(ev) == Load && ev.file.Parsed? ==> o == Outcome(Nil, FileInserts(ev.path, ev.file.sections))
    ensures Decide(ev) == Skip ==> o == Outcome(Nil, [])
    ensures Decide(ev).Propagate? ==> o == Outcome(Err(Decide(ev).err), [])
  {
    match Decide(ev)
    case Skip => Outcome(Nil, [])
    case Propagate(e) => Outcome(Err(e), [])
    case NilEntry => Outcome(NilDeref, [])
    case Load =>
      match ev.file
      case Malformed(_) => Outcome(OsExit, [])
      case Parsed(sections) => Outcome(Nil, FileInserts(ev.path, sections))
  }

  /** How a walk ends when the callback replies `reply` instead of nil. */
  function EndOf(reply: Reply): WalkEnd
    requires reply != Nil
  {
    match reply
    case Err(e) => Returned(e)
    case OsExit => Terminated(ExitOne)
    case NilDeref => Terminated(Panic)
  }

  /** Some event of the walk gets decision `d`. */
  ghost predicate SomeEventDecides(events: seq<WalkEvent>, d: Decision)
  {
    exists k :: 0 <= k < |events| && Decide(events[k]) == d
  }

  /** Some event of the walk loads a file the INI loader rejects. */
  ghost predicate SomeLoadFails(events: seq<WalkEvent>)
  {
    exists k :: 0 <= k < |events| && Decide(events[k]) == Load && events[k].file.Malformed?
  }

  /** One directory's walk: the callback runs on each event in turn until one
      replies something other than nil. A returned error is one the callback
      was handed for a `.desktop` entry, an exit comes from a file that failed
      to load, and a panic from an event without an entry. */
  function WalkOutcome(events: seq<WalkEvent>): Walk
  {
    if events == [] then Walk([], Finished)
    else
      var o := CallbackOutcome(events[0]);
      if o.reply == Nil then
        var w := WalkOutcome(events[1..]);
        Walk(o.inserts + w.inserts, w.end)
      else Walk([], EndOf(o.reply))
  }

  /** The error a walk returns, which the scan logs before moving on. */
  function Logged(end: WalkEnd): seq<WalkError>
  {
    if end.Returned? then [end.err] else []
  }

  /** A directory's walk followed by the scan of the directories after it:
      a walk that kills the process leaves the rest unscanned. */
  function ThenScan(w: Walk, rest: Run): Run
  {
    if w.end.Terminated? then Run(w.inserts, [], Killed(w.end.fatal))
    else Run(w.inserts + rest.inserts, Logged(w.end) + rest.logged, rest.status)
  }

  /** One scan followed by another: the second happens only if the process
      survived the first. */
  function Sequence(first: Run, second: Run): Run
  {
    if first.status == Completed then
      Run(first.inserts + second.inserts, first.logged + second.logged, second.status)
    else first
  }

  /** The walk of some directory of `dirs` ends as `end` says. */
  ghost predicate SomeWalkEnds(walk: string -> seq<WalkEvent>, dirs: seq<string>, end: WalkEnd)
  {
    exists d :: d in dirs && WalkOutcome(walk(d)).end == end
  }

  /** The scan of `dirs` in order; `walk(dir)` is the sequence of callback
      invocations for `dir`. A returned walk error is logged and the next
      directory is scanned; a fatal reply ends the run. */
  function RunOutcome(walk: string -> seq<WalkEvent>, dirs: seq<string>): Run
  {
    if dirs == [] then Run([], [], Completed)
    else ThenScan(WalkOutcome(walk(dirs[0])), RunOutcome(walk, dirs[1..]))
  }

  /** An error on an entry whose name does not end in `.desktop` is ignored
      like no error at all: the callback returns nil and inserts nothing. */
  lemma ErrorOnOtherEntryIgnored(ev: WalkEvent)
    requires ev.entry.Some? && !IsDesktopName(ev.entry.value)
    ensures CallbackOutcome(ev) == Outcome(Nil, [])
  {
  }

  /** A walk runs to its end exactly when the callback returns nil for every
      event. */
  lemma {:induction false} WalkFinishedIff(events: seq<WalkEvent>)
    ensures WalkOutcome(events).end == Finished <==>
      forall i :: 0 <= i < |events| ==> CallbackOutcome(events[i]).reply == Nil
  {
    if events != [] {
      WalkFinishedIff(events[1..]);
      assert forall i :: 1 <= i < |events| ==> events[i] == events[1..][i - 1];
    }
  }

  /** Walking two runs of events: if the first finishes, its insertions come
      first and the second decides how the walk ends; otherwise the second is
      never visited. */
  lemma {:induction false} WalkAppend(a: seq<WalkEvent>, b: seq<WalkEvent>)
    ensures WalkOutcome(a).end == Finished ==>
      WalkOutcome(a + b) == Walk(WalkOutcome(a).inserts + WalkOutcome(b).inserts, WalkOutcome(b).end)
    ensures WalkOutcome(a).end != Finished ==> WalkOutcome(a + b) == WalkOutcome(a)
  {
    if a == [] {
      assert a + b == b;
    } else {
      var ab, tail := a + b, a[1..];
      assert ab[0] == a[0];
      assert ab[1..] == tail + b;
      WalkAppend(tail, b);
      var o := CallbackOutcome(a[0]);
      if o.reply == Nil {
        var wt, wtb := WalkOutcome(tail), WalkOutcome(tail + b);
        assert WalkOutcome(ab) == Walk(o.inserts + wtb.inserts, wtb.end);
        assert WalkOutcome(a) == Walk(o.inserts + wt.inserts, wt.end);
        if wt.end == Finished {
          assert o.inserts + (wt.inserts + WalkOutcome(b).inserts) == (o.inserts + wt.inserts) + WalkOutcome(b).inserts;
        }
      }
    }
  }

  /** The first event whose callback does not return nil ends the walk: the
      insertions are those of the events before it, and nothing after it is
      visited. */
  lemma {:induction false} WalkStopsAtFirstNonNil(events: seq<WalkEvent>, k: nat)
    requires k < |events|
    requires forall i :: 0 <= i < k ==> CallbackOutcome(events[i]).reply == Nil
    requires CallbackOutcome(events[k]).reply != Nil
    ensures WalkOutcome(events) ==
      Walk(WalkOutcome(events[..k]).inserts, EndOf(CallbackOutcome(events[k]).reply))
  {
    var o := CallbackOutcome(events[0]);
    if k == 0 {
      assert events[..0] == [];
    } else {
      var rest := events[1..];
      assert forall i :: 0 <= i < k - 1 ==> rest[i] == events[i + 1];
      assert CallbackOutcome(events[0]).reply == Nil;
      WalkStopsAtFirstNonNil(rest, k - 1);
      var front := events[..k];
      assert front[0] == events[0] && front[1..] == rest[..k - 1];
      assert WalkOutcome(front).inserts == o.inserts + WalkOutcome(rest[..k - 1]).inserts;
    }
  }

  /** The event at index `i` loads a `.desktop` file whose section `j` is a
      `Desktop Entry` section inserting `b`. */
  ghost predicate InsertedFrom(events: seq<WalkEvent>, b: Binding<DesktopEntry>, i: int, j: int)
  {
    && 0 <= i < |events|
    && Decide(events[i]) == Load
    && events[i].file.Parsed?
    && 0 <= j < |events[i].file.sections|
    && events[i].file.sections[j].name == DesktopEntrySection
    && b == InsertOf(events[i].path, events[i].file.sections[j])
  }

  /** Every insertion of a walk comes from a `Desktop Entry` section of a
      loaded `.desktop` file; when the walk finishes, every such section is
      inserted. */
  lemma {:induction false} WalkInsertsFromDesktopSections(events: seq<WalkEvent>)
    ensures forall b :: b in WalkOutcome(events).inserts ==> exists i, j :: InsertedFrom(events, b, i, j)
    ensures WalkOutcome(events).end == Finished ==>
      forall b, i, j :: InsertedFrom(events, b, i, j) ==> b in WalkOutcome(events).inserts
  {
    if events != [] {
      var rest := events[1..];
      WalkInsertsFromDesktopSections(rest);
      var o := CallbackOutcome(events[0]);
      forall b | b in WalkOutcome(events).inserts
        ensures exists i, j :: InsertedFrom(events, b, i, j)
      {
        if b in o.inserts {
          var sections := events[0].file.sections;
          FileInsertsMembers(events[0].path, sections);
          var j :| 0 <= j < |sections| && sections[j].name == DesktopEntrySection &&
                   b.value == DesktopEntry(KeyValue(sections[j], "Name"), KeyValue(sections[j], "Exec"), events[0].path);
          assert InsertedFrom(events, b, 0, j);
        } else {
          var i, j :| InsertedFrom(rest, b, i, j);
          assert events[i + 1] == rest[i];
          assert InsertedFrom(events, b, i + 1, j);
        }
      }
      if WalkOutcome(events).end == Finished {
        forall b, i, j | InsertedFrom(events, b, i, j)
          ensures b in WalkOutcome(events).inserts
        {
          if i == 0 {
            FileInsertsMembers(events[0].path, events[0].file.sections);
          } else {
            assert rest[i - 1] == events[i];
            assert InsertedFrom(rest, b, i - 1, j);
          }
        }
      }
    }
  }

  /** Why a walk stops early: a returned error is one the callback was
      handed for a `.desktop` entry, an exit comes from a file the INI loader
      rejected, and a panic from an event without a directory entry. */
  lemma {:induction false} WalkEndExplained(events: seq<WalkEvent>)
    ensures WalkOutcome(events).end.Returned? ==>
      SomeEventDecides(events, Propagate(WalkOutcome(events).end.err))
    ensures WalkOutcome(events).end == Terminated(ExitOne) ==> SomeLoadFails(events)
    ensures WalkOutcome(events).end == Terminated(Panic) ==> SomeEventDecides(events, NilEntry)
  {
    if events != [] && CallbackOutcome(events[0]).reply == Nil {
      var rest := events[1..];
      WalkEndExplained(rest);
      assert forall k :: 0 <= k < |rest| ==> rest[k] == events[k + 1];
    }
  }

  /** Why the scan logged what it logged and why it died: at most one error
      is logged per directory, each logged error is the one some directory's
      walk returned, and a killed run was killed by some directory's walk. */
  lemma {:induction false} RunEndExplained(walk: string -> seq<WalkEvent>, dirs: seq<string>)
    ensures |RunOutcome(walk, dirs).logged| <= |dirs|
    ensures forall j :: 0 <= j < |RunOutcome(walk, dirs).logged| ==>
      SomeWalkEnds(walk, dirs, Returned(RunOutcome(walk, dirs).logged[j]))
    ensures RunOutcome(walk, dirs).status.Killed? ==>
      SomeWalkEnds(walk, dirs, Terminated(RunOutcome(walk, dirs).status.fatal))
  {
    if dirs != [] {
      var rest := dirs[1..];
      RunEndExplained(walk, rest);
      var w, r := WalkOutcome(walk(dirs[0])), RunOutcome(walk, rest);
      assert forall d :: d in rest ==> d in dirs;
      if !w.end.Terminated? {
        var all := RunOutcome(walk, dirs);
        assert all.logged == Logged(w.end) + r.logged;
        forall j | 0 <= j < |all.logged|
          ensures SomeWalkEnds(walk, dirs, Returned(all.logged[j]))
        {
          if j < |Logged(w.end)| {
            assert dirs[0] in dirs;
          } else {
            assert all.logged[j] == r.logged[j - |Logged(w.end)|];
          }
        }
      } else {
        assert dirs[0] in dirs;
      }
    }
  }

  /** The errors the walks of `dirs` return, in directory order: at most one
      per directory. */
  function WalkErrors(walk: string -> seq<WalkEvent>, dirs: seq<string>): seq<WalkError>
  {
    if dirs == [] then [] else Logged(WalkOutcome(walk(dirs[0])).end) + WalkErrors(walk, dirs[1..])
  }

  /** A scan that completes has logged, in directory order, exactly the error
      each directory's walk returned, and nothing else. */
  lemma {:induction false} CompletedRunLogsEveryWalkError(walk: string -> seq<WalkEvent>, dirs: seq<string>)
    ensures RunOutcome(walk, dirs).status == Completed ==> RunOutcome(walk, dirs).logged == WalkErrors(walk, dirs)
  {
    if dirs != [] {
      CompletedRunLogsEveryWalkError(walk, dirs[1..]);
    }
  }

  /** Scanning two lists of directories one after the other: if the first
      completes, its insertions and logged errors come first and the second
      decides the status; if the process dies in the first, the second is
      never scanned. */
  lemma {:induction false} RunAppend(walk: string -> seq<WalkEvent>, a: seq<string>, b: seq<string>)
    ensures RunOutcome(walk, a + b) == Sequence(RunOutcome(walk, a), RunOutcome(walk, b))
  {
    if a == [] {
      assert a + b == b;
    } else {
      var ab := a + b;
      assert ab[0] == a[0];
      assert ab[1..] == a[1..] + b;
      RunAppend(walk, a[1..], b);
      ThenScanSequence(WalkOutcome(walk(a[0])), RunOutcome(walk, a[1..]), RunOutcome(walk, b));
    }
  }

  /** A walk followed by two scans is the walk followed by the first scan,
      followed by the second. */
  lemma ThenScanSequence(w: Walk, first: Run, second: Run)
    ensures ThenScan(w, Sequence(first, second)) == Sequence(ThenScan(w, first), second)
  {
    if !w.end.Terminated? && first.status == Completed {
      assert w.inserts + (first.inserts + second.inserts) == (w.inserts + first.inserts) + second.inserts;
      assert Logged(w.end) + (first.logged + second.logged) == (Logged(w.end) + first.logged) + second.logged;
    }
  }

  /** One directory scanned on its own. */
  lemma RunOne(walk: string -> seq<WalkEvent>, dir: string)
    ensures var w := WalkOutcome(walk(dir));
      RunOutcome(walk, [dir]) ==
        if w.end.Terminated? then Run(w.inserts, [], Killed(w.end.fatal))
        else Run(w.inserts, Logged(w.end), Completed)
  {
    assert [dir][1..] == [];
  }

  /** A directory whose walk returns an error has that error logged, keeps
      the insertions made before the error, and the directories after it are
      still scanned. */
  lemma WalkErrorLoggedAndScanGoesOn(walk: string -> seq<WalkEvent>, before: seq<string>,
                                     dir: string, after: seq<string>)
    requires RunOutcome(walk, before).status == Completed
    requires WalkOutcome(walk(dir)).end.Returned?
    ensures var all := RunOutcome(walk, before + [dir] + after);
      && all.logged == RunOutcome(walk, before).logged + [WalkOutcome(walk(dir)).end.err] + RunOutcome(walk, after).logged
      && all.inserts == RunOutcome(walk, before).inserts + WalkOutcome(walk(dir)).inserts + RunOutcome(walk, after).inserts
      && all.status == RunOutcome(walk, after).status
  {
    RunOne(walk, dir);
    RunAppend(walk, before, [dir]);
    RunAppend(walk, before + [dir], after);
  }

  /** A failed load (or a panic) during the walk of `dir` ends the run: no
      directory after it is scanned and nothing more is inserted. */
  lemma FatalReplyEndsScan(walk: string -> seq<WalkEvent>, before: seq<string>,
                           dir: string, after: seq<string>)
    requires RunOutcome(walk, before).status == Completed
    requires WalkOutcome(walk(dir)).end.Terminated?
    ensures var all := RunOutcome(walk, before + [dir] + after);
      && all.status == Killed(WalkOutcome(walk(dir)).end.fatal)
      && all.inserts == RunOutcome(walk, before).inserts + WalkOutcome(walk(dir)).inserts
  {
    RunOne(walk, dir);
    RunAppend(walk, before, [dir]);
    RunAppend(walk, before + [dir], after);
  }

  /** The index only grows: what the scan of the first `k` directories has
      inserted is a prefix of what the whole scan inserts. */
  lemma ScanIsAppendOnly(walk: string -> seq<WalkEvent>, dirs: seq<string>, k: nat)
    requires k <= |dirs|
    ensures RunOutcome(walk, dirs[..k]).inserts <= RunOutcome(walk, dirs).inserts
  {
    RunAppend(walk, dirs[..k], dirs[k..]);
    assert dirs[..k] + dirs[k..] == dirs;
  }

  /** After the first `i` directories, the index holds `bindings` and the
      log holds `logged`, and the rest of the scan completes the whole. */
  ghost predicate ScannedUpTo(walk: string -> seq<WalkEvent>, dirs: seq<string>, i: nat,
                              bindings: seq<Binding<DesktopEntry>>, logged: seq<WalkError>)
  {
    && i <= |dirs|
    && var r, all := RunOutcome(walk, dirs[i..]), RunOutcome(walk, dirs);
       bindings + r.inserts == all.inserts && logged + r.logged == all.logged && r.status == all.status
  }

  /** Scanning one more directory that does not end the run. */
  lemma ScanStep(walk: string -> seq<WalkEvent>, dirs: seq<string>, i: nat,
                 bindings: seq<Binding<DesktopEntry>>, logged: seq<WalkError>)
    requires i < |dirs| && ScannedUpTo(walk, dirs, i, bindings, logged)
    requires !WalkOutcome(walk(dirs[i])).end.Terminated?
    ensures var w := WalkOutcome(walk(dirs[i]));
      ScannedUpTo(walk, dirs, i + 1, bindings + w.inserts, logged + Logged(w.end))
  {
    assert dirs[i..][0] == dirs[i];
    assert dirs[i..][1..] == dirs[i + 1..];
    var w, rest := WalkOutcome(walk(dirs[i])), RunOutcome(walk, dirs[i + 1..]);
    assert bindings + w.inserts + rest.inserts == bindings + (w.inserts + rest.inserts);
    assert logged + Logged(w.end) + rest.logged == logged + (Logged(w.end) + rest.logged);
  }

  /** A directory whose walk kills the process decides the status of the
      whole scan. */
  lemma ScanKilled(walk: string -> seq<WalkEvent>, dirs: seq<string>, i: nat,
                   bindings: seq<Binding<DesktopEntry>>, logged: seq<WalkError>)
    requires i < |dirs| && ScannedUpTo(walk, dirs, i, bindings, logged)
    requires WalkOutcome(walk(dirs[i])).end.Terminated?
    ensures var w := WalkOutcome(walk(dirs[i]));
      RunOutcome(walk, dirs) == Run(bindings + w.inserts, logged, Killed(w.end.fatal))
  {
    assert dirs[i..][0] == dirs[i];
  }

  /** The walk callback (the function literal handed to `WalkDir`). */
  method Callback(index: PrefixMap<DesktopEntry>, ev: WalkEvent) returns (reply: Reply)
    modifies index
    ensures reply == CallbackOutcome(ev).reply
    ensures index.bindings == old(index.bindings) + CallbackOutcome(ev).inserts
  {
    if ev.err.Some? && ev.err.value.NotExist? {
      return Nil;
    }
    if ev.entry.None? {
      return NilDeref;
    }
    if !HasSuffix(ToLower(ev.entry.value), DesktopSuffix) {
      return Nil;
    }
    if ev.err.Some? {
      return Err(ev.err.value);
    }
    match ev.file {
      case Malformed(_) =>
        return OsExit;
      case Parsed(sections) =>
        InsertSections(index, ev.path, sections);
        return Nil;
    }
  }

  /** `filepath.WalkDir` with the callback over one directory's events. */
  method WalkDir(index: PrefixMap<DesktopEntry>, events: seq<WalkEvent>) returns (end: WalkEnd)
    modifies index
    ensures end == WalkOutcome(events).end
    ensures index.bindings == old(index.bindings) + WalkOutcome(events).inserts
  {
    var rest := events;
    while rest != []
      invariant WalkOutcome(rest).end == WalkOutcome(events).end
      invariant index.bindings + WalkOutcome(rest).inserts == old(index.bindings) + WalkOutcome(events).inserts
      decreases |rest|
    {
      ghost var before := index.bindings;
      var reply := Callback(index, rest[0]);
      if reply != Nil {
        return EndOf(reply);
      }
      ghost var o, w := CallbackOutcome(rest[0]), WalkOutcome(rest[1..]);
      assert index.bindings + w.inserts == before + (o.inserts + w.inserts);
      rest := rest[1..];
    }
    return Finished;
  }

  /** The loop over the directories: each walk error is logged and the next
      directory is scanned; `os.Exit` or a panic ends the loop. */
  method IndexDirectories(walk: string -> seq<WalkEvent>, dirs: seq<string>)
    returns (index: PrefixMap<DesktopEntry>, logged: seq<WalkError>, status: Status)
    ensures fresh(index)
    ensures index.bindings == RunOutcome(walk, dirs).inserts
    ensures logged == RunOutcome(walk, dirs).logged
    ensures status == RunOutcome(walk, dirs).status
  {
    index := new PrefixMap<DesktopEntry>();
    logged := [];
    var i := 0;
    while i < |dirs|
      invariant fresh(index)
      invariant ScannedUpTo(walk, dirs, i, index.bindings, logged)
    {
      ghost var before, loggedBefore := index.bindings, logged;
      ghost var w := WalkOutcome(walk(dirs[i]));
      var end := WalkDir(index, walk(dirs[i]));
      assert end == w.end && index.bindings == before + w.inserts;
      if end.Terminated? {
        ScanKilled(walk, dirs, i, before, logged);
        status := Killed(end.fatal);
        return;
      }
      if end.Returned? {
        logged := logged + [end.err];
      }
      assert logged == loggedBefore + Logged(w.end);
      ScanStep(walk, dirs, i, before, loggedBefore);
      i := i + 1;
    }
    assert dirs[|dirs|..] == [];
    status := Completed;
  }

  /** `getDesktopEntries`: the scan of the four candidate directories. */
  method GetDesktopEntries(walk: string -> seq<WalkEvent>, home: string)
    returns (index: PrefixMap<DesktopEntry>, logged: seq<WalkError>, status: Status)
    ensures fresh(index)
    ensures index.bindings == RunOutcome(walk, CandidateDirs(home)).inserts
    ensures logged == RunOutcome(walk, CandidateDirs(home)).logged
    ensures status == RunOutcome(walk, CandidateDirs(home)).status
  {
    index, logged, status := IndexDirectories(walk, CandidateDirs(home));
  }
}
