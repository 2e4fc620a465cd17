/**
 The lookup side: the query `main` builds from the line read from standard
 input, and the lookup `printResults` makes with it.

 `ReadString('\n')` returns the line together with its terminating line feed,
 and the query is that whole line lower-cased. No key built from a
 single-line `Name` value contains a line feed, so a query typed and ended
 with Enter matches nothing. `CorrectedQuery` is the query with the line
 terminator removed first, which is what the lookup evidently intends.
 */
module Query {
  import opened Text
  import opened PrefixMaps
  import opened Entries
  import opened Scan

  predicate EndsWithNewline(s: string)
  {
    |s| > 0 && s[|s| - 1] == '\n'
  }

  /** The query as `main` builds it: the whole input line lower-cased, with
      nothing trimmed, so a line feed at its end stays there. */
  function NormalizeQuery(line: string): (query: string)
    ensures |query| == |line|
    ensures forall i :: 0 <= i < |line| ==> (query[i] == '\n' <==> line[i] == '\n')
    ensures EndsWithNewline(line) ==> EndsWithNewline(query)
  {
    ToLower(line)
  }

  /** A query ending in a line feed finds nothing in an index none of whose
      keys contains a line feed. */
  lemma NewlineQueryFindsNothing(bindings: seq<Binding<DesktopEntry>>, line: string)
    ensures EndsWithNewline(line) && (forall i :: 0 <= i < |bindings| ==> '\n' !in bindings[i].key) ==>
      Matching(bindings, NormalizeQuery(line)) == []
  {
    if EndsWithNewline(line) && (forall i :: 0 <= i < |bindings| ==> '\n' !in bindings[i].key) {
      var query := NormalizeQuery(line);
      forall i | 0 <= i < |bindings|
        ensures !IsPrefix(query, bindings[i].key)
      {
        if |query| <= |bindings[i].key| {
          assert bindings[i].key[|query| - 1] in bindings[i].key;
        }
      }
      MatchingMembers(bindings, query);
    }
  }

  /** The lookup `printResults` makes for an input line, as written: the
      records whose key starts with the lower-cased line, line feed included;
      so a line ended by Enter finds nothing when no key has a line feed. */
  function Search(index: PrefixMap<DesktopEntry>, line: string): (results: seq<DesktopEntry>)
    reads index
    ensures forall j :: 0 <= j < |results| ==> BoundUnderPrefix(index.bindings, ToLower(line), results[j])
    ensures forall i :: 0 <= i < |index.bindings| && IsPrefix(ToLower(line), index.bindings[i].key) ==>
      index.bindings[i].value in results
    ensures EndsWithNewline(line) && (forall i :: 0 <= i < |index.bindings| ==> '\n' !in index.bindings[i].key) ==>
      results == []
  {
    NewlineQueryFindsNothing(index.bindings, line);
    index.GetByPrefix(NormalizeQuery(line))
  }

  /** The line without the terminator `ReadString('\n')` leaves on it: a
      final line feed, and a carriage return just before it. */
  function StripLineEnd(line: string): (body: string)
    ensures line == body || line == body + "\n" || line == body + "\r\n"
    ensures EndsWithNewline(line) ==> line != body
    ensures EndsWithNewline(line) && !HasSuffix(line[..|line| - 1], "\r") ==> body == line[..|line| - 1]
  {
    if EndsWithNewline(line) then
      var s := line[..|line| - 1];
      assert line == s + "\n";
      if |s| > 0 && s[|s| - 1] == '\r' then
        assert s == s[..|s| - 1] + "\r";
        s[..|s| - 1]
      else s
    else line
  }

  /** What the user typed is recovered from the line, whichever terminator
      the line has. */
  lemma {:induction false} StripLineEndRecoversTyped(typed: string)
    requires !HasSuffix(typed, "\r")
    ensures StripLineEnd(typed) == typed || EndsWithNewline(typed)
    ensures StripLineEnd(typed + "\n") == typed
    ensures StripLineEnd(typed + "\r\n") == typed
  {
    var l1, l2 := typed + "\n", typed + "\r\n";
    assert l1[..|l1| - 1] == typed;
    assert l2[..|l2| - 1] == typed + "\r";
    assert (typed + "\r")[..|typed|] == typed;
    if |typed| > 0 {
      assert typed[|typed| - 1..] == [typed[|typed| - 1]];
    }
  }

  /** The evidently intended query: the input line without its terminator,
      lower-cased. */
  function CorrectedQuery(line: string): (query: string)
    ensures !EndsWithNewline(line) ==> query == NormalizeQuery(line)
    ensures EndsWithNewline(line) && !HasSuffix(line[..|line| - 1], "\r") ==>
      query == ToLower(line[..|line| - 1])
  {
    ToLower(StripLineEnd(line))
  }

  /** With the corrected query, a record is found when what was typed before
      Enter, lower-cased, starts its key. */
  lemma CorrectedQueryFindsTypedPrefix(bindings: seq<Binding<DesktopEntry>>, typed: string, i: nat)
    requires !HasSuffix(typed, "\r")
    requires i < |bindings| && IsPrefix(ToLower(typed), bindings[i].key)
    ensures bindings[i].value in Matching(bindings, CorrectedQuery(typed + "\n"))
  {
    StripLineEndRecoversTyped(typed);
    MatchingMembers(bindings, CorrectedQuery(typed + "\n"));
  }

  /** The corrected lookup: the records whose key starts with the
      lower-cased input line, its terminator removed. */
  function CorrectedSearch(index: PrefixMap<DesktopEntry>, line: string): (results: seq<DesktopEntry>)
    reads index
    ensures forall j :: 0 <= j < |results| ==>
      BoundUnderPrefix(index.bindings, ToLower(StripLineEnd(line)), results[j])
    ensures forall i :: 0 <= i < |index.bindings| && IsPrefix(ToLower(StripLineEnd(line)), index.bindings[i].key) ==>
      index.bindings[i].value in results
  {
    index.GetByPrefix(CorrectedQuery(line))
  }

  const FirefoxDir := "/usr/share/applications"
  const FirefoxPath := "/usr/share/applications/firefox.desktop"

  /** A `.desktop` file with one `Desktop Entry` section for Firefox. */
  function FirefoxFile(): IniFile
  {
    Parsed([Section("Desktop Entry", map["Name" := "Firefox", "Exec" := "firefox %u"])])
  }

  function FirefoxEntry(): DesktopEntry
  {
    DesktopEntry("Firefox", "firefox %u", FirefoxPath)
  }

  /** A directory holding the Firefox launcher: its walk visits the
      directory itself, then the file. */
  function FirefoxWalk(dir: string): seq<WalkEvent>
  {
    if dir == FirefoxDir then
      [WalkEvent(FirefoxDir, Some("applications"), None, Malformed("is a directory")),
       WalkEvent(FirefoxPath, Some("firefox.desktop"), None, FirefoxFile())]
    else []
  }

  /** The lower-cased spellings the scenarios below rely on. */
  lemma LowerCaseSpellings()
    ensures ToLower("Firefox") == "firefox"
    ensures ToLower("FIRE") == "fire"
    ensures ToLower("fire\n") == "fire\n"
  {
    assert ToLower("Firefox")[0] == 'f';
    assert ToLower("FIRE")[0] == 'f';
    assert ToLower("fire\n")[4] == '\n';
  }

  /** The directory entry `applications` is not a `.desktop` file. */
  lemma ApplicationsIsNotDesktopName()
    ensures !IsDesktopName("applications")
  {
    assert ToLower("applications")[4] == 'i';
  }

  /** `firefox.desktop` is a `.desktop` file. */
  lemma FirefoxIsDesktopName()
    ensures IsDesktopName("firefox.desktop")
  {
    DesktopSuffixNames("firefox");
    assert "firefox" + DesktopSuffix == "firefox.desktop";
  }

  /** `broken.desktop` is a `.desktop` file. */
  lemma BrokenIsDesktopName()
    ensures IsDesktopName("broken.desktop")
  {
    DesktopSuffixNames("broken");
    assert "broken" + DesktopSuffix == "broken.desktop";
  }

  /** The Firefox file gives one record, under the key `firefox`. */
  lemma FirefoxFileInserts()
    ensures FileInserts(FirefoxPath, FirefoxFile().sections) == [Binding("firefox", FirefoxEntry())]
  {
    var section := Section("Desktop Entry", map["Name" := "Firefox", "Exec" := "firefox %u"]);
    assert KeyValue(section, "Name") == "Firefox";
    assert KeyValue(section, "Exec") == "firefox %u";
    LowerCaseSpellings();
    assert InsertOf(FirefoxPath, section) == Binding("firefox", FirefoxEntry());
    assert [section][1..] == [];
  }

  /** The walk of the Firefox directory skips the directory entry, loads
      the file and finishes. */
  lemma FirefoxWalkOutcome()
    ensures WalkOutcome(FirefoxWalk(FirefoxDir)) == Walk([Binding("firefox", FirefoxEntry())], Finished)
  {
    var events := FirefoxWalk(FirefoxDir);
    ApplicationsIsNotDesktopName();
    FirefoxIsDesktopName();
    FirefoxFileInserts();
    var found := [Binding("firefox", FirefoxEntry())];
    assert CallbackOutcome(events[0]) == Outcome(Nil, []);
    assert CallbackOutcome(events[1]) == Outcome(Nil, found);
    var tail := events[1..];
    assert tail[1..] == [];
    assert tail[0] == events[1];
    assert WalkOutcome(tail) == Walk(found + [], Finished);
    assert WalkOutcome(events) == Walk([] + found, Finished);
  }

  /** The index the Firefox directory produces. */
  function FirefoxIndex(): seq<Binding<DesktopEntry>>
  {
    [Binding("firefox", FirefoxEntry())]
  }

  /** Lookups in the Firefox index for queries typed without Enter: `fire`
      finds Firefox and `zzz` finds nothing. */
  lemma FirefoxTypedLookups()
    ensures Matching(FirefoxIndex(), "fire") == [FirefoxEntry()]
    ensures Matching(FirefoxIndex(), "zzz") == []
  {
    assert FirefoxIndex()[1..] == [];
    assert IsPrefix("fire", "firefox");
    assert !IsPrefix("zzz", "firefox") by {
      assert "firefox"[..3][0] == 'f';
    }
  }

  /** Lookups in the Firefox index for lines ended by Enter: as written,
      `fire` plus Enter finds nothing; with the corrected query `FIRE` plus
      Enter finds Firefox. */
  lemma FirefoxEnterLookups()
    ensures Matching(FirefoxIndex(), NormalizeQuery("fire\n")) == []
    ensures Matching(FirefoxIndex(), CorrectedQuery("FIRE\n")) == [FirefoxEntry()]
  {
    assert FirefoxIndex()[1..] == [];
    LowerCaseSpellings();
    assert !IsPrefix("fire\n", "firefox") by {
      assert "firefox"[4] == 'f';
    }
    StripLineEndRecoversTyped("FIRE");
    assert "FIRE" + "\n" == "FIRE\n";
    assert CorrectedQuery("FIRE\n") == "fire";
    assert IsPrefix("fire", "firefox");
  }

  /** Scanning the Firefox directory indexes one record under `firefox`.
      `fire` finds it and `zzz` does not; the line `fire` ended by Enter
      finds nothing as written, and `FIRE` ended by Enter finds it with the
      corrected query. */
  lemma FirefoxScenario()
    ensures var run := RunOutcome(FirefoxWalk, [FirefoxDir]);
      && run.status == Completed
      && run.inserts == [Binding("firefox", FirefoxEntry())]
      && Matching(run.inserts, "fire") == [FirefoxEntry()]
      && Matching(run.inserts, "zzz") == []
      && Matching(run.inserts, NormalizeQuery("fire\n")) == []
      && Matching(run.inserts, CorrectedQuery("FIRE\n")) == [FirefoxEntry()]
  {
    FirefoxWalkOutcome();
    RunOne(FirefoxWalk, FirefoxDir);
    FirefoxTypedLookups();
    FirefoxEnterLookups();
  }

  /** A `.desktop` file the INI loader rejects makes the callback exit. */
  lemma MalformedFileExits(broken: string)
    ensures WalkOutcome([WalkEvent(broken, Some("broken.desktop"), None, Malformed("unclosed section"))]) ==
      Walk([], Terminated(ExitOne))
  {
    BrokenIsDesktopName();
  }

  /** A malformed `.desktop` file after the Firefox file: the walk keeps the
      Firefox record and ends with `os.Exit(1)`. */
  lemma FirefoxThenBrokenWalk(broken: string)
    ensures WalkOutcome(FirefoxWalk(FirefoxDir) +
      [WalkEvent(broken, Some("broken.desktop"), None, Malformed("unclosed section"))]) ==
      Walk([Binding("firefox", FirefoxEntry())], Terminated(ExitOne))
  {
    var bad := [WalkEvent(broken, Some("broken.desktop"), None, Malformed("unclosed section"))];
    FirefoxWalkOutcome();
    MalformedFileExits(broken);
    WalkAppend(FirefoxWalk(FirefoxDir), bad);
    assert [Binding("firefox", FirefoxEntry())] + [] == [Binding("firefox", FirefoxEntry())];
  }

  /** A malformed `.desktop` file ends the scan with `os.Exit(1)`: files
      indexed before it stay indexed, and no later directory is scanned. */
  lemma MalformedFileEndsScan(walk: string -> seq<WalkEvent>, broken: string, later: seq<string>)
    requires walk(FirefoxDir) ==
      FirefoxWalk(FirefoxDir) + [WalkEvent(broken, Some("broken.desktop"), None, Malformed("unclosed section"))]
    ensures var run := RunOutcome(walk, [FirefoxDir] + later);
      run.status == Killed(ExitOne) && run.inserts == [Binding("firefox", FirefoxEntry())]
  {
    FirefoxThenBrokenWalk(broken);
    var dirs := [FirefoxDir] + later;
    assert dirs[0] == FirefoxDir;
    var w := WalkOutcome(walk(FirefoxDir));
    assert w == Walk([Binding("firefox", FirefoxEntry())], Terminated(ExitOne));
    assert RunOutcome(walk, dirs) == ThenScan(w, RunOutcome(walk, dirs[1..]));
  }
}
