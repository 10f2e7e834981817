/**
 * The beacon server: the registry cache built at start-up, the presence state it
 * mutates on every line the scanner prints, the store it writes and the log it keeps.
 */
module Server {
  import opened Common
  import opened Ping
  import opened Registry
  import opened Presence

  /** What handling one line of scanner output came to. `Fatal` is the index error
      escaping the run loop, after which the server shuts down. */
  datatype LineOutcome = Idle | Handled(absent: seq<string>) | Fatal(error: ParseError)

  /** The warnings logged for roster entries without a minor id. */
  function MissingEvents(names: seq<string>): seq<LogEvent>
  {
    seq(|names|, i requires 0 <= i < |names| => MissingMinorId(names[i]))
  }

  class BeaconServer {
    const timeToCountAbsent: int
    const verbose: bool
    const dawgNameMap: map<string, string>
    var dawgsInOffice: map<string, nat>
    var unknownDawgs: seq<string>
    var writes: seq<StoreWrite>   // the puts to the store's `/Dogs` records, in order
    var log: seq<LogEvent>        // the lines written to the log, in order

    function Snapshot(): State
      reads this
    {
      State(dawgsInOffice, unknownDawgs)
    }

    ghost predicate Valid()
      reads this
    {
      Consistent(dawgNameMap, Snapshot()) && Mirrors(Snapshot(), writes)
    }

    /** `BeaconServer.__init__`: empty presence state and the registry cache built from
        the roster read from the store. */
    constructor (timeToCountAbsent: int, verbose: bool, roster: map<string, Attributes>)
      ensures Valid()
      ensures this.timeToCountAbsent == timeToCountAbsent && this.verbose == verbose
      ensures dawgNameMap.Keys == DeclaredMinorIds(roster) && Faithful(roster, dawgNameMap)
      ensures Snapshot() == Empty && writes == []
      ensures forall name :: MissingMinorId(name) in log <==> name in Unidentified(roster)
      ensures Distinct(log) && |log| == |Unidentified(roster)|
      ensures forall i :: 0 <= i < |log| ==> log[i].MissingMinorId?
    {
      var nameMap, missing := BuildDawgNameMap(roster);
      this.timeToCountAbsent := timeToCountAbsent;
      this.verbose := verbose;
      dawgNameMap := nameMap;
      dawgsInOffice := map[];
      unknownDawgs := [];
      writes := [];
      log := MissingEvents(missing);
      new;
      forall name ensures MissingMinorId(name) in log <==> name in missing {
        if name in missing {
          var i :| 0 <= i < |missing| && missing[i] == name;
          assert log[i] == MissingMinorId(name);
        }
      }
    }

    /** `update_dawg_in_office_status`: read the dog's record, set `IsHere`, put it back. */
    method UpdateDawgInOfficeStatus(name: string, flag: HereFlag)
      modifies this`writes
      ensures writes == old(writes) + [StoreWrite(name, flag)]
    {
      writes := writes + [StoreWrite(name, flag)];
    }

    /** `mark_dawg_in_office`: parse the line, then bring the dog in, refresh it, or
        record the unknown minor id. A line that does not parse changes nothing. */
    method MarkDawgInOffice(rawPing: string, now: nat) returns (r: Result<BeaconPing, ParseError>)
      requires Valid()
      modifies this`dawgsInOffice, this`unknownDawgs, this`writes, this`log
      ensures Valid()
      ensures r == Parse(rawPing)
      ensures r.Err? ==> Snapshot() == old(Snapshot()) && writes == old(writes) && log == old(log)
      ensures r.Ok? ==>
        var step := MarkMinor(dawgNameMap, old(Snapshot()), r.value.minor, now);
        Snapshot() == step.next && writes == old(writes) + step.writes && log == old(log) + step.events
    {
      r := Parse(rawPing);
      if r.Err? {
        return;
      }
      var minor := r.value.minor;
      MarkKeepsConsistent(dawgNameMap, Snapshot(), minor, now);
      MarkKeepsMirror(dawgNameMap, Snapshot(), writes, minor, now);
      if minor in dawgNameMap {
        var name := dawgNameMap[minor];
        if name !in dawgsInOffice {
          log := log + [Arrived(name)];
          UpdateDawgInOfficeStatus(name, HereTrue);
        }
        dawgsInOffice := dawgsInOffice[name := now];
      } else if minor !in unknownDawgs {
        unknownDawgs := unknownDawgs + [minor];
        log := log + [UnknownDawg(minor)];
      }
    }

    /** `check_for_absent_dawgs`: visit a snapshot of the present names, in the dictionary's
        (unspecified) order, and mark absent each one seen `timeToCountAbsent` or more
        seconds before `now`. Returns the names marked absent, in the order visited. */
    method CheckForAbsentDawgs(now: nat) returns (removed: seq<string>)
      requires Valid()
      modifies this`dawgsInOffice, this`writes, this`log
      ensures Valid()
      ensures dawgsInOffice == Kept(old(dawgsInOffice), timeToCountAbsent, now)
      ensures forall name :: name in removed <==> name in Expired(old(dawgsInOffice), timeToCountAbsent, now)
      ensures Distinct(removed) && |removed| == |Expired(old(dawgsInOffice), timeToCountAbsent, now)|
      ensures writes == old(writes) + NilWrites(removed)
      ensures log == old(log) + AbsentEvents(removed)
    {
      ghost var before := dawgsInOffice;
      SweepKeepsConsistent(dawgNameMap, Snapshot(), timeToCountAbsent, now);
      var names := dawgsInOffice.Keys;
      removed := [];
      while names != {}
        invariant names <= before.Keys
        invariant forall name :: name in dawgsInOffice ==>
          name in before && dawgsInOffice[name] == before[name]
        invariant forall name :: name in before ==>
          (name in dawgsInOffice <==> name in names || now - before[name] < timeToCountAbsent)
        invariant forall name :: name in removed <==>
          name in before && name !in names && now - before[name] >= timeToCountAbsent
        invariant Distinct(removed)
        invariant writes == old(writes) + NilWrites(removed)
        invariant log == old(log) + AbsentEvents(removed)
        decreases names
      {
        var name :| name in names;
        var lastSeen := dawgsInOffice[name];
        if now - lastSeen >= timeToCountAbsent {
          SweepOneMore(old(writes), old(log), removed, name);
          log := log + [MarkedAbsent(name)];
          dawgsInOffice := dawgsInOffice - {name};
          UpdateDawgInOfficeStatus(name, HereNil);
          DistinctSnoc(removed, name);
          removed := removed + [name];
        }
        names := names - {name};
      }
      SweepDone(before, timeToCountAbsent, now, dawgsInOffice, removed);
      SweepKeepsMirror(State(before, unknownDawgs), old(writes), timeToCountAbsent, now, removed);
    }

    /** One turn of the run loop in `start`: a line read from the scanner is stripped of
        trailing whitespace, echoed in verbose mode, marked, and followed by a sweep.
        `pingTime` and `sweepTime` are the two clock readings the turn makes. */
    method HandleLine(output: string, pingTime: nat, sweepTime: nat) returns (outcome: LineOutcome)
      requires Valid()
      modifies this`dawgsInOffice, this`unknownDawgs, this`writes, this`log
      ensures Valid()
      ensures output == [] ==>
        outcome == Idle && Snapshot() == old(Snapshot()) && writes == old(writes) && log == old(log)
      ensures output != [] ==>
        var line := RStrip(output);
        var echo := if verbose then [RawPing(line)] else [];
        match Parse(line)
        case Err(e) =>
          outcome == Fatal(e) && Snapshot() == old(Snapshot()) && writes == old(writes)
          && log == old(log) + echo
        case Ok(ping) =>
          var step := MarkMinor(dawgNameMap, old(Snapshot()), ping.minor, pingTime);
          && outcome.Handled?
          && Snapshot() == State(Kept(step.next.inOffice, timeToCountAbsent, sweepTime), step.next.unknown)
          && (forall name :: name in outcome.absent <==>
                name in Expired(step.next.inOffice, timeToCountAbsent, sweepTime))
          && Distinct(outcome.absent)
          && |outcome.absent| == |Expired(step.next.inOffice, timeToCountAbsent, sweepTime)|
          && writes == old(writes) + step.writes + NilWrites(outcome.absent)
          && log == old(log) + echo + step.events + AbsentEvents(outcome.absent)
    {
      if output == [] {
        return Idle;
      }
      var line := RStrip(output);
      if verbose {
        log := log + [RawPing(line)];
      }
      var parsed := MarkDawgInOffice(line, pingTime);
      if parsed.Err? {
        return Fatal(parsed.error);
      }
      var absent := CheckForAbsentDawgs(sweepTime);
      return Handled(absent);
    }
  }

  /** In the run loop a line of whitespace is not skipped: `if output:` is tested before
      `rstrip()`, so it reaches the parser empty and the index error ends the run. */
  lemma BlankLineIsFatal(output: string)
    requires output != [] && forall i :: 0 <= i < |output| ==> IsSpace(output[i])
    ensures RStrip(output) == [] && Parse(RStrip(output)) == Err(IndexError(1))
  {
  }

  /** A line the scanner prints for the iBeacon `UUID`, major 1, the given minor id and
      power -59, with its newline. */
  function SightingLine(minor: string): string
  {
    "UUID 1 " + minor + " -59\n"
  }

  /** Such a line, for a space-free minor id, parses to its four fields. */
  lemma ParsesSighting(minor: string)
    requires NoSpace(minor)
    ensures Parse(RStrip(SightingLine(minor))) == Ok(BeaconPing("UUID", "1", minor, "-59"))
  {
    var p := BeaconPing("UUID", "1", minor, "-59");
    var line := Format(p);
    assert Parse(line) == Ok(p) by {
      ParseFormat(p, []);
      assert line + [] == line;
    }
    assert SightingLine(minor) == line + "\n" by {
      FormatFields(p);
      assert "UUID 1 " == "UUID" + [Space] + "1" + [Space];
      assert " -59\n" == [Space] + "-59" + "\n";
    }
    assert RStrip(line + "\n") == line by {
      FormatFields(p);
      assert line[|line| - 1] == '9';
      assert RStrip(line) == line;
      assert (line + "\n")[..|line|] == line;
    }
  }

  /** Rex's first sighting, at t = 0, on an empty tracker: Rex arrives, and the sweep right
      after it keeps Rex. */
  lemma RexArrives(nameMap: map<string, string>)
    requires nameMap == map["12" := "Rex"]
    ensures MarkMinor(nameMap, Empty, "12", 0)
      == Step(State(map["Rex" := 0], []), [StoreWrite("Rex", HereTrue)], [Arrived("Rex")])
    ensures Kept(map["Rex" := 0], 100, 0) == map["Rex" := 0] && Expired(map["Rex" := 0], 100, 0) == {}
  {
  }

  /** A sighting of unregistered id 99 at t = 150: 99 is recorded, and the sweep right after
      it marks Rex absent. */
  lemma StrangerThenSweep(nameMap: map<string, string>)
    requires nameMap == map["12" := "Rex"]
    ensures MarkMinor(nameMap, State(map["Rex" := 0], []), "99", 150)
      == Step(State(map["Rex" := 0], ["99"]), [], [UnknownDawg("99")])
    ensures Kept(map["Rex" := 0], 100, 150) == map[] && Expired(map["Rex" := 0], 100, 150) == {"Rex"}
  {
  }

  /** The first turn of the Rex scenario: Rex's line at t = 0 on a fresh server. */
  method SeeRex(server: BeaconServer)
    requires server.Valid() && server.dawgNameMap == map["12" := "Rex"]
    requires server.timeToCountAbsent == 100 && !server.verbose
    requires server.Snapshot() == Empty && server.writes == [] && server.log == []
    modifies server`dawgsInOffice, server`unknownDawgs, server`writes, server`log
    ensures server.Valid() && server.Snapshot() == State(map["Rex" := 0], [])
    ensures server.writes == [StoreWrite("Rex", HereTrue)] && server.log == [Arrived("Rex")]
  {
    ParsesSighting("12");
    RexArrives(server.dawgNameMap);
    var outcome := server.HandleLine(SightingLine("12"), 0, 0);
  }

  /** The second turn: a line from unregistered id 99 at t = 150, whose sweep marks Rex
      absent. */
  method SeeStranger(server: BeaconServer)
    requires server.Valid() && server.dawgNameMap == map["12" := "Rex"]
    requires server.timeToCountAbsent == 100 && !server.verbose
    requires server.Snapshot() == State(map["Rex" := 0], [])
    modifies server`dawgsInOffice, server`unknownDawgs, server`writes, server`log
    ensures server.unknownDawgs == ["99"]
    ensures server.writes == old(server.writes) + [StoreWrite("Rex", HereNil)]
    ensures server.log == old(server.log) + [UnknownDawg("99"), MarkedAbsent("Rex")]
  {
    ParsesSighting("99");
    StrangerThenSweep(server.dawgNameMap);
    var outcome := server.HandleLine(SightingLine("99"), 150, 150);
    assert |outcome.absent| == 1 && "Rex" in outcome.absent;
    Singleton(outcome.absent, "Rex");
  }

  /** Rex (minor id 12, absence threshold 100 s) is seen at t = 0; the next line, at
      t = 150, is from an unregistered beacon, and the sweep after it marks Rex absent. */
  method RexScenario() returns (writes: seq<StoreWrite>, unknown: seq<string>, log: seq<LogEvent>)
    ensures writes == [StoreWrite("Rex", HereTrue), StoreWrite("Rex", HereNil)]
    ensures unknown == ["99"]
    ensures log == [Arrived("Rex"), UnknownDawg("99"), MarkedAbsent("Rex")]
  {
    var roster := map["Rex" := map[MinorIdKey := "12"]];
    assert roster["Rex"][MinorIdKey] == "12";
    assert DeclaredMinorIds(roster) == {"12"} && Unidentified(roster) == {};
    var server := new BeaconServer(100, false, roster);
    assert server.dawgNameMap == map["12" := "Rex"];
    SeeRex(server);
    SeeStranger(server);
    writes, unknown, log := server.writes, server.unknownDawgs, server.log;
  }
}
