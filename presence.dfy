/**
 * The presence tracker as values: the state the server keeps, what one ping does to it,
 * what the absence sweep keeps, and what the server writes to the store and its log.
 * The class in module Server is proved to behave as these functions say.
 */
module Presence {
  import opened Common

  /** The `IsHere` value written to a dog's store record: `True`, or the sentinel "nil". */
  datatype HereFlag = HereTrue | HereNil

  /** One put of a dog's record, with `IsHere` set to `flag`. */
  datatype StoreWrite = StoreWrite(name: string, flag: HereFlag)

  /** The lines the server logs. */
  datatype LogEvent =
    | RawPing(line: string)           // verbose mode: every stripped line
    | Arrived(name: string)           // "<name> is in the Office!"
    | UnknownDawg(minor: string)      // "Unknown Dawg! ping.minor: <minor>"
    | MarkedAbsent(name: string)      // "<name> hasn't been in the office in a while, ..."
    | MissingMinorId(name: string)    // "<name> does not have a minor ID. ..."

  /** `dawgs_in_office` (name -> last-seen epoch seconds) and `unknown_dawgs`. */
  datatype State = State(inOffice: map<string, nat>, unknown: seq<string>)

  /** The state after a ping, with the store writes and log lines it caused, in order. */
  datatype Step = Step(next: State, writes: seq<StoreWrite>, events: seq<LogEvent>)

  const Empty: State := State(map[], [])

  /** What the tracker keeps true: every present dog is a registered name, and every
      unknown minor id is recorded once and really is unregistered. */
  ghost predicate Consistent(nameMap: map<string, string>, s: State)
  {
    && (forall name :: name in s.inOffice ==> name in nameMap.Values)
    && Distinct(s.unknown)
    && (forall i :: 0 <= i < |s.unknown| ==> s.unknown[i] !in nameMap)
  }

  /** `mark_dawg_in_office` once the ping's minor id is known. */
  function MarkMinor(nameMap: map<string, string>, s: State, minor: string, now: nat): (r: Step)
    ensures minor in nameMap ==> nameMap[minor] in r.next.inOffice && r.next.inOffice[nameMap[minor]] == now
    ensures minor !in nameMap ==> r.next.inOffice == s.inOffice
    ensures |r.writes| <= 1 && (r.writes != [] ==> r.writes[0].flag == HereTrue)
    ensures r.next.unknown == s.unknown || r.next.unknown == s.unknown + [minor]
  {
    if minor in nameMap then
      var name := nameMap[minor];
      if name in s.inOffice then
        Step(State(s.inOffice[name := now], s.unknown), [], [])
      else
        Step(State(s.inOffice[name := now], s.unknown), [StoreWrite(name, HereTrue)], [Arrived(name)])
    else if minor in s.unknown then
      Step(s, [], [])
    else
      Step(State(s.inOffice, s.unknown + [minor]), [], [UnknownDawg(minor)])
  }

  /** The entries the sweep at `now` keeps: those seen less than `threshold` seconds ago. */
  function Kept(inOffice: map<string, nat>, threshold: int, now: nat): (r: map<string, nat>)
    ensures r.Keys <= inOffice.Keys
  {
    map name | name in inOffice && now - inOffice[name] < threshold :: inOffice[name]
  }

  /** The names the sweep at `now` marks absent (the threshold is inclusive). */
  function Expired(inOffice: map<string, nat>, threshold: int, now: nat): (r: set<string>)
    ensures r <= inOffice.Keys
  {
    set name | name in inOffice && now - inOffice[name] >= threshold
  }

  /** The store writes that mark `names` absent, in that order. */
  function NilWrites(names: seq<string>): seq<StoreWrite>
  {
    if names == [] then []
    else NilWrites(names[..|names| - 1]) + [StoreWrite(names[|names| - 1], HereNil)]
  }

  /** The log lines for marking `names` absent, in that order. */
  function AbsentEvents(names: seq<string>): seq<LogEvent>
  {
    if names == [] then []
    else AbsentEvents(names[..|names| - 1]) + [MarkedAbsent(names[|names| - 1])]
  }

  /** The `IsHere` value that the last write for `name` left in the store, if any. */
  function LastFlag(writes: seq<StoreWrite>, name: string): Option<HereFlag>
  {
    if writes == [] then None
    else if writes[|writes| - 1].name == name then Some(writes[|writes| - 1].flag)
    else LastFlag(writes[..|writes| - 1], name)
  }

  /** The store mirrors the tracker: a dog is in the office exactly when the last
      write for it set `IsHere` to `True`. */
  ghost predicate Mirrors(s: State, writes: seq<StoreWrite>)
  {
    forall name {:trigger LastFlag(writes, name)} ::
      name in s.inOffice <==> LastFlag(writes, name) == Some(HereTrue)
  }

  // ---- one ping ----

  /** A ping writes to the store exactly when it brings a registered dog in from absent,
      and then writes `IsHere = True` for that dog, once. */
  lemma MarkWritesOnArrival(nameMap: map<string, string>, s: State, minor: string, now: nat)
    ensures var step := MarkMinor(nameMap, s, minor, now);
      && |step.writes| <= 1
      && (step.writes != [] <==> minor in nameMap && nameMap[minor] !in s.inOffice)
      && (step.writes != [] ==> step.writes == [StoreWrite(nameMap[minor], HereTrue)])
  {
  }

  /** A ping for a registered dog stamps that dog with `now`; every other entry keeps its
      timestamp. A ping for an unregistered id leaves the timestamps alone. */
  lemma MarkTimestamps(nameMap: map<string, string>, s: State, minor: string, now: nat)
    ensures var next := MarkMinor(nameMap, s, minor, now).next;
      && (minor in nameMap ==>
            next.inOffice.Keys == s.inOffice.Keys + {nameMap[minor]} && next.inOffice[nameMap[minor]] == now)
      && (minor !in nameMap ==> next.inOffice == s.inOffice)
      && (forall name :: name in s.inOffice && (minor !in nameMap || name != nameMap[minor]) ==>
            name in next.inOffice && next.inOffice[name] == s.inOffice[name])
  {
  }

  /** An unregistered id is recorded, at the end and only the first time it is seen;
      a registered one is never recorded. */
  lemma MarkRecordsUnknown(nameMap: map<string, string>, s: State, minor: string, now: nat)
    ensures var step := MarkMinor(nameMap, s, minor, now);
      && (minor in nameMap || minor in s.unknown ==> step.next.unknown == s.unknown)
      && (minor !in nameMap && minor !in s.unknown ==>
            step.next.unknown == s.unknown + [minor] && step.events == [UnknownDawg(minor)])
      && (minor !in nameMap && minor in s.unknown ==> step.events == [] && step.writes == [])
  {
  }

  /** The same ping twice in a row: the second one writes nothing and logs nothing. */
  lemma MarkTwice(nameMap: map<string, string>, s: State, minor: string, now: nat, later: nat)
    ensures var first := MarkMinor(nameMap, s, minor, now);
      var second := MarkMinor(nameMap, first.next, minor, later);
      && second.writes == [] && second.events == []
      && second.next.unknown == first.next.unknown
      && second.next.inOffice.Keys == first.next.inOffice.Keys
  {
  }

  lemma MarkKeepsConsistent(nameMap: map<string, string>, s: State, minor: string, now: nat)
    requires Consistent(nameMap, s)
    ensures Consistent(nameMap, MarkMinor(nameMap, s, minor, now).next)
  {
  }

  // ---- the store's write log ----

  /** Later writes win: the last write for a name is in the appended part if there is one. */
  lemma {:induction false} LastFlagAppend(w: seq<StoreWrite>, e: seq<StoreWrite>, name: string)
    ensures LastFlag(w + e, name) == if LastFlag(e, name).Some? then LastFlag(e, name) else LastFlag(w, name)
  {
    if e != [] {
      var we := w + e;
      assert we[|we| - 1] == e[|e| - 1];
      assert we[..|we| - 1] == w + e[..|e| - 1];
      LastFlagAppend(w, e[..|e| - 1], name);
    } else {
      assert w + e == w;
    }
  }

  /** After the writes that mark `names` absent, a name's last flag is "nil" exactly
      when it is one of them. */
  lemma {:induction false} LastFlagNilWrites(names: seq<string>, name: string)
    ensures LastFlag(NilWrites(names), name) == if name in names then Some(HereNil) else None
  {
    if names != [] {
      var init := names[..|names| - 1];
      LastFlagNilWrites(init, name);
      assert names == init + [names[|names| - 1]];
      var nw := NilWrites(names);
      assert nw[..|nw| - 1] == NilWrites(init);
    }
  }

  lemma MarkKeepsMirror(nameMap: map<string, string>, s: State, w: seq<StoreWrite>, minor: string, now: nat)
    requires Mirrors(s, w)
    ensures var step := MarkMinor(nameMap, s, minor, now); Mirrors(step.next, w + step.writes)
  {
    var step := MarkMinor(nameMap, s, minor, now);
    forall name
      ensures name in step.next.inOffice <==> LastFlag(w + step.writes, name) == Some(HereTrue)
    {
      LastFlagAppend(w, step.writes, name);
    }
  }

  // ---- the absence sweep ----

  /** The sweep splits the present dogs in two: the ones it keeps, untouched, and the
      ones it marks absent. */
  lemma SweepPartition(inOffice: map<string, nat>, threshold: int, now: nat)
    ensures var kept := Kept(inOffice, threshold, now);
      && kept.Keys !! Expired(inOffice, threshold, now)
      && kept.Keys + Expired(inOffice, threshold, now) == inOffice.Keys
      && (forall name :: name in kept ==> kept[name] == inOffice[name])
  {
  }

  /** When a sweep has visited every present dog, keeping exactly those seen less than
      `threshold` seconds before `now` and listing each of the others once, it has kept
      `Kept` and listed `Expired`, each expired name exactly once. */
  lemma SweepDone(inOffice: map<string, nat>, threshold: int, now: nat,
                  after: map<string, nat>, removed: seq<string>)
    requires forall name :: name in after ==> name in inOffice && after[name] == inOffice[name]
    requires forall name :: name in inOffice ==> (name in after <==> now - inOffice[name] < threshold)
    requires forall name :: name in removed <==> name in inOffice && now - inOffice[name] >= threshold
    requires Distinct(removed)
    ensures after == Kept(inOffice, threshold, now)
    ensures forall name :: name in removed <==> name in Expired(inOffice, threshold, now)
    ensures |removed| == |Expired(inOffice, threshold, now)|
  {
    assert Elements(removed) == Expired(inOffice, threshold, now);
    DistinctSize(removed);
  }

  /** Marking one more dog absent adds its write and its log line at the end of what was
      written and logged so far. */
  lemma SweepOneMore(w: seq<StoreWrite>, events: seq<LogEvent>, names: seq<string>, name: string)
    ensures w + NilWrites(names + [name]) == (w + NilWrites(names)) + [StoreWrite(name, HereNil)]
    ensures events + AbsentEvents(names + [name]) == (events + AbsentEvents(names)) + [MarkedAbsent(name)]
  {
    assert (names + [name])[..|names|] == names;
  }

  /** A dog last seen exactly `threshold` seconds ago is marked absent. */
  lemma SweepBoundary(inOffice: map<string, nat>, threshold: int, now: nat, name: string)
    requires name in inOffice && now - inOffice[name] == threshold
    ensures name in Expired(inOffice, threshold, now) && name !in Kept(inOffice, threshold, now)
  {
  }

  /** A second sweep at the same time finds nothing to remove. */
  lemma SweepIdempotent(inOffice: map<string, nat>, threshold: int, now: nat)
    ensures Expired(Kept(inOffice, threshold, now), threshold, now) == {}
    ensures Kept(Kept(inOffice, threshold, now), threshold, now) == Kept(inOffice, threshold, now)
  {
  }

  /** A later sweep marks absent at least the dogs an earlier one would. */
  lemma SweepMonotonic(inOffice: map<string, nat>, threshold: int, now: nat, later: nat)
    requires now <= later
    ensures Expired(inOffice, threshold, now) <= Expired(inOffice, threshold, later)
  {
  }

  lemma SweepKeepsConsistent(nameMap: map<string, string>, s: State, threshold: int, now: nat)
    requires Consistent(nameMap, s)
    ensures Consistent(nameMap, State(Kept(s.inOffice, threshold, now), s.unknown))
  {
  }

  /** Writing "nil" for exactly the expired dogs, in any order and once each, keeps the
      store mirroring the tracker. */
  lemma SweepKeepsMirror(s: State, w: seq<StoreWrite>, threshold: int, now: nat, removed: seq<string>)
    requires Mirrors(s, w)
    requires forall name :: name in removed <==> name in Expired(s.inOffice, threshold, now)
    ensures Mirrors(State(Kept(s.inOffice, threshold, now), s.unknown), w + NilWrites(removed))
  {
    var kept := Kept(s.inOffice, threshold, now);
    forall name
      ensures name in kept <==> LastFlag(w + NilWrites(removed), name) == Some(HereTrue)
    {
      LastFlagAppend(w, NilWrites(removed), name);
      LastFlagNilWrites(removed, name);
    }
  }
}
