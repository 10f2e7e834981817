/**
 * Parsing of one sighting line written by the scanner, `<uuid> <major> <minor> <power>`.
 * The line is split on the single space character, not on general whitespace, so two
 * adjacent spaces yield an empty field; the first four pieces become the ping and any
 * further pieces are ignored. A line with fewer than four pieces raises an index error.
 */
module Ping {
  import opened Common

  const Space: char := ' '

  datatype BeaconPing = BeaconPing(uuid: string, major: string, minor: string, power: string)

  /** The index error raised when the line has only `pieces` pieces. */
  datatype ParseError = IndexError(pieces: nat)

  /** Number of occurrences of the separator in `s`. */
  function CountSpaces(s: string): nat
  {
    if s == [] then 0 else (if s[0] == Space then 1 else 0) + CountSpaces(s[1..])
  }

  /** The separator's role as a field terminator: a field never contains it. */
  predicate NoSpace(w: string)
  {
    Space !in w
  }

  predicate AllNoSpace(parts: seq<string>)
  {
    forall k :: 0 <= k < |parts| ==> NoSpace(parts[k])
  }

  /**
   * `s.split(' ')`: the maximal space-free runs of `s`, one more of them than there are
   * spaces (so the empty string splits into one empty piece).
   */
  function Split(s: string): (parts: seq<string>)
    ensures |parts| == CountSpaces(s) + 1
    ensures AllNoSpace(parts)
  {
    if s == [] then [""]
    else if s[0] == Space then [""] + Split(s[1..])
    else
      var rest := Split(s[1..]);
      [[s[0]] + rest[0]] + rest[1..]
  }

  /** `' '.join(parts)`, the inverse of Split. */
  function Join(parts: seq<string>): string
    requires |parts| >= 1
  {
    if |parts| == 1 then parts[0] else parts[0] + [Space] + Join(parts[1..])
  }

  /** Joining a first piece and the rest: the piece, then a space and the rest's join. */
  lemma {:induction false} JoinFront(x: string, rest: seq<string>)
    ensures Join([x] + rest) == if rest == [] then x else x + [Space] + Join(rest)
  {
    assert ([x] + rest)[0] == x;
    assert ([x] + rest)[1..] == rest;
  }

  /** Putting a character in front of the first piece puts it in front of the join. */
  lemma {:induction false} JoinCons(c: char, parts: seq<string>)
    requires |parts| >= 1
    ensures Join([[c] + parts[0]] + parts[1..]) == [c] + Join(parts)
  {
    var x, rest := parts[0], parts[1..];
    JoinFront([c] + x, rest);
    if rest != [] {
      assert ([c] + x) + [Space] + Join(rest) == [c] + (x + [Space] + Join(rest));
    }
  }

  /** Joining what was split gives back the line. */
  lemma {:induction false} JoinSplit(s: string)
    ensures Join(Split(s)) == s
  {
    if s == [] {
    } else if s[0] == Space {
      JoinSplit(s[1..]);
      JoinFront("", Split(s[1..]));
      assert [s[0]] + s[1..] == s;
    } else {
      JoinSplit(s[1..]);
      JoinCons(s[0], Split(s[1..]));
      assert [s[0]] + s[1..] == s;
    }
  }

  /** A space-free word splits into itself. */
  lemma {:induction false} SplitWord(w: string)
    requires NoSpace(w)
    ensures Split(w) == [w]
  {
    if w != [] {
      SplitWord(w[1..]);
      assert [w[0]] + w[1..] == w;
    }
  }

  /** A space-free word followed by a space is split off as the first piece. */
  lemma {:induction false} SplitWordThen(w: string, t: string)
    requires NoSpace(w)
    ensures Split(w + [Space] + t) == [w] + Split(t)
  {
    if w == [] {
      assert w + [Space] + t == [Space] + t;
      assert ([Space] + t)[1..] == t;
    } else {
      var s := w + [Space] + t;
      assert s[0] == w[0] && s[1..] == w[1..] + [Space] + t;
      SplitWordThen(w[1..], t);
      assert [w[0]] + w[1..] == w;
    }
  }

  /** Splitting what was joined gives back the pieces, when none of them holds a space. */
  lemma {:induction false} SplitJoin(parts: seq<string>)
    requires |parts| >= 1 && AllNoSpace(parts)
    ensures Split(Join(parts)) == parts
  {
    if |parts| == 1 {
      SplitWord(parts[0]);
    } else {
      SplitJoin(parts[1..]);
      SplitWordThen(parts[0], Join(parts[1..]));
      assert [parts[0]] + parts[1..] == parts;
    }
  }

  /** Joining a concatenation puts one separator between the two joins. */
  lemma {:induction false} JoinAppend(a: seq<string>, b: seq<string>)
    requires |a| >= 1 && |b| >= 1
    ensures Join(a + b) == Join(a) + [Space] + Join(b)
  {
    if |a| == 1 {
      assert (a + b)[1..] == b;
    } else {
      assert (a + b)[1..] == a[1..] + b;
      JoinAppend(a[1..], b);
    }
  }

  /** The four fields written back as a line. */
  function Format(p: BeaconPing): string
  {
    Join([p.uuid, p.major, p.minor, p.power])
  }

  /** The four fields of a ping with a single space between each two. */
  lemma FormatFields(p: BeaconPing)
    ensures Format(p) == p.uuid + [Space] + p.major + [Space] + p.minor + [Space] + p.power
  {
    var fields := [p.uuid, p.major, p.minor, p.power];
    assert fields[1..] == [p.major, p.minor, p.power];
    assert fields[1..][1..] == [p.minor, p.power];
    assert fields[1..][1..][1..] == [p.power];
    assert Join(fields[1..][1..]) == p.minor + [Space] + p.power;
    assert Join(fields[1..]) == p.major + [Space] + (p.minor + [Space] + p.power);
  }

  /** `BeaconPing(line)`: the first four pieces of the line, or the index error. */
  function Parse(line: string): (r: Result<BeaconPing, ParseError>)
    ensures r.Ok? <==> CountSpaces(line) >= 3
    ensures r.Err? ==> r.error.pieces == CountSpaces(line) + 1
  {
    var parts := Split(line);
    if |parts| < 4 then Err(IndexError(|parts|))
    else Ok(BeaconPing(parts[0], parts[1], parts[2], parts[3]))
  }

  /**
   * What a successful parse means: the line starts with the four space-free fields
   * separated by single spaces, and is either over or goes on with a space.
   */
  lemma ParseFields(line: string)
    requires Parse(line).Ok?
    ensures var p := Parse(line).value;
      && NoSpace(p.uuid) && NoSpace(p.major) && NoSpace(p.minor) && NoSpace(p.power)
      && Format(p) <= line
      && (|Format(p)| == |line| || line[|Format(p)|] == Space)
  {
    var parts := Split(line);
    var p := Parse(line).value;
    assert parts[..4] == [p.uuid, p.major, p.minor, p.power];
    JoinSplit(line);
    if |parts| > 4 {
      JoinAppend(parts[..4], parts[4..]);
      assert parts[..4] + parts[4..] == parts;
    } else {
      assert parts[..4] == parts;
    }
  }

  /**
   * The inverse direction: a line made of four space-free fields, optionally followed by
   * a space and anything, parses to exactly those fields.
   */
  lemma ParseFormat(p: BeaconPing, tail: string)
    requires NoSpace(p.uuid) && NoSpace(p.major) && NoSpace(p.minor) && NoSpace(p.power)
    requires tail == [] || tail[0] == Space
    ensures Parse(Format(p) + tail) == Ok(p)
  {
    var fields := [p.uuid, p.major, p.minor, p.power];
    if tail == [] {
      assert Format(p) + tail == Join(fields);
      SplitJoin(fields);
    } else {
      var t := tail[1..];
      assert tail == [Space] + t;
      JoinSplit(t);
      JoinAppend(fields, Split(t));
      assert Format(p) + tail == Join(fields + Split(t));
      SplitJoin(fields + Split(t));
    }
  }

  /** Characters Python's `str.rstrip()` strips (`str.isspace` on a byte string). */
  predicate IsSpace(c: char)
  {
    c == ' ' || c == '\t' || c == '\n' || c == '\r' || c == '\U{000B}' || c == '\U{000C}'
  }

  /** `s.rstrip()`: the longest prefix of `s` that does not end in whitespace. */
  function RStrip(s: string): (r: string)
    ensures r <= s
    ensures r == [] || !IsSpace(r[|r| - 1])
    ensures forall i :: |r| <= i < |s| ==> IsSpace(s[i])
  {
    if s != [] && IsSpace(s[|s| - 1]) then RStrip(s[..|s| - 1]) else s
  }
}
