/** The practice attacker's server (`attack_server/server.js`): the stolen-cookie record
    with its fallbacks, the log line writer, the dashboard that reads the log back, the
    log reset and the redirect. The log file is `Option<string>` (`None`: it does not
    exist); JSON encoding and decoding of a record are parameters. */
module AttackServer {
  import opened Wrappers
  import opened JsText

  // ---------------------------------------------------------------------------
  // Writing
  // ---------------------------------------------------------------------------

  /** The text of one line without its newline: "[" + timestamp + "] " + payload. */
  function Body(timestamp: string, payload: string): (line: string)
    ensures |line| == |timestamp| + 3 + |payload|
    ensures line[0] == '[' && line[1..|timestamp| + 1] == timestamp
    ensures line[|timestamp| + 1..|timestamp| + 3] == "] " && line[|timestamp| + 3..] == payload
  {
    "[" + timestamp + "] " + payload
  }

  /** `writeLog`: the line appended to the log, creating the file when it is missing. */
  function WriteLog(file: Option<string>, timestamp: string, payload: string): (r: Option<string>)
    ensures r.Some?
    ensures file.Some? ==> r.value == file.value + Body(timestamp, payload) + "\n"
    ensures file.None? ==> r.value == Body(timestamp, payload) + "\n"
  {
    Some(file.GetOr("") + Body(timestamp, payload) + "\n")
  }

  datatype Written = Written(timestamp: string, payload: string)

  /** The log a sequence of writes leaves behind, starting without a file. */
  function Log(entries: seq<Written>): string
  {
    if |entries| == 0 then "" else Body(entries[0].timestamp, entries[0].payload) + "\n" + Log(entries[1..])
  }

  lemma {:induction false} WriteLogExtendsLog(entries: seq<Written>, e: Written)
    ensures WriteLog(if |entries| == 0 then None else Some(Log(entries)), e.timestamp, e.payload)
         == Some(Log(entries + [e]))
  {
    LogAppend(entries, e);
  }

  lemma {:induction false} LogAppend(entries: seq<Written>, e: Written)
    ensures Log(entries + [e]) == Log(entries) + Body(e.timestamp, e.payload) + "\n"
  {
    if |entries| == 0 {
      assert entries + [e] == [e];
    } else {
      var head := Body(entries[0].timestamp, entries[0].payload) + "\n";
      var tail := Body(e.timestamp, e.payload) + "\n";
      assert (entries + [e])[0] == entries[0];
      assert (entries + [e])[1..] == entries[1..] + [e];
      LogAppend(entries[1..], e);
      calc {
        Log(entries + [e]);
        head + Log(entries[1..] + [e]);
        head + (Log(entries[1..]) + tail);
        { ConcatAssoc(head, Log(entries[1..]), tail); }
        (head + Log(entries[1..])) + tail;
        Log(entries) + tail;
        { ConcatAssoc(Log(entries), Body(e.timestamp, e.payload), "\n"); }
        Log(entries) + Body(e.timestamp, e.payload) + "\n";
      }
    }
  }

  // ---------------------------------------------------------------------------
  // Reading: the dashboard
  // ---------------------------------------------------------------------------

  /** Where the lazy `^\[.*?\] ` match ends: the first "] " at or after position `k`,
      provided no line terminator comes before it. */
  function StampEnd(line: string, k: nat): (r: Option<nat>)
    requires 1 <= k
    ensures r.Some? ==> k <= r.value && r.value + 2 <= |line| && line[r.value..r.value + 2] == "] "
    decreases |line| - k
  {
    if k + 2 > |line| then None
    else if line[k..k + 2] == "] " then Some(k)
    else if IsLineTerminator(line[k]) then None
    else StampEnd(line, k + 1)
  }

  /** `line.replace(/^\[.*?\] /, '')` */
  function StripStamp(line: string): (r: string)
    ensures |r| <= |line| && r == line[|line| - |r|..]
  {
    if |line| > 0 && line[0] == '[' then
      match StampEnd(line, 1)
      case Some(k) => line[k + 2..]
      case None => line
    else line
  }

  /** Some non-blank line of `lines` decodes, stamp removed, to `v`. */
  ghost predicate Shows<T>(lines: seq<string>, parse: string -> Option<T>, v: T) {
    exists k :: 0 <= k < |lines| && Trim(lines[k]) != "" && parse(StripStamp(lines[k])) == Some(v)
  }

  /** The lines kept, decoded, in file order: blank lines and lines that do not decode
      are dropped. */
  function Collect<T>(lines: seq<string>, parse: string -> Option<T>): (r: seq<T>)
    ensures |r| <= |lines|
    ensures forall v :: v in r ==> Shows(lines, parse, v)
  {
    if |lines| == 0 then []
    else
      var line := lines[0];
      var rest := Collect(lines[1..], parse);
      var kept := Trim(line) != "" && parse(StripStamp(line)).Some?;
      var r := if kept then [parse(StripStamp(line)).value] + rest else rest;
      assert forall v :: v in rest ==> Shows(lines, parse, v) by {
        forall v | v in rest ensures Shows(lines, parse, v) {
          var k :| 0 <= k < |lines| - 1 && Trim(lines[1..][k]) != "" && parse(StripStamp(lines[1..][k])) == Some(v);
          assert lines[k + 1] == lines[1..][k];
        }
      }
      assert kept ==> Shows(lines, parse, parse(StripStamp(line)).value);
      r
  }

  function Reverse<T>(s: seq<T>): (r: seq<T>)
    ensures |r| == |s| && forall i :: 0 <= i < |s| ==> r[i] == s[|s| - 1 - i]
  {
    if |s| == 0 then [] else Reverse(s[1..]) + [s[0]]
  }

  /** `GET /`: the decoded log entries, newest first; nothing when there is no file. */
  function Dashboard<T>(file: Option<string>, parse: string -> Option<T>): (r: seq<T>)
    ensures file.None? ==> r == []
  {
    match file
    case None => []
    case Some(content) => Reverse(Collect(Split(content, '\n'), parse))
  }

  /** A timestamp the stamp pattern reads back: no ']' and no line terminator (an ISO
      timestamp has neither). */
  predicate PlainStamp(ts: string) {
    forall i :: 0 <= i < |ts| ==> ts[i] != ']' && !IsLineTerminator(ts[i])
  }

  lemma {:induction false} StampEndOfBody(ts: string, payload: string, k: nat)
    requires PlainStamp(ts) && 1 <= k <= |ts| + 1
    ensures StampEnd(Body(ts, payload), k) == Some(|ts| + 1)
    decreases |ts| + 1 - k
  {
    var line := Body(ts, payload);
    assert k + 2 <= |line|;
    if k <= |ts| {
      assert line[k] == ts[k - 1];
      assert line[k..k + 2][0] == line[k];
      StampEndOfBody(ts, payload, k + 1);
    } else {
      assert line[k..k + 2] == "] ";
    }
  }

  /** The stamp is removed exactly. */
  lemma StripStampOfBody(ts: string, payload: string)
    requires PlainStamp(ts)
    ensures StripStamp(Body(ts, payload)) == payload
  {
    StampEndOfBody(ts, payload, 1);
  }

  function Bodies(entries: seq<Written>): (r: seq<string>)
    ensures |r| == |entries|
    ensures forall i :: 0 <= i < |entries| ==> r[i] == Body(entries[i].timestamp, entries[i].payload)
  {
    if |entries| == 0 then [] else [Body(entries[0].timestamp, entries[0].payload)] + Bodies(entries[1..])
  }

  lemma {:induction false} LogIsJoin(entries: seq<Written>)
    ensures Log(entries) == Join(Bodies(entries) + [""], '\n')
  {
    if |entries| > 0 {
      LogIsJoin(entries[1..]);
      var parts := Bodies(entries) + [""];
      assert parts[1..] == Bodies(entries[1..]) + [""];
    }
  }

  /** An entry the dashboard can read back. */
  predicate Readable<T>(e: Written, parse: string -> Option<T>) {
    PlainStamp(e.timestamp) && '\n' !in e.payload && parse(e.payload).Some?
  }

  /** The decoded payloads, in the order they were written. */
  function Decoded<T>(entries: seq<Written>, parse: string -> Option<T>): (r: seq<T>)
    requires forall i :: 0 <= i < |entries| ==> Readable(entries[i], parse)
    ensures |r| == |entries|
  {
    if |entries| == 0 then []
    else
      assert Readable(entries[0], parse);
      assert forall i :: 0 <= i < |entries| - 1 ==> entries[1..][i] == entries[i + 1];
      [parse(entries[0].payload).value] + Decoded(entries[1..], parse)
  }

  lemma {:induction false} CollectBodies<T>(entries: seq<Written>, parse: string -> Option<T>)
    requires forall i :: 0 <= i < |entries| ==> Readable(entries[i], parse)
    ensures Collect(Bodies(entries) + [""], parse) == Decoded(entries, parse)
  {
    var lines := Bodies(entries) + [""];
    if |entries| == 0 {
      assert lines == [""];
      assert Collect(lines[1..], parse) == [];
    } else {
      var e := entries[0];
      assert Readable(e, parse);
      StripStampOfBody(e.timestamp, e.payload);
      assert lines[0] == Body(e.timestamp, e.payload);
      assert Trim(lines[0]) != "" by {
        TrimNonBlank(lines[0]);
      }
      var v := parse(e.payload).value;
      assert parse(StripStamp(lines[0])) == Some(v);
      var rest := Bodies(entries[1..]);
      assert Bodies(entries) == [Body(e.timestamp, e.payload)] + rest;
      TailOfCons(Body(e.timestamp, e.payload), rest, [""]);
      assert lines[1..] == rest + [""];
      assert forall i :: 0 <= i < |entries| - 1 ==> entries[1..][i] == entries[i + 1];
      CollectBodies(entries[1..], parse);
      calc {
        Collect(lines, parse);
        [v] + Collect(lines[1..], parse);
        [v] + Decoded(entries[1..], parse);
        Decoded(entries, parse);
      }
    }
  }

  lemma TailOfCons<X>(x: X, a: seq<X>, b: seq<X>)
    ensures (([x] + a) + b)[1..] == a + b
  {
    assert ([x] + a) + b == [x] + (a + b);
  }

  lemma BodyHasNoNewline(ts: string, payload: string)
    requires PlainStamp(ts) && '\n' !in payload
    ensures '\n' !in Body(ts, payload)
  {
    var line := Body(ts, payload);
    forall j | 0 <= j < |line| ensures line[j] != '\n' {
      if 1 <= j <= |ts| {
        assert line[j] == ts[j - 1];
      } else if j > |ts| + 2 {
        assert line[j] == payload[j - |ts| - 3];
      }
    }
  }

  /** The round trip: the dashboard shows every written payload, decoded, newest first. */
  lemma DashboardOfLog<T>(entries: seq<Written>, parse: string -> Option<T>)
    requires forall i :: 0 <= i < |entries| ==> Readable(entries[i], parse)
    ensures Dashboard(Some(Log(entries)), parse) == Reverse(Decoded(entries, parse))
  {
    var parts := Bodies(entries) + [""];
    forall i | 0 <= i < |parts| ensures '\n' !in parts[i] {
      if i < |entries| {
        BodyHasNoNewline(entries[i].timestamp, entries[i].payload);
      }
    }
    LogIsJoin(entries);
    SplitJoin(parts, '\n');
    CollectBodies(entries, parse);
    calc {
      Dashboard(Some(Log(entries)), parse);
      Reverse(Collect(Split(Log(entries), '\n'), parse));
      Reverse(Collect(parts, parse));
      Reverse(Decoded(entries, parse));
    }
  }

  // ---------------------------------------------------------------------------
  // /steal, /logs/clear, /redirect
  // ---------------------------------------------------------------------------

  /** The first truthy value, else the fallback: `a || b || ... || fallback`. */
  function FirstTruthy(vs: seq<Option<string>>, fallback: string): (r: string)
    ensures (exists i :: 0 <= i < |vs| && Truthy(vs[i])) ==>
      exists i :: 0 <= i < |vs| && Truthy(vs[i]) && r == vs[i].value && forall j :: 0 <= j < i ==> !Truthy(vs[j])
    ensures (forall i :: 0 <= i < |vs| ==> !Truthy(vs[i])) ==> r == fallback
  {
    if |vs| == 0 then fallback
    else if Truthy(vs[0]) then vs[0].value
    else
      var r := FirstTruthy(vs[1..], fallback);
      assert forall i :: 1 <= i < |vs| ==> vs[i] == vs[1..][i - 1];
      r
  }

  /** What `/steal` reads from the query (GET) or body (POST) and the headers. */
  datatype StealRequest = StealRequest(
    cookies: Option<string>, cookie: Option<string>, url: Option<string>,
    referer: Option<string>, userAgent: Option<string>, ip: Option<string>, remoteAddress: Option<string>)

  datatype Stolen = Stolen(verb: string, cookies: string, url: string, userAgent: string, ip: string, timestamp: string)

  /** The record both `/steal` handlers log. */
  function StealRecord(verb: string, q: StealRequest, now: string): (s: Stolen)
    ensures s.cookies == FirstTruthy([q.cookies, q.cookie], "")
    ensures s.url == FirstTruthy([q.url, q.referer], "unknown")
    ensures s.userAgent == FirstTruthy([q.userAgent], "unknown")
    ensures s.ip == FirstTruthy([q.ip, q.remoteAddress], "unknown")
    ensures s.verb == verb && s.timestamp == now
  {
    Stolen(verb, OrElse(q.cookies, OrElse(q.cookie, "")), OrElse(q.url, OrElse(q.referer, "unknown")),
           OrElse(q.userAgent, "unknown"), OrElse(q.ip, OrElse(q.remoteAddress, "unknown")), now)
  }

  /** A stolen record written to a log of readable entries is the first thing the
      dashboard shows afterwards. */
  lemma StolenShowsFirst(entries: seq<Written>, s: Stolen, stamp: string,
                         encode: Stolen -> string, parse: string -> Option<Stolen>)
    requires forall i :: 0 <= i < |entries| ==> Readable(entries[i], parse)
    requires PlainStamp(stamp) && '\n' !in encode(s) && parse(encode(s)) == Some(s)
    ensures var file := WriteLog(if |entries| == 0 then None else Some(Log(entries)), stamp, encode(s));
      var shown := Dashboard(file, parse);
      |shown| == |entries| + 1 && shown[0] == s
  {
    var e := Written(stamp, encode(s));
    var all := entries + [e];
    WriteLogExtendsLog(entries, e);
    forall i | 0 <= i < |all| ensures Readable(all[i], parse) {
      if i < |entries| {
        assert all[i] == entries[i];
      }
    }
    DashboardOfLog(all, parse);
    DecodedLast(all, parse);
  }

  lemma {:induction false} DecodedLast<T>(entries: seq<Written>, parse: string -> Option<T>)
    requires |entries| > 0
    requires forall i :: 0 <= i < |entries| ==> Readable(entries[i], parse)
    ensures Decoded(entries, parse)[|entries| - 1] == parse(entries[|entries| - 1].payload).value
  {
    if |entries| > 1 {
      DecodedLast(entries[1..], parse);
    }
  }

  /** `POST /logs/clear`: an existing log is emptied; a missing one stays missing. */
  function ClearLogs(file: Option<string>): (r: (Option<string>, bool))
    ensures r.1 <==> file.Some?
    ensures r.0.Some? <==> file.Some?
    ensures r.0.Some? ==> r.0.value == ""
  {
    if file.Some? then (Some(""), true) else (None, false)
  }

  /** After a reset the dashboard is empty, whatever the log held. */
  lemma ClearEmptiesDashboard<T>(file: Option<string>, parse: string -> Option<T>)
    ensures Dashboard(ClearLogs(file).0, parse) == []
  {
    if file.Some? {
      assert Split("", '\n') == [""];
    }
  }

  /** `req.query.to || '/fake'` */
  function RedirectTarget(to: Option<string>): (r: string)
    ensures Truthy(to) ==> r == to.value
    ensures !Truthy(to) ==> r == "/fake"
  {
    OrElse(to, "/fake")
  }
}
