/**
 * The entry parser: one raw log line to a validated log entry.
 *
 * JSON decoding (`json.loads(line.strip())`), ISO-8601 parsing
 * (`datetime.fromisoformat`) and hour formatting (`strftime`) are library
 * calls; they are the function-valued fields of `Codecs`, and nothing is
 * assumed about them.
 */
module Entries {
  import opened Wrappers
  import Text

  /** A field value of a decoded record. `Time` is the datetime that the parser stores under "parsed_timestamp". */
  datatype Value = Str(s: string) | Int(i: int) | Time(t: int) | Other(text: string)

  /** The top-level shape of a decoded line: an object, an array, a string, or a number/true/false/null. */
  datatype Json = JObject(members: map<string, Value>) | JArray(items: seq<Value>) | JString(s: string) | JScalar(v: Value)

  /** The library calls the analyzer depends on. */
  datatype Codecs = Codecs(
    decode: string -> Option<Json>,   // json.loads of the stripped line; None is JSONDecodeError
    fromIso: string -> Option<int>,   // datetime.fromisoformat; None is ValueError
    hourLabel: int -> string)         // strftime("%Y-%m-%d %H:00")

  /**
   * A validated entry: the typed view of the required text fields and of the
   * parsed timestamp, and the whole record (which includes "parsed_timestamp").
   */
  datatype LogEntry = LogEntry(level: string, message: string, moduleName: string, functionName: string,
                               ts: int, fields: map<string, Value>)

  /** p holds of each of the six required field names. */
  predicate ForAllRequired(p: string -> bool)
  {
    p("timestamp") && p("level") && p("message") && p("module") && p("function") && p("line")
  }

  /** `all(field in entry for field in required_fields)` on a decoded object. */
  predicate HasRequired(m: map<string, Value>)
  {
    "timestamp" in m && "level" in m && "message" in m && "module" in m && "function" in m && "line" in m
  }

  /** The level, message, module and function fields are present and are strings. */
  predicate TextTyped(m: map<string, Value>)
  {
    && "level" in m && m["level"].Str?
    && "message" in m && m["message"].Str?
    && "module" in m && m["module"].Str?
    && "function" in m && m["function"].Str?
  }

  /** The conditions under which the record m is accepted with instant t. */
  predicate Acceptable(c: Codecs, m: map<string, Value>, t: int)
  {
    && HasRequired(m)
    && TextTyped(m)
    && m["timestamp"].Str?
    && c.fromIso(m["timestamp"].s) == Some(t)
  }

  /** The typed view agrees with the record, and the record carries the parsed timestamp. */
  predicate WellFormed(e: LogEntry)
  {
    && HasRequired(e.fields)
    && "parsed_timestamp" in e.fields
    && e.fields["level"] == Str(e.level)
    && e.fields["message"] == Str(e.message)
    && e.fields["module"] == Str(e.moduleName)
    && e.fields["function"] == Str(e.functionName)
    && e.fields["parsed_timestamp"] == Time(e.ts)
  }

  /**
   * parse_log_entry, with the validation it evidently intends: an entry
   * exactly when the line decodes to an object holding the six required
   * fields, whose text fields are strings and whose timestamp parses.
   * Every other line is rejected; nothing escapes.
   */
  function ParseLogEntry(c: Codecs, line: string): (r: Option<LogEntry>)
    ensures r.Some? <==>
      (c.decode(line).Some? && c.decode(line).value.JObject? &&
       exists t :: Acceptable(c, c.decode(line).value.members, t))
    ensures r.Some? ==>
      var m := c.decode(line).value.members;
      && WellFormed(r.value)
      && Acceptable(c, m, r.value.ts)
      && r.value.fields == m["parsed_timestamp" := Time(r.value.ts)]
  {
    match c.decode(line)
    case Some(JObject(m)) =>
      if HasRequired(m) && TextTyped(m) && m["timestamp"].Str? then
        match c.fromIso(m["timestamp"].s)
        case Some(t) =>
          assert Acceptable(c, m, t);
          Some(LogEntry(m["level"].s, m["message"].s, m["module"].s, m["function"].s,
                        t, m["parsed_timestamp" := Time(t)]))
        case None => None
      else None
    case _ => None
  }

  /** What parse_log_entry does with a line as written: it may also raise a TypeError it does not catch. */
  datatype Outcome = Parsed(record: map<string, Value>, ts: int) | Skipped | Raised

  /**
   * parse_log_entry as written. `field in entry` is tried on whatever the
   * line decoded to: a substring test on a string, an element test on an
   * array, a TypeError on a number, boolean or null. Past the presence
   * test, `entry["timestamp"]` on a string or array and `fromisoformat` on
   * a non-string raise TypeError too. Only JSONDecodeError and ValueError
   * become a skipped line.
   */
  function ParseLogEntryAsWritten(c: Codecs, line: string): (r: Outcome)
    ensures r.Parsed? ==> c.decode(line).Some? && c.decode(line).value.JObject?
    ensures r.Parsed? ==> "parsed_timestamp" in r.record && r.record["parsed_timestamp"] == Time(r.ts)
    ensures r == Raised <==> c.decode(line).Some? && RaisesOn(c.decode(line).value)
    ensures c.decode(line).None? ==> r == Skipped
    ensures r.Parsed? <==>
      && c.decode(line).Some? && c.decode(line).value.JObject?
      && var m := c.decode(line).value.members;
         HasRequired(m) && m["timestamp"].Str? && c.fromIso(m["timestamp"].s).Some?
    ensures r.Parsed? ==>
      var m := c.decode(line).value.members;
      r.record == m["parsed_timestamp" := Time(r.ts)] && c.fromIso(m["timestamp"].s) == Some(r.ts)
  {
    match c.decode(line)
    case None => Skipped
    case Some(JObject(m)) =>
      if !HasRequired(m) then Skipped
      else if !m["timestamp"].Str? then Raised
      else
        (match c.fromIso(m["timestamp"].s)
         case Some(t) => Parsed(m["parsed_timestamp" := Time(t)], t)
         case None => Skipped)
    case Some(JString(s)) =>
      if ForAllRequired(f => Text.Contains(s, f)) then Raised else Skipped
    case Some(JArray(xs)) =>
      if ForAllRequired(f => Str(f) in xs) then Raised else Skipped
    case Some(JScalar(_)) => Raised
  }

  /**
   * The decoded shapes on which parse_log_entry raises TypeError: a number,
   * boolean or null; an object with the six fields whose timestamp is not a
   * string; a string or array in which all six names occur.
   */
  predicate RaisesOn(j: Json)
  {
    || j.JScalar?
    || (j.JObject? && HasRequired(j.members) && !j.members["timestamp"].Str?)
    || (j.JString? && ForAllRequired(f => Text.Contains(j.s, f)))
    || (j.JArray? && ForAllRequired(f => Str(f) in j.items))
  }

  /** A line that decodes to a bare JSON number makes the as-written parser raise; the corrected one skips it. */
  lemma NumberLineRaises(c: Codecs, line: string)
    requires c.decode(line) == Some(JScalar(Int(42)))
    ensures ParseLogEntryAsWritten(c, line) == Raised
    ensures ParseLogEntry(c, line) == None
  {
  }

  /** A record whose timestamp is a number makes the as-written parser raise; the corrected one skips it. */
  lemma NumericTimestampRaises(c: Codecs, line: string, m: map<string, Value>)
    requires c.decode(line) == Some(JObject(m))
    requires HasRequired(m) && m["timestamp"] == Int(1700000000)
    ensures ParseLogEntryAsWritten(c, line) == Raised
    ensures ParseLogEntry(c, line) == None
  {
  }

  /**
   * Unless the line decodes to an object holding the six fields with a
   * text field that is not a string, the corrected parser accepts exactly
   * the lines the code as written parses, with the same record and instant,
   * and it skips every line on which the code raises.
   */
  lemma ParseAgreesAsWritten(c: Codecs, line: string)
    requires c.decode(line).Some? && c.decode(line).value.JObject? && HasRequired(c.decode(line).value.members) ==>
      TextTyped(c.decode(line).value.members)
    ensures ParseLogEntryAsWritten(c, line).Parsed? <==> ParseLogEntry(c, line).Some?
    ensures ParseLogEntryAsWritten(c, line).Parsed? ==>
      && ParseLogEntry(c, line).value.fields == ParseLogEntryAsWritten(c, line).record
      && ParseLogEntry(c, line).value.ts == ParseLogEntryAsWritten(c, line).ts
    ensures ParseLogEntryAsWritten(c, line) == Raised ==> ParseLogEntry(c, line) == None
  {
  }

  /**
   * A record whose level is a number: the code as written accepts it and
   * the corrected parser rejects it.
   */
  lemma NumericLevelAccepted(c: Codecs, line: string, m: map<string, Value>, stamp: string)
    requires c.decode(line) == Some(JObject(m))
    requires HasRequired(m) && m["timestamp"] == Str(stamp) && c.fromIso(stamp).Some?
    requires m["level"] == Int(1)
    ensures ParseLogEntryAsWritten(c, line).Parsed?
    ensures ParseLogEntry(c, line) == None
  {
  }

  /** The earliest timestamp of some entries: Python's `min` over them. */
  function MinTs(es: seq<LogEntry>): (t: int)
    requires es != []
    ensures forall e :: e in es ==> t <= e.ts
    ensures exists e :: e in es && e.ts == t
  {
    if |es| == 1 then es[0].ts
    else
      var m := MinTs(es[1..]);
      assert es == [es[0]] + es[1..];
      if es[0].ts <= m then es[0].ts else m
  }

  /** The latest timestamp of some entries: Python's `max` over them. */
  function MaxTs(es: seq<LogEntry>): (t: int)
    requires es != []
    ensures forall e :: e in es ==> e.ts <= t
    ensures exists e :: e in es && e.ts == t
  {
    if |es| == 1 then es[0].ts
    else
      var m := MaxTs(es[1..]);
      assert es == [es[0]] + es[1..];
      if m <= es[0].ts then es[0].ts else m
  }

  /** The entries of the parsable lines, in line order. */
  function ParseAll(c: Codecs, lines: seq<string>): (r: seq<LogEntry>)
    ensures |r| <= |lines|
    ensures forall e :: e in r ==> WellFormed(e)
  {
    if lines == [] then []
    else
      var last := ParseLogEntry(c, lines[|lines| - 1]);
      ParseAll(c, lines[..|lines| - 1]) + (if last.Some? then [last.value] else [])
  }

  /** The indices of the lines that parse, in increasing order. */
  function Parsable(c: Codecs, lines: seq<string>): seq<nat>
  {
    if lines == [] then []
    else
      Parsable(c, lines[..|lines| - 1])
        + (if ParseLogEntry(c, lines[|lines| - 1]).Some? then [|lines| - 1] else [])
  }

  /**
   * The entries form a subsequence of the lines: the j-th entry comes from
   * the line at the j-th parsable index, these indices increase, and every
   * line that parses contributes.
   */
  lemma {:induction false} ParseAllSubsequence(c: Codecs, lines: seq<string>)
    ensures |Parsable(c, lines)| == |ParseAll(c, lines)| <= |lines|
    ensures forall j :: 0 <= j < |Parsable(c, lines)| ==>
      Parsable(c, lines)[j] < |lines| &&
      ParseLogEntry(c, lines[Parsable(c, lines)[j]]) == Some(ParseAll(c, lines)[j])
    ensures forall j, k :: 0 <= j < k < |Parsable(c, lines)| ==> Parsable(c, lines)[j] < Parsable(c, lines)[k]
    ensures forall i :: 0 <= i < |lines| && ParseLogEntry(c, lines[i]).Some? ==> i in Parsable(c, lines)
  {
    if lines != [] {
      var init := lines[..|lines| - 1];
      ParseAllSubsequence(c, init);
      assert forall i :: 0 <= i < |init| ==> lines[i] == init[i];
    }
  }

  lemma {:induction false} ParseAllAppend(c: Codecs, a: seq<string>, b: seq<string>)
    ensures ParseAll(c, a + b) == ParseAll(c, a) + ParseAll(c, b)
  {
    if b == [] {
      assert a + b == a;
    } else {
      var init := b[..|b| - 1];
      assert (a + b)[..|a + b| - 1] == a + init;
      assert (a + b)[|a + b| - 1] == b[|b| - 1];
      ParseAllAppend(c, a, init);
    }
  }

  /** The raw lines read_log_file examines: the cap applies only when max_lines is truthy (neither None nor 0). */
  function Examined(lines: seq<string>, maxLines: Option<int>): (r: seq<string>)
    ensures r <= lines
  {
    match maxLines
    case None => lines
    case Some(n) =>
      if n == 0 then lines
      else if n < 0 then []
      else if n < |lines| then lines[..n]
      else lines
  }

  /** A positive cap n bounds the entries by n; a negative cap reads nothing; no cap reads everything. */
  lemma BoundedRead(c: Codecs, lines: seq<string>, maxLines: Option<int>)
    ensures maxLines.Some? && maxLines.value > 0 ==> |ParseAll(c, Examined(lines, maxLines))| <= maxLines.value
    ensures maxLines.Some? && maxLines.value < 0 ==> ParseAll(c, Examined(lines, maxLines)) == []
    ensures maxLines.None? || maxLines == Some(0) ==> ParseAll(c, Examined(lines, maxLines)) == ParseAll(c, lines)
  {
    ParseAllSubsequence(c, Examined(lines, maxLines));
  }

  /** The entries of a capped read are a prefix of the entries of the whole file. */
  lemma BoundedReadPrefix(c: Codecs, lines: seq<string>, maxLines: Option<int>)
    ensures ParseAll(c, Examined(lines, maxLines)) <= ParseAll(c, lines)
  {
    var ex := Examined(lines, maxLines);
    assert lines == ex + lines[|ex|..];
    ParseAllAppend(c, ex, lines[|ex|..]);
  }
}
