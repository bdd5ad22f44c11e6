/**
 * What the CAN, LIN and UDP receivers share: the decoding of the 8-byte ASCII
 * payload (speed in bytes 0-3, RPM in bytes 4-7), the events a receiver
 * produces (Qt signals, warnings, debug lines, log appends) and how a log
 * append in that trace changes the log files.
 */
module Signals {
  import opened Wrappers
  import opened Wire
  import opened Frames
  import opened QtText
  import opened JsonLog

  /** A decoded payload: the raw speed in m/s and the RPM. */
  datatype Reading = Reading(speedRaw: real, rpm: int)

  /** One element of a receiver log: {"Speed": raw speed, "RPM": integer RPM}. */
  datatype Entry = Entry(speed: real, rpm: int)

  datatype Diagnostic =
    | ReadFailed
    | Incomplete(nbytes: int)
    | ConversionFailed
    | LinFrameSeen(id: int)
    | LinOverrun
    | LinWakeup
    | LinUnsupported(msgType: int)

  /** What a receiver does, in order: emit a Qt signal, append to its log, or print a diagnostic. */
  datatype Event =
    | SpeedReceived(kmh: real)
    | RpmReceived(rpm: int)
    | Logged(entry: Entry)
    | Warning(diagnostic: Diagnostic)
    | Debug(diagnostic: Diagnostic)

  /** Speed conversion from m/s to km/h (`speed_raw * 3.6f`, idealised to exact arithmetic). */
  function Kmh(ms: real): real
  {
    ms * 3.6
  }

  /** Split and parse: `toFloat` of characters [0,4), `toInt` of characters [4,8). */
  function DecodePayload(p: Payload): (r: Option<Reading>)
    ensures r.Some? <==> ParseDecimal(Latin1(p)[..4]).Some? && ParseInt(Latin1(p)[4..]).Some?
    ensures r.Some? ==>
      Some(r.value.speedRaw) == ParseDecimal(Latin1(p)[..4]) && Some(r.value.rpm) == ParseInt(Latin1(p)[4..])
  {
    var speed := ParseDecimal(Latin1(p)[..4]);
    var rpm := ParseInt(Latin1(p)[4..]);
    if speed.Some? && rpm.Some? then Some(Reading(speed.value, rpm.value)) else None
  }

  /** A payload whose two fields parse decodes to exactly those two values. */
  lemma DecodeOfFields(p: Payload, speed: real, rpm: int)
    requires ParseDecimal(Latin1(p)[..4]) == Some(speed) && ParseInt(Latin1(p)[4..]) == Some(rpm)
    ensures DecodePayload(p) == Some(Reading(speed, rpm))
  {
  }

  /** A byte that cannot occur in a number makes the whole payload undecodable. */
  lemma NonNumericByteRejects(p: Payload, i: nat)
    requires i < 8
    requires i < 4 ==> !DecimalChar(p[i] as char)
    requires i >= 4 ==> !IntChar(p[i] as char)
    ensures DecodePayload(p) == None
  {
    var text := Latin1(p);
    if i < 4 {
      assert text[..4][i] == p[i] as char;
      NonDecimalCharRejects(text[..4], i);
    } else {
      assert text[4..][i - 4] == p[i] as char;
      NonIntCharRejects(text[4..], i - 4);
    }
  }

  /** Emits with the converted values, then logs the raw ones. */
  function Accepted(r: Reading): seq<Event>
  {
    [SpeedReceived(Kmh(r.speedRaw)), RpmReceived(r.rpm), Logged(Entry(r.speedRaw, r.rpm))]
  }

  predicate Emits(ev: seq<Event>)
  {
    exists i :: 0 <= i < |ev| && (ev[i].SpeedReceived? || ev[i].RpmReceived?)
  }

  /** The entry a trace appends to the log, if any; an append is always the last thing a read does. */
  function LoggedEntry(ev: seq<Event>): Option<Entry>
  {
    if ev != [] && ev[|ev| - 1].Logged? then Some(ev[|ev| - 1].entry) else None
  }

  predicate NoLogEvent(ev: seq<Event>)
  {
    forall i :: 0 <= i < |ev| ==> !ev[i].Logged?
  }

  /** A trace emits exactly when one of its two parts does, and is log-free exactly when both are. */
  lemma ConcatQuiet(a: seq<Event>, b: seq<Event>)
    ensures Emits(a + b) <==> Emits(a) || Emits(b)
    ensures NoLogEvent(a + b) <==> NoLogEvent(a) && NoLogEvent(b)
  {
    var ab := a + b;
    if Emits(b) {
      var i :| 0 <= i < |b| && (b[i].SpeedReceived? || b[i].RpmReceived?);
      assert ab[|a| + i] == b[i];
    }
    if Emits(a) {
      var i :| 0 <= i < |a| && (a[i].SpeedReceived? || a[i].RpmReceived?);
      assert ab[i] == a[i];
    }
    if Emits(ab) {
      var i :| 0 <= i < |ab| && (ab[i].SpeedReceived? || ab[i].RpmReceived?);
      if i < |a| { assert ab[i] == a[i]; } else { assert ab[i] == b[i - |a|]; }
    }
    if NoLogEvent(a) && NoLogEvent(b) {
      forall i | 0 <= i < |ab| ensures !ab[i].Logged? {
        if i < |a| { assert ab[i] == a[i]; } else { assert ab[i] == b[i - |a|]; }
      }
    }
    if NoLogEvent(ab) {
      forall i | 0 <= i < |a| ensures !a[i].Logged? { assert ab[i] == a[i]; }
      forall i | 0 <= i < |b| ensures !b[i].Logged? { assert ab[|a| + i] == b[i]; }
    }
  }

  /** A single event that is neither a signal nor a log entry: the trace [e] emits and logs nothing. */
  lemma SingleQuiet(e: Event)
    requires !e.SpeedReceived? && !e.RpmReceived? && !e.Logged?
    ensures !Emits([e]) && NoLogEvent([e]) && LoggedEntry([e]) == None
  {
    assert forall i :: 0 <= i < |[e]| ==> [e][i] == e;
  }

  /** The decode step every receiver shares: signals and log append on success, a warning only otherwise. */
  function DecodeEvents(p: Payload): (ev: seq<Event>)
    ensures Emits(ev) <==> DecodePayload(p).Some?
    ensures DecodePayload(p).Some? ==> ev == Accepted(DecodePayload(p).value)
    ensures DecodePayload(p).None? ==> ev == [Warning(ConversionFailed)] && NoLogEvent(ev)
  {
    var r := DecodePayload(p);
    if r.Some? then
      var ev := Accepted(r.value);
      assert ev[0].SpeedReceived?;
      ev
    else
      var ev := [Warning(ConversionFailed)];
      assert !Emits(ev) by {
        forall i | 0 <= i < |ev| ensures !(ev[i].SpeedReceived? || ev[i].RpmReceived?) { }
      }
      ev
  }

  /** How a read's events change the files: only a Logged event appends (subject to the file being writable). */
  function Persisted(files: map<string, FileContent<Entry>>, readOnly: set<string>, unreadable: set<string>, name: string, ev: seq<Event>): map<string, FileContent<Entry>>
  {
    match LoggedEntry(ev)
    case None => files
    case Some(e) => Write(files, readOnly, name, Appended(Read(files, unreadable, name), e))
  }

  /** Order of a successful read: both signals strictly before the append, and the append stores the unconverted speed. */
  lemma AcceptedOrder(r: Reading)
    ensures var ev := Accepted(r);
      |ev| == 3 && ev[0] == SpeedReceived(r.speedRaw * 3.6) && ev[1] == RpmReceived(r.rpm)
      && ev[2] == Logged(Entry(r.speedRaw, r.rpm)) && LoggedEntry(ev) == Some(Entry(r.speedRaw, r.rpm))
  {
  }
}
