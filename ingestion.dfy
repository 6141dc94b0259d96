/**
 * The reader thread's handling of one serial line (SerialReaderThread.run):
 * strip the line, show it with its receive time, pre-filter it, parse it,
 * and when all four readings are present append a measurement to the data
 * list, append its row to the log and publish the list.
 *
 * The session functions below are the value-level specification; the class
 * SerialReader is the thread with its state, proved against them.
 */
module Ingestion {
  import opened Wrappers
  import Text
  import Timestamps
  import opened MessageParser
  import opened TelemetryLog
  import Lists

  /** A message_received emission: the receive time and the stripped line. */
  datatype Message = Message(receivedAt: Timestamps.Timestamp, line: string)

  /** The text shown in the message box: receive time, " :: ", then the stripped line. */
  function Render(m: Message): string
  {
    Timestamps.Format(m.receivedAt) + " :: " + m.line
  }

  /** The pre-filter: too short, not starting with 'S', or too long. */
  predicate Skipped(line: string)
  {
    |line| < 10 || line[0] != 'S' || |line| > 40
  }

  /** All four readings the measurement needs are present. */
  predicate HasRequired(d: map<Field, Reading>)
  {
    BatteryVoltage in d && SolarVoltage in d && UltrasonicRange in d && Rssi in d
  }

  /** The measurement a stripped line yields, stamped with the acceptance time, or None when it is dropped. */
  function Admit(line: string, at: Timestamps.Timestamp): (r: Option<Measurement>)
    ensures r.Some? ==> WellTyped(r.value) && r.value.stamp == at
  {
    if Skipped(line) then None else Assemble(Parse(line), at)
  }

  /** The measurement tuple built from the parsed dictionary, when the four readings are all there. */
  function Assemble(d: map<Field, Reading>, at: Timestamps.Timestamp): Option<Measurement>
  {
    if HasRequired(d) then Some(Measurement(at, d[BatteryVoltage], d[SolarVoltage], d[UltrasonicRange], d[Rssi]))
    else None
  }

  /** Some token of the sequence carries the letter. */
  ghost predicate Carries(toks: seq<Token>, c: char)
  {
    exists i :: 0 <= i < |toks| && toks[i].letter == c
  }

  lemma CarriesField(toks: seq<Token>, c: char, f: Field)
    requires FieldOf(c) == Some(f)
    ensures f in Fields(toks) <==> Carries(toks, c)
  {
  }

  /**
   * A line is admitted exactly when it passes the pre-filter and carries at
   * least one V, s, U and r token.
   */
  lemma AdmitIff(line: string, at: Timestamps.Timestamp)
    ensures Admit(line, at).Some? <==>
              && 10 <= |line| <= 40 && line[0] == 'S'
              && Carries(Tokens(line), 'V') && Carries(Tokens(line), 's')
              && Carries(Tokens(line), 'U') && Carries(Tokens(line), 'r')
  {
    var toks := Tokens(line);
    CarriesField(toks, 'V', BatteryVoltage);
    CarriesField(toks, 's', SolarVoltage);
    CarriesField(toks, 'U', UltrasonicRange);
    CarriesField(toks, 'r', Rssi);
  }

  /** Each reading of an admitted measurement comes from the last token for its letter. */
  lemma AdmitFromLastTokens(line: string, at: Timestamps.Timestamp, b: int, s: int, u: int, r: int)
    requires Admit(line, at).Some?
    requires LastFor(Tokens(line), BatteryVoltage, b) && LastFor(Tokens(line), SolarVoltage, s)
    requires LastFor(Tokens(line), UltrasonicRange, u) && LastFor(Tokens(line), Rssi, r)
    ensures Admit(line, at).value
            == Measurement(at, Volts(Tokens(line)[b].value), Volts(Tokens(line)[s].value),
                           Int(Tokens(line)[u].value), Int(Tokens(line)[r].value))
  {
    var toks := Tokens(line);
    FieldsLastWins(toks, BatteryVoltage, b);
    FieldsLastWins(toks, SolarVoltage, s);
    FieldsLastWins(toks, UltrasonicRange, u);
    FieldsLastWins(toks, Rssi, r);
  }

  /** The sample frame becomes a measurement of 4.106 V, 6.835 V, range 841 and RSSI -58. */
  lemma AdmitExample(at: Timestamps.Timestamp)
    ensures Admit("S1,V4106,C55,U841,s6835,r-58,n12", at)
            == Some(Measurement(at, Volts(4106), Volts(6835), Int(841), Int(-58)))
  {
    var line := "S1,V4106,C55,U841,s6835,r-58,n12";
    assert |line| == 32 && line[0] == 'S';
    ParseExample();
    AssembleExample(Parse(line), at);
  }

  lemma AssembleExample(d: map<Field, Reading>, at: Timestamps.Timestamp)
    requires d == map[SensorId := Int(1), BatteryVoltage := Volts(4106), MsgCount := Int(55),
                      UltrasonicRange := Int(841), SolarVoltage := Volts(6835), Rssi := Int(-58),
                      SignalToNoiseRatio := Int(12)]
    ensures Assemble(d, at) == Some(Measurement(at, Volts(4106), Volts(6835), Int(841), Int(-58)))
  {
  }

  /** A frame with only a sensor id and a battery voltage is dropped by the pre-filter. */
  lemma ShortFrameDropped(at: Timestamps.Timestamp)
    ensures Admit("S1,V4106", at).None?
  {
  }

  /** One line arriving on the serial port. */
  datatype Frame = Frame(raw: string, receivedAt: Timestamps.Timestamp, acceptedAt: Timestamps.Timestamp,
                         canOpen: bool)

  /** The message a frame makes the thread show. */
  function Shows(f: Frame): Message
  {
    Message(f.receivedAt, Text.Strip(f.raw))
  }

  /**
   * What the thread has produced: its data list, the messages it showed,
   * the lists it published through data_updated, and the log file.
   */
  datatype Session = Session(data: seq<Measurement>, messages: seq<Message>,
                             published: seq<seq<Measurement>>, file: Option<seq<string>>)

  /** The session at the start of run(): the data read back from the log. */
  function Start(file: Option<seq<string>>): Session
  {
    Session(ReadRows(file), [], [], file)
  }

  /** One pass of the while loop over a received line. */
  function Next(s: Session, f: Frame): Session
  {
    var line := Text.Strip(f.raw);
    var shown := s.messages + [Shows(f)];
    match Admit(line, f.acceptedAt)
    case None => s.(messages := shown)
    case Some(m) =>
      Session(s.data + [m], shown, s.published + [s.data + [m]], Appended(s.file, [m], f.canOpen))
  }

  function Replay(s: Session, fs: seq<Frame>): Session
  {
    if fs == [] then s else Next(Replay(s, fs[..|fs| - 1]), fs[|fs| - 1])
  }

  /** The measurement a frame yields, if any. */
  function Yield(f: Frame): seq<Measurement>
  {
    match Admit(Text.Strip(f.raw), f.acceptedAt)
    case None => []
    case Some(m) => [m]
  }

  /** The measurements the frames yield, in order. */
  function Admitted(fs: seq<Frame>): seq<Measurement>
  {
    if fs == [] then [] else Admitted(fs[..|fs| - 1]) + Yield(fs[|fs| - 1])
  }

  /** The measurements whose row reached the log: those of frames whose write could open the file. */
  function Logged(fs: seq<Frame>): seq<Measurement>
  {
    if fs == [] then [] else Logged(fs[..|fs| - 1]) + Written(fs[|fs| - 1])
  }

  /** The measurement whose row a frame appends to the log, if any. */
  function Written(f: Frame): seq<Measurement>
  {
    if f.canOpen then Yield(f) else []
  }

  /** The log holds exactly the data list, at second precision. */
  predicate InSync(s: Session)
  {
    Intact(s.file) && ReadRows(s.file) == AllAtSeconds(s.data)
  }

  /** A line the pre-filter drops is never parsed: it changes nothing but the message list. */
  lemma NextSkipped(s: Session, f: Frame)
    requires Skipped(Text.Strip(f.raw))
    ensures Next(s, f) == s.(messages := s.messages + [Message(f.receivedAt, Text.Strip(f.raw))])
  {
  }

  /** A line that is dropped leaves the data list, the published lists and the log as they were. */
  lemma NextRejects(s: Session, f: Frame)
    requires Admit(Text.Strip(f.raw), f.acceptedAt).None?
    ensures Next(s, f).data == s.data && Next(s, f).published == s.published && Next(s, f).file == s.file
  {
  }

  /**
   * An accepted line adds its measurement at the end of the data list,
   * publishes the list, and appends exactly one record for it to the log
   * when the file can be opened.
   */
  lemma NextAccepts(s: Session, f: Frame, m: Measurement)
    requires Admit(Text.Strip(f.raw), f.acceptedAt) == Some(m)
    ensures Next(s, f).data == s.data + [m]
    ensures Next(s, f).published == s.published + [s.data + [m]]
    ensures f.canOpen ==> Next(s, f).file == Some(Existing(s.file) + [EncodeRow(m)])
    ensures !f.canOpen ==> Next(s, f).file == s.file
  {
    Lists.MapOne(EncodeRow, m);
  }

  /** The record an accepted line appends reads back as its measurement at second precision. */
  lemma NextAcceptsLog(s: Session, f: Frame, m: Measurement)
    requires Intact(s.file)
    requires Admit(Text.Strip(f.raw), f.acceptedAt) == Some(m)
    ensures ReadRows(Next(s, f).file) == ReadRows(s.file) + (if f.canOpen then [AtSeconds(m)] else [])
  {
    NextLog(s, f);
    Lists.MapOne(AtSeconds, m);
  }

  /** The message box text names the receive time (readable back at second precision) and the stripped line. */
  lemma RenderParts(m: Message)
    ensures |Render(m)| == 23 + |m.line|
    ensures Timestamps.Parse(Render(m)[..19]) == Some(Timestamps.Truncate(m.receivedAt))
    ensures Render(m)[19..23] == " :: " && Render(m)[23..] == m.line
  {
    Timestamps.FormatPieces(m.receivedAt);
    Timestamps.FormatParse(m.receivedAt);
    var d := Render(m);
    assert d[..19] == Timestamps.Format(m.receivedAt);
  }

  lemma {:induction false} ReplayShown(s: Session, fs: seq<Frame>)
    ensures Replay(s, fs).messages == s.messages + Lists.Map(Shows, fs)
  {
    if fs != [] {
      var init, last := fs[..|fs| - 1], fs[|fs| - 1];
      ReplayShown(s, init);
      assert Replay(s, fs).messages == Replay(s, init).messages + [Shows(last)];
      Lists.AppendOne(s.messages, Lists.Map(Shows, init), Shows(last));
    }
  }

  /** Every line received is shown once, in order, whether or not it is admitted. */
  lemma ReplayMessages(s: Session, fs: seq<Frame>)
    ensures |Replay(s, fs).messages| == |s.messages| + |fs|
    ensures Replay(s, fs).messages[..|s.messages|] == s.messages
    ensures forall i :: 0 <= i < |fs| ==>
              Replay(s, fs).messages[|s.messages| + i] == Message(fs[i].receivedAt, Text.Strip(fs[i].raw))
  {
    ReplayShown(s, fs);
    Lists.Appends(s.messages, Lists.Map(Shows, fs));
    Lists.MapAt(Shows, fs);
  }

  /** The data list grows by exactly the admitted measurements, and nothing is dropped from it. */
  lemma {:induction false} ReplayData(s: Session, fs: seq<Frame>)
    ensures Replay(s, fs).data == s.data + Admitted(fs)
  {
    if fs != [] {
      var init, last := fs[..|fs| - 1], fs[|fs| - 1];
      ReplayData(s, init);
      assert s.data + Admitted(fs) == (s.data + Admitted(init)) + Yield(last);
    }
  }

  /** One line publishes the data list once when, and only when, it yields a measurement. */
  lemma NextPublished(t: Session, f: Frame)
    ensures |Yield(f)| <= 1
    ensures Next(t, f).data == t.data + Yield(f)
    ensures Next(t, f).published == t.published + (if Yield(f) == [] then [] else [t.data + Yield(f)])
  {
  }

  /** The published lists are the old ones, then the data list after each admission. */
  ghost predicate PublishedAfter(pub: seq<seq<Measurement>>, before: seq<seq<Measurement>>,
                                 data: seq<Measurement>, admitted: seq<Measurement>)
  {
    && |pub| == |before| + |admitted|
    && pub[..|before|] == before
    && forall k :: |before| <= k < |pub| ==> pub[k] == data + admitted[..k - |before| + 1]
  }

  lemma PublishedStep(pub: seq<seq<Measurement>>, before: seq<seq<Measurement>>,
                      data: seq<Measurement>, admitted: seq<Measurement>, m: Measurement)
    requires PublishedAfter(pub, before, data, admitted)
    ensures PublishedAfter(pub + [data + admitted + [m]], before, data, admitted + [m])
  {
    var pub', a' := pub + [data + admitted + [m]], admitted + [m];
    assert pub'[..|before|] == pub[..|before|];
    forall k | |before| <= k < |pub'| ensures pub'[k] == data + a'[..k - |before| + 1] {
      if k < |pub| {
        assert a'[..k - |before| + 1] == admitted[..k - |before| + 1];
      } else {
        assert a'[..k - |before| + 1] == a';
      }
    }
  }

  /**
   * One list is published per admitted measurement: the earlier lists are
   * kept, and the new one at |s.published| + j is the data list right
   * after admission j (counting from 0).
   */
  lemma {:induction false} ReplayPublished(s: Session, fs: seq<Frame>)
    ensures |Replay(s, fs).published| == |s.published| + |Admitted(fs)|
    ensures Replay(s, fs).published[..|s.published|] == s.published
    ensures forall k :: |s.published| <= k < |Replay(s, fs).published| ==>
              Replay(s, fs).published[k] == s.data + Admitted(fs)[..k - |s.published| + 1]
  {
    ReplayPublishedAfter(s, fs);
  }

  lemma {:induction false} ReplayPublishedAfter(s: Session, fs: seq<Frame>)
    ensures PublishedAfter(Replay(s, fs).published, s.published, s.data, Admitted(fs))
  {
    if fs == [] {
      assert s.published[..|s.published|] == s.published;
    } else {
      var init, last := fs[..|fs| - 1], fs[|fs| - 1];
      ReplayPublishedAfter(s, init);
      ReplayData(s, init);
      var t := Replay(s, init);
      NextPublished(t, last);
      var a := Admitted(init);
      assert Admitted(fs) == a + Yield(last);
      if Yield(last) == [] {
        assert a + [] == a;
      } else {
        var m := Yield(last)[0];
        assert Yield(last) == [m];
        assert t.data + [m] == s.data + a + [m];
        PublishedStep(t.published, s.published, s.data, a, m);
      }
    }
  }

  /** Every published list is a prefix of the data list, if the earlier ones were. */
  lemma ReplayPublishedPrefixes(s: Session, fs: seq<Frame>)
    requires forall k :: 0 <= k < |s.published| ==> s.published[k] <= s.data
    ensures forall k :: 0 <= k < |Replay(s, fs).published| ==> Replay(s, fs).published[k] <= Replay(s, fs).data
  {
    ReplayPublishedAfter(s, fs);
    ReplayData(s, fs);
    var u, a := Replay(s, fs), Admitted(fs);
    forall k | 0 <= k < |u.published| ensures u.published[k] <= u.data {
      if k < |s.published| {
        assert u.published[k] == u.published[..|s.published|][k] == s.published[k];
      } else {
        assert a[..k - |s.published| + 1] <= a;
      }
    }
  }

  /** One line changes the log by the row of its measurement, when it has one and the file could be opened. */
  lemma NextLog(t: Session, f: Frame)
    requires Intact(t.file)
    ensures Intact(Next(t, f).file)
    ensures ReadRows(Next(t, f).file) == ReadRows(t.file) + AllAtSeconds(Written(f))
  {
    match Admit(Text.Strip(f.raw), f.acceptedAt)
    case None =>
      assert AllAtSeconds(Written(f)) == [];
      assert ReadRows(t.file) + [] == ReadRows(t.file);
    case Some(m) =>
      LoadAfterAppend(t.file, [m], f.canOpen);
  }

  /** The log stays readable and reads back as what it held before plus the measurements that were written. */
  lemma {:induction false} ReplayLog(s: Session, fs: seq<Frame>)
    requires Intact(s.file)
    ensures Intact(Replay(s, fs).file)
    ensures ReadRows(Replay(s, fs).file) == ReadRows(s.file) + AllAtSeconds(Logged(fs))
  {
    if fs != [] {
      var init, last := fs[..|fs| - 1], fs[|fs| - 1];
      ReplayLog(s, init);
      NextLog(Replay(s, init), last);
      Lists.MapConcat(AtSeconds, Logged(init), Written(last));
    }
  }

  /** When every write can open the file, everything admitted is logged. */
  lemma {:induction false} LoggedAll(fs: seq<Frame>)
    requires forall i :: 0 <= i < |fs| ==> fs[i].canOpen
    ensures Logged(fs) == Admitted(fs)
  {
    if fs != [] {
      LoggedAll(fs[..|fs| - 1]);
    }
  }

  /** With writes that succeed, the log keeps holding exactly the data list. */
  lemma ReplayInSync(s: Session, fs: seq<Frame>)
    requires InSync(s)
    requires forall i :: 0 <= i < |fs| ==> fs[i].canOpen
    ensures InSync(Replay(s, fs))
  {
    ReplayLog(s, fs);
    ReplayData(s, fs);
    LoggedAll(fs);
    Lists.MapConcat(AtSeconds, s.data, Admitted(fs));
  }

  /** At start-up the data list is the log's content, so the two agree. */
  lemma StartInSync(file: Option<seq<string>>)
    requires Intact(file)
    ensures InSync(Start(file))
  {
    ReadRowsAtSeconds(file);
  }

  /** SerialReaderThread: the data list of run() and the signals it emitted, over the shared log. */
  class SerialReader {
    var data: seq<Measurement>
    var messages: seq<Message>
    var published: seq<seq<Measurement>>
    const log: CsvLog

    function View(): Session
      reads this, log
    {
      Session(data, messages, published, log.lines)
    }

    constructor (log: CsvLog)
      ensures this.log == log
      ensures data == [] && messages == [] && published == []
    {
      this.log := log;
      data := [];
      messages := [];
      published := [];
    }

    /** The body of the while loop for one line read from the port (lines 114-128). */
    method ProcessLine(raw: string, receivedAt: Timestamps.Timestamp, acceptedAt: Timestamps.Timestamp,
                       canOpen: bool)
      modifies this, log
      ensures View() == Next(old(View()), Frame(raw, receivedAt, acceptedAt, canOpen))
    {
      var line := Text.Strip(raw);
      messages := messages + [Message(receivedAt, line)];
      if Skipped(line) {
        return;
      }
      var parsed := ParseMessage(line);
      if BatteryVoltage in parsed && SolarVoltage in parsed && UltrasonicRange in parsed && Rssi in parsed {
        var m := Measurement(acceptedAt, parsed[BatteryVoltage], parsed[SolarVoltage],
                             parsed[UltrasonicRange], parsed[Rssi]);
        data := data + [m];
        log.Write([m], canOpen);
        published := published + [data];
      }
    }

    /** run(): load the log, then handle the frames in arrival order (lines 108-128). */
    method Run(frames: seq<Frame>)
      modifies this, log
      ensures View() == Replay(Session(ReadRows(old(log.lines)), old(messages), old(published), old(log.lines)),
                               frames)
    {
      data := ReadRows(log.lines);
      ghost var start := View();
      for i := 0 to |frames|
        invariant View() == Replay(start, frames[..i])
      {
        assert frames[..i + 1][..i] == frames[..i];
        ProcessLine(frames[i].raw, frames[i].receivedAt, frames[i].acceptedAt, frames[i].canOpen);
      }
      assert frames[..|frames|] == frames;
    }
  }
}
