/** The meter protocol: the CONFIGURE handshake, the CAPTURE poll loop, and the session
    that finds the meter, configures it, polls it and closes it. */
module Driver {
  import opened Hid
  import opened Codec
  import opened Transport
  import opened Locator

  const MeterVendorId: u16 := 0x64bd
  const MeterProductId: u16 := 0x74e3

  /** Budget for the acknowledgement of a CONFIGURE request. */
  const AckTimeoutMillis: u32 := 500
  /** Budget for the answer to a CAPTURE request. */
  const PollTimeoutMillis: u32 := 500

  /** Every call in calls writes report or reads with the given timeout. */
  predicate WritesOnly(calls: seq<HidCall>, report: seq<bv8>, timeoutMillis: nat)
  {
    forall e :: e in calls ==> e == Write(report) || e == Read(timeoutMillis)
  }

  /** The calls of a CONFIGURE handshake with an accepted range: the write, then, when it
      went through, the reads of the acknowledgement. */
  function SetConfigCalls(range: bv8, fast: bool, dbc: bool, written: int, ackScript: seq<HidRead>): seq<HidCall>
    requires range <= MaxRange
  {
    [Write(ConfigureReport(range, fast, dbc))] +
    if SendReq(written) != Ok then []
    else Reads(ReadFrom(ackScript, 0, [], TimeoutNs(AckTimeoutMillis)).calls, AckTimeoutMillis)
  }

  /** Fills a zeroed 8-byte buffer with the CONFIGURE request, the flags byte or-ed
      together bit group by bit group. */
  method BuildConfigure(range: bv8, fast: bool, dbc: bool) returns (report: seq<bv8>)
    requires range <= MaxRange
    ensures report == ConfigureReport(range, fast, dbc)
  {
    var command := new bv8[ReportLen](_ => 0);
    command[0] := CommandConfigure;
    command[1] := command[1] | range;
    if fast {
      command[1] := command[1] | FastMode;
    }
    if dbc {
      command[1] := command[1] | MeasureDbc;
    }
    report := command[..];
  }

  /** Configures the meter: range code, fast mode and C-weighting. written is the count the
      write reports; ackScript scripts the reads of the acknowledgement. A range above 4
      is refused before anything is sent; a failed send, or any failure to read an
      acknowledgement in time, including a timeout, is ErrInval. The acknowledgement's
      content is not examined. */
  method SetConfig(range: u32, fast: bool, dbc: bool, written: int, ackScript: seq<HidRead>)
    returns (ret: Status, calls: seq<HidCall>)
    ensures ret == Ok || ret == ErrInval || ret == ErrBadArgs
    ensures ret == ErrBadArgs <==> range > MaxRange as int
    ensures range > MaxRange as int ==> calls == []
    ensures ret == Ok <==>
              range <= MaxRange as int && written == ReportLen &&
              ReadFrom(ackScript, 0, [], TimeoutNs(AckTimeoutMillis)).status == Ok
    ensures range <= MaxRange as int ==> calls == SetConfigCalls(range as bv8, fast, dbc, written, ackScript)
  {
    if range > MaxRange as int {
      return ErrBadArgs, [];
    }
    var command := BuildConfigure(range as bv8, fast, dbc);
    calls := [Write(command)];
    if SendReq(written) != Ok {
      return ErrInval, calls;
    }
    var ack := ReadResp(AckTimeoutMillis, ackScript);
    calls := calls + Reads(ack.calls, AckTimeoutMillis);
    if ack.status != Ok {
      return ErrInval, calls;
    }
    return Ok, calls;
  }

  /** What one pass of the poll loop meets: the count the CAPTURE write reports, and the
      reads of the answer. */
  datatype Cycle = Cycle(written: int, script: seq<HidRead>)

  /** How one pass of the poll loop ends: a measurement, a skipped pass, or the end of the
      session. */
  datatype CycleOutcome = Measured(m: Measurement) | Skipped | Fatal

  /** One pass: send CAPTURE; a failed send ends the session; a read timeout skips the
      pass; any other read failure ends the session; a full report is decoded. */
  function CycleOutcomeOf(c: Cycle): CycleOutcome
  {
    if SendReq(c.written) != Ok then Fatal
    else
      var r := ReadFrom(c.script, 0, [], TimeoutNs(PollTimeoutMillis));
      if r.status != Ok then (if r.status != ErrTimeout then Fatal else Skipped)
      else Measured(Decode(r.data))
  }

  /** A pass ends the session exactly when the CAPTURE write is short or some read the
      loop reaches fails; it is skipped exactly when the write succeeds and neither a
      failure nor a completed report is reached. */
  lemma CycleClassification(c: Cycle)
    ensures CycleOutcomeOf(c).Fatal? <==>
              c.written != ReportLen ||
              exists k: nat :: FailsAt(c.script, 0, 0, k, TimeoutNs(PollTimeoutMillis))
    ensures CycleOutcomeOf(c).Skipped? <==>
              c.written == ReportLen &&
              (forall k: nat :: !FailsAt(c.script, 0, 0, k, TimeoutNs(PollTimeoutMillis))) &&
              (forall k: nat :: !CompletesAt(c.script, 0, 0, k, TimeoutNs(PollTimeoutMillis)))
  {
    ReadOutcomeIff(c.script, 0, [], TimeoutNs(PollTimeoutMillis));
  }

  /** A meter that stops answering makes the pass a skip, not the end of the session. */
  lemma SilentMeterSkips(written: int)
    requires written == ReportLen
    ensures CycleOutcomeOf(Cycle(written, [])) == Skipped
  {
  }

  /** The calls of one pass: the CAPTURE write, then, when it went through, the reads. */
  function CycleCalls(c: Cycle): seq<HidCall>
  {
    [Write(CaptureReport())] +
    if SendReq(c.written) != Ok then []
    else Reads(ReadFrom(c.script, 0, [], TimeoutNs(PollTimeoutMillis)).calls, PollTimeoutMillis)
  }

  /** One pass of the poll loop: request a capture, read the answer within its budget,
      and classify the result. */
  method PollCycle(c: Cycle) returns (outcome: CycleOutcome, calls: seq<HidCall>)
    ensures outcome == CycleOutcomeOf(c)
    ensures calls == CycleCalls(c)
  {
    var report := CaptureReport();
    calls := [Write(report)];
    if SendReq(c.written) != Ok {
      return Fatal, calls;
    }
    var r := ReadResp(PollTimeoutMillis, c.script);
    calls := calls + Reads(r.calls, PollTimeoutMillis);
    if r.status != Ok {
      if r.status != ErrTimeout {
        return Fatal, calls;
      }
      return Skipped, calls;
    }
    report := r.data;
    return Measured(Decode(report)), calls;
  }

  /** The result of the poll loop: whether it ended on a fatal error, the measurements it
      decoded, in order, and the hidapi calls it made. */
  datatype PollResult = PollResult(fatal: bool, measurements: seq<Measurement>, calls: seq<HidCall>)

  /** The poll loop from pass k on. The stop flag is seen set after the last pass. */
  function PollFrom(cycles: seq<Cycle>, k: nat): (r: PollResult)
    requires k <= |cycles|
    ensures |r.measurements| <= |cycles| - k
    decreases |cycles| - k
  {
    if k == |cycles| then PollResult(false, [], [])
    else
      var c := cycles[k];
      match CycleOutcomeOf(c)
      case Fatal => PollResult(true, [], CycleCalls(c))
      case Skipped =>
        var rest := PollFrom(cycles, k + 1);
        PollResult(rest.fatal, rest.measurements, CycleCalls(c) + rest.calls)
      case Measured(m) =>
        var rest := PollFrom(cycles, k + 1);
        PollResult(rest.fatal, [m] + rest.measurements, CycleCalls(c) + rest.calls)
  }

  /** The do-while poll loop: at least one pass, then one more for every scripted pass
      left while the stop flag stays clear. */
  method PollLoop(cycles: seq<Cycle>) returns (fatal: bool, measurements: seq<Measurement>, calls: seq<HidCall>)
    requires |cycles| > 0
    ensures fatal == PollFrom(cycles, 0).fatal
    ensures measurements == PollFrom(cycles, 0).measurements
    ensures calls == PollFrom(cycles, 0).calls
  {
    fatal, measurements, calls := false, [], [];
    var k := 0;
    while k < |cycles|
      invariant k <= |cycles|
      invariant PollFrom(cycles, 0) == Join(measurements, calls, PollFrom(cycles, k))
    {
      var outcome, cycleCalls := PollCycle(cycles[k]);
      PollStep(cycles, k, measurements, calls, outcome, cycleCalls);
      calls := calls + cycleCalls;
      if outcome.Fatal? {
        fatal := true;
        return;
      }
      if outcome.Measured? {
        measurements := measurements + [outcome.m];
      }
      k := k + 1;
    }
  }

  /** The passes already made, followed by the result of the loop from there on. */
  function Join(measured: seq<Measurement>, made: seq<HidCall>, rest: PollResult): PollResult
  {
    PollResult(rest.fatal, measured + rest.measurements, made + rest.calls)
  }

  /** One pass of the loop in terms of its outcome. */
  lemma PollStep(cycles: seq<Cycle>, k: nat, measured: seq<Measurement>, made: seq<HidCall>,
                  outcome: CycleOutcome, cycleCalls: seq<HidCall>)
    requires k < |cycles| && outcome == CycleOutcomeOf(cycles[k]) && cycleCalls == CycleCalls(cycles[k])
    ensures outcome.Fatal? ==>
              Join(measured, made, PollFrom(cycles, k)) == PollResult(true, measured, made + cycleCalls)
    ensures outcome.Skipped? ==>
              Join(measured, made, PollFrom(cycles, k)) == Join(measured, made + cycleCalls, PollFrom(cycles, k + 1))
    ensures outcome.Measured? ==>
              Join(measured, made, PollFrom(cycles, k)) ==
              Join(measured + [outcome.m], made + cycleCalls, PollFrom(cycles, k + 1))
  {
    var rest := PollFrom(cycles, k + 1);
    assert made + (cycleCalls + rest.calls) == made + cycleCalls + rest.calls;
    if outcome.Measured? {
      assert measured + ([outcome.m] + rest.measurements) == measured + [outcome.m] + rest.measurements;
    }
    if outcome.Fatal? {
      assert measured + [] == measured;
    }
  }

  /** The poll loop only ever writes CAPTURE requests and reads answers. */
  lemma {:induction false} PollWritesOnlyCapture(cycles: seq<Cycle>, k: nat)
    requires k <= |cycles|
    ensures WritesOnly(PollFrom(cycles, k).calls, CaptureReport(), PollTimeoutMillis)
    decreases |cycles| - k
  {
    if k < |cycles| {
      PollWritesOnlyCapture(cycles, k + 1);
    }
  }

  /** The session ends on a fatal error exactly when some pass it reaches is fatal. */
  lemma {:induction false} PollFatalIff(cycles: seq<Cycle>, k: nat)
    requires k <= |cycles|
    ensures PollFrom(cycles, k).fatal <==> exists j :: k <= j < |cycles| && CycleOutcomeOf(cycles[j]).Fatal?
    decreases |cycles| - k
  {
    if k < |cycles| {
      var outcome := CycleOutcomeOf(cycles[k]);
      PollStep(cycles, k, [], [], outcome, CycleCalls(cycles[k]));
      if !outcome.Fatal? {
        PollFatalIff(cycles, k + 1);
        if exists j :: k <= j < |cycles| && CycleOutcomeOf(cycles[j]).Fatal? {
          var j :| k <= j < |cycles| && CycleOutcomeOf(cycles[j]).Fatal?;
          assert j != k;
        }
      }
    }
  }

  /** Passes that all time out are skipped one after another: the loop runs to the stop
      flag and reports nothing. */
  lemma {:induction false} AllTimeoutsSkip(cycles: seq<Cycle>, k: nat)
    requires k <= |cycles|
    requires forall j :: k <= j < |cycles| ==> CycleOutcomeOf(cycles[j]) == Skipped
    ensures !PollFrom(cycles, k).fatal && PollFrom(cycles, k).measurements == []
    decreases |cycles| - k
  {
    if k < |cycles| {
      AllTimeoutsSkip(cycles, k + 1);
    }
  }

  /** Every pass that completes a report contributes its decoded measurement. */
  lemma {:induction false} MeasuredCyclesReported(cycles: seq<Cycle>, k: nat)
    requires k <= |cycles|
    requires forall j :: k <= j < |cycles| ==> CycleOutcomeOf(cycles[j]).Measured?
    ensures !PollFrom(cycles, k).fatal
    ensures |PollFrom(cycles, k).measurements| == |cycles| - k
    ensures forall j :: k <= j < |cycles| ==> PollFrom(cycles, k).measurements[j - k] == CycleOutcomeOf(cycles[j]).m
    decreases |cycles| - k
  {
    if k < |cycles| {
      MeasuredCyclesReported(cycles, k + 1);
      var r, rest := PollFrom(cycles, k), PollFrom(cycles, k + 1);
      assert r.measurements == [CycleOutcomeOf(cycles[k]).m] + rest.measurements;
      forall j | k < j < |cycles| ensures r.measurements[j - k] == CycleOutcomeOf(cycles[j]).m {
        assert r.measurements[j - k] == rest.measurements[j - (k + 1)];
      }
    }
  }

  /** The first pass at or after k that ends the session, or |cycles| when none does. */
  function FirstFatal(cycles: seq<Cycle>, k: nat): (f: nat)
    requires k <= |cycles|
    ensures k <= f <= |cycles|
    ensures f < |cycles| ==> CycleOutcomeOf(cycles[f]).Fatal?
    ensures forall j :: k <= j < f ==> !CycleOutcomeOf(cycles[j]).Fatal?
    decreases |cycles| - k
  {
    if k == |cycles| then k
    else if CycleOutcomeOf(cycles[k]).Fatal? then k
    else FirstFatal(cycles, k + 1)
  }

  /** The measurements of the passes k to f - 1 that read a report, in order. */
  function MeasuredIn(cycles: seq<Cycle>, k: nat, f: nat): seq<Measurement>
    requires k <= f <= |cycles|
    decreases f - k
  {
    if k == f then []
    else (if CycleOutcomeOf(cycles[k]).Measured? then [CycleOutcomeOf(cycles[k]).m] else []) +
         MeasuredIn(cycles, k + 1, f)
  }

  /** For any script of passes: the loop ends on a fatal error exactly when some pass is
      fatal, and it reports the measurements of the passes before the first fatal one,
      in order, skipped passes contributing nothing. */
  lemma {:induction false} PollReportsUpToFatal(cycles: seq<Cycle>, k: nat)
    requires k <= |cycles|
    ensures PollFrom(cycles, k).fatal <==> FirstFatal(cycles, k) < |cycles|
    ensures PollFrom(cycles, k).measurements == MeasuredIn(cycles, k, FirstFatal(cycles, k))
    decreases |cycles| - k
  {
    if k < |cycles| {
      var outcome := CycleOutcomeOf(cycles[k]);
      PollStep(cycles, k, [], [], outcome, CycleCalls(cycles[k]));
      if !outcome.Fatal? {
        PollReportsUpToFatal(cycles, k + 1);
        var f, rest := FirstFatal(cycles, k + 1), PollFrom(cycles, k + 1);
        assert FirstFatal(cycles, k) == f;
        var head := if outcome.Measured? then [outcome.m] else [];
        assert MeasuredIn(cycles, k, f) == head + MeasuredIn(cycles, k + 1, f);
        assert PollFrom(cycles, k).measurements == [] + (head + rest.measurements);
      }
    }
  }

  /** A measured pass decodes exactly the bytes the meter delivered, in order. */
  lemma CycleDecodesReceived(c: Cycle)
    requires CycleOutcomeOf(c).Measured?
    ensures var r := ReadFrom(c.script, 0, [], TimeoutNs(PollTimeoutMillis));
            r.status == Ok && r.calls <= |c.script| && r.data == Received(c.script, 0, r.calls) &&
            CycleOutcomeOf(c).m == Decode(r.data)
  {
    ReadReturnsReceived(c.script, 0, [], TimeoutNs(PollTimeoutMillis));
    var r := ReadFrom(c.script, 0, [], TimeoutNs(PollTimeoutMillis));
    assert [] + Received(c.script, 0, r.calls) == Received(c.script, 0, r.calls);
  }

  /** The exit status of the reader. */
  datatype ExitCode = ExitSuccess | ExitFailure

  /** The meter is found and opened: with no serial filter the lookup needs exactly one
      listed device, and the open has to succeed. */
  predicate Located(devs: seq<DeviceInfo>, openOk: bool)
  {
    |devs| == 1 && openOk
  }

  /** The CONFIGURE request is written whole and acknowledged in time. */
  predicate Acknowledged(written: int, ackScript: seq<HidRead>)
  {
    written == ReportLen && ReadFrom(ackScript, 0, [], TimeoutNs(AckTimeoutMillis)).status == Ok
  }

  /** The CONFIGURE request the reader sends: 50-100 dB, fast, A-weighted. */
  function StartupConfigure(): seq<bv8>
  {
    ConfigureReport(Range50To100Code, true, false)
  }

  /** The hidapi calls of a session: the lookup; then, once the meter is open, the
      CONFIGURE handshake, the poll loop when the meter acknowledged, and the close. */
  function SessionCalls(devs: seq<DeviceInfo>, openOk: bool, cfgWritten: int, ackScript: seq<HidRead>,
                        cycles: seq<Cycle>): seq<HidCall>
  {
    FindCalls(MeterVendorId, MeterProductId, None, devs) +
    if !Located(devs, openOk) then []
    else SetConfigCalls(Range50To100Code, true, false, cfgWritten, ackScript) +
         (if Acknowledged(cfgWritten, ackScript) then PollFrom(cycles, 0).calls else []) +
         [Close]
  }

  /** The reader's session: find the one meter, configure it, poll it until the stop flag
      is seen or a fatal error, and close the device on every path that opened it. */
  method Session(devs: seq<DeviceInfo>, openOk: bool, cfgWritten: int, ackScript: seq<HidRead>, cycles: seq<Cycle>)
    returns (code: ExitCode, measurements: seq<Measurement>, calls: seq<HidCall>)
    requires |cycles| > 0
    ensures code == ExitSuccess <==>
              Located(devs, openOk) && Acknowledged(cfgWritten, ackScript) && !PollFrom(cycles, 0).fatal
    ensures measurements == (if Located(devs, openOk) && Acknowledged(cfgWritten, ackScript)
                             then PollFrom(cycles, 0).measurements else [])
    ensures calls == SessionCalls(devs, openOk, cfgWritten, ackScript, cycles)
  {
    code, measurements := ExitFailure, [];
    CountWithoutFilter(devs);
    var found, dev, findCalls := FindDevice(MeterVendorId, MeterProductId, None, devs, openOk);
    calls := findCalls;
    if found != Ok {
      assert !Located(devs, openOk);
      assert calls == findCalls + [];
      return;
    }
    assert Located(devs, openOk);
    var configured, cfgCalls := SetConfig(Range50To100Code as int, true, false, cfgWritten, ackScript);
    assert configured == Ok <==> Acknowledged(cfgWritten, ackScript);
    assert cfgCalls == SetConfigCalls(Range50To100Code, true, false, cfgWritten, ackScript);
    var pollCalls := [];
    if configured == Ok {
      var fatal, polled;
      fatal, polled, pollCalls := PollLoop(cycles);
      measurements := polled;
      code := if fatal then ExitFailure else ExitSuccess;
    }
    calls := calls + (cfgCalls + pollCalls + [Close]);
  }

  /** The device is closed exactly when the session opened it, as the last call and only
      once. */
  lemma SessionClosesOpened(devs: seq<DeviceInfo>, openOk: bool, cfgWritten: int, ackScript: seq<HidRead>,
                            cycles: seq<Cycle>)
    ensures var calls := SessionCalls(devs, openOk, cfgWritten, ackScript, cycles);
            (Located(devs, openOk) ==> |calls| > 0 && calls[|calls| - 1] == Close && Close !in calls[..|calls| - 1]) &&
            (!Located(devs, openOk) ==> Close !in calls)
  {
    var findCalls := FindCalls(MeterVendorId, MeterProductId, None, devs);
    assert Close !in findCalls;
    if Located(devs, openOk) {
      var cfgCalls := SetConfigCalls(Range50To100Code, true, false, cfgWritten, ackScript);
      var pollCalls := if Acknowledged(cfgWritten, ackScript) then PollFrom(cycles, 0).calls else [];
      SetConfigWritesOnlyConfigure(Range50To100Code, true, false, cfgWritten, ackScript);
      PollWritesOnlyCapture(cycles, 0);
      CloseAbsent(cfgCalls, StartupConfigure(), AckTimeoutMillis);
      CloseAbsent(pollCalls, CaptureReport(), PollTimeoutMillis);
      ClosedOnceAtEnd(findCalls + cfgCalls + pollCalls);
    }
  }

  /** A trace that only writes and reads closes nothing. */
  lemma CloseAbsent(calls: seq<HidCall>, report: seq<bv8>, timeoutMillis: nat)
    requires WritesOnly(calls, report, timeoutMillis)
    ensures Close !in calls
  {
  }

  /** Appending a close to a trace without one leaves it last and alone. */
  lemma ClosedOnceAtEnd(pre: seq<HidCall>)
    requires Close !in pre
    ensures var calls := pre + [Close];
            |calls| > 0 && calls[|calls| - 1] == Close && Close !in calls[..|calls| - 1]
  {
    assert (pre + [Close])[..|pre|] == pre;
  }

  /** A CAPTURE request is only ever sent to a meter that was found and acknowledged its
      configuration, and every CONFIGURE request comes before every CAPTURE request. */
  lemma SessionConfiguresFirst(devs: seq<DeviceInfo>, openOk: bool, cfgWritten: int, ackScript: seq<HidRead>,
                               cycles: seq<Cycle>)
    ensures var calls := SessionCalls(devs, openOk, cfgWritten, ackScript, cycles);
            (Write(CaptureReport()) in calls ==> Located(devs, openOk) && Acknowledged(cfgWritten, ackScript)) &&
            Precedes(calls, Write(StartupConfigure()), Write(CaptureReport()))
  {
    var findCalls := FindCalls(MeterVendorId, MeterProductId, None, devs);
    var cfg, cap := StartupConfigure(), CaptureReport();
    RequestsDistinct(Range50To100Code, true, false);
    assert Write(cap) !in findCalls && Write(cfg) !in findCalls;
    if Located(devs, openOk) {
      var cfgCalls := SetConfigCalls(Range50To100Code, true, false, cfgWritten, ackScript);
      var pollCalls := if Acknowledged(cfgWritten, ackScript) then PollFrom(cycles, 0).calls else [];
      SetConfigWritesOnlyConfigure(Range50To100Code, true, false, cfgWritten, ackScript);
      PollWritesOnlyCapture(cycles, 0);
      OtherWriteAbsent(cfgCalls, cfg, AckTimeoutMillis, cap);
      OtherWriteAbsent(pollCalls, cap, PollTimeoutMillis, cfg);
      ThreePhaseOrder(findCalls, cfgCalls, pollCalls + [Close], Write(cfg), Write(cap));
    } else {
      ThreePhaseOrder(findCalls, [], [], Write(cfg), Write(cap));
    }
  }

  /** A trace made of a phase with neither a nor b, a phase without b and a phase
      without a has every a before every b. */
  lemma ThreePhaseOrder(first: seq<HidCall>, second: seq<HidCall>, third: seq<HidCall>, a: HidCall, b: HidCall)
    requires a !in first && b !in first && b !in second && a !in third
    ensures Precedes(first + second + third, a, b)
    ensures b in first + second + third ==> b in third
  {
    var calls := first + second + third;
    var n := |first + second|;
    assert calls[..n] == first + second;
    assert calls[n..] == third;
    SplitPrecedes(calls, n, a, b);
  }

  /** The CONFIGURE handshake writes only its request and reads the acknowledgement. */
  lemma SetConfigWritesOnlyConfigure(range: bv8, fast: bool, dbc: bool, written: int, ackScript: seq<HidRead>)
    requires range <= MaxRange
    ensures WritesOnly(SetConfigCalls(range, fast, dbc, written, ackScript), ConfigureReport(range, fast, dbc), AckTimeoutMillis)
  {
  }

  /** A trace that writes only one report holds no write of another. */
  lemma OtherWriteAbsent(calls: seq<HidCall>, report: seq<bv8>, timeoutMillis: nat, other: seq<bv8>)
    requires WritesOnly(calls, report, timeoutMillis) && other != report
    ensures Write(other) !in calls
  {
  }

  /** Every occurrence of a in calls comes before every occurrence of b. */
  predicate Precedes(calls: seq<HidCall>, a: HidCall, b: HidCall)
  {
    forall i, j :: 0 <= i < |calls| && 0 <= j < |calls| && calls[i] == a && calls[j] == b ==> i < j
  }

  /** A trace cut in two, with no b before the cut and no a after it, has every a before
      every b. */
  lemma SplitPrecedes(calls: seq<HidCall>, n: nat, a: HidCall, b: HidCall)
    requires n <= |calls| && b !in calls[..n] && a !in calls[n..]
    ensures Precedes(calls, a, b)
  {
    forall i | n <= i < |calls| ensures calls[i] != a {
      assert calls[i] == calls[n..][i - n];
    }
    forall j | 0 <= j < n ensures calls[j] != b {
      assert calls[j] == calls[..n][j];
    }
  }
}
