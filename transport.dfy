/** Sending and receiving 8-byte reports over an open device. The write's byte count,
    each read's outcome and the clock readings are scripted inputs. */
module Transport {
  import opened Hid

  /** Budget of a read loop in nanoseconds, as a 64-bit product of a 32-bit count of
      milliseconds; it never wraps. */
  function TimeoutNs(timeoutMillis: u32): (ns: nat)
    ensures ns < 0x1_0000_0000_0000_0000
    ensures ns / 1000000 == timeoutMillis && ns % 1000000 == 0
  {
    timeoutMillis * 1000000
  }

  /** A request succeeds only when the write reports the whole 8-byte report written;
      any other count, short, long or negative, is an error. */
  function SendReq(written: int): (ret: Status)
    ensures ret == Ok <==> written == ReportLen
    ensures ret != Ok ==> ret == ErrInval
  {
    if written != ReportLen then ErrInval else Ok
  }

  /** How a read loop ended: its result code, the bytes it accumulated, and the number of
      hid_read_timeout calls it made. */
  datatype ReadResult = ReadResult(status: Status, data: seq<bv8>, calls: nat)

  /** The read loop from script position i with the bytes acc already received. The loop
      stops with success only when exactly 8 bytes have arrived; a failed read stops it
      with ErrInval; a clock reading past the budget, taken after every read, stops it
      with ErrTimeout, even when that read completed the report. Once the script is used
      up the device is silent: one more read waits out its timeout, delivers nothing, and
      the budget check fails. */
  function ReadFrom(script: seq<HidRead>, i: nat, acc: seq<bv8>, timeoutNs: nat): (r: ReadResult)
    requires i <= |script|
    ensures r.status == Ok || r.status == ErrInval || r.status == ErrTimeout
    ensures i <= r.calls <= |script| + 1
    ensures r.status == Ok ==> |r.data| == ReportLen && r.calls <= |script|
    ensures r.status == ErrInval ==> i < r.calls <= |script| && script[r.calls - 1].ReadError?
    ensures r.status == ErrTimeout && r.calls <= |script| ==>
              i < r.calls && script[r.calls - 1].ReadChunk? && script[r.calls - 1].elapsedNs > timeoutNs
    decreases |script| - i
  {
    if |acc| == ReportLen then ReadResult(Ok, acc, i)
    else if i == |script| then ReadResult(ErrTimeout, acc, i + 1)
    else match script[i]
      case ReadError => ReadResult(ErrInval, acc, i + 1)
      case ReadChunk(bytes, elapsed) =>
        if elapsed > timeoutNs then ReadResult(ErrTimeout, acc + bytes, i + 1)
        else ReadFrom(script, i + 1, acc + bytes, timeoutNs)
  }

  /** Reads a response of exactly 8 bytes within timeoutMillis milliseconds. */
  method ReadResp(timeoutMillis: u32, script: seq<HidRead>) returns (r: ReadResult)
    ensures r == ReadFrom(script, 0, [], TimeoutNs(timeoutMillis))
  {
    var timeoutNs := TimeoutNs(timeoutMillis);
    var readBytes := 0;
    var response: seq<bv8> := [];
    var i := 0;
    while readBytes != ReportLen
      invariant i <= |script|
      invariant readBytes == |response|
      invariant ReadFrom(script, i, response, timeoutNs) == ReadFrom(script, 0, [], timeoutNs)
      decreases |script| - i
    {
      if i == |script| {
        // the device has gone silent: the read delivers nothing and the budget is spent
        return ReadResult(ErrTimeout, response, i + 1);
      }
      match script[i]
      case ReadError =>
        return ReadResult(ErrInval, response, i + 1);
      case ReadChunk(bytes, elapsed) =>
        response := response + bytes;
        readBytes := readBytes + |bytes|;
        i := i + 1;
        if elapsed > timeoutNs {
          return ReadResult(ErrTimeout, response, i);
        }
    }
    return ReadResult(Ok, response, i);
  }

  /** Number of bytes the reads script[i..k] deliver. */
  function Delivered(script: seq<HidRead>, i: nat, k: nat): nat
    requires i <= k <= |script|
    decreases k - i
  {
    if i == k then 0
    else (if script[i].ReadChunk? then |script[i].bytes| else 0) + Delivered(script, i + 1, k)
  }

  /** The bytes the reads script[i..k] deliver, in the order they arrive. */
  function Received(script: seq<HidRead>, i: nat, k: nat): (bytes: seq<bv8>)
    requires i <= k <= |script|
    ensures |bytes| == Delivered(script, i, k)
    decreases k - i
  {
    if i == k then []
    else (if script[i].ReadChunk? then script[i].bytes else []) + Received(script, i + 1, k)
  }

  /** The bytes a read loop hands back are those it already had followed by every chunk
      its reads delivered, in order; a loop that ran past the script got nothing more. */
  lemma {:induction false} ReadReturnsReceived(script: seq<HidRead>, i: nat, acc: seq<bv8>, timeoutNs: nat)
    requires i <= |script|
    ensures var r := ReadFrom(script, i, acc, timeoutNs);
            r.data == acc + Received(script, i, if r.calls <= |script| then r.calls else |script|)
    decreases |script| - i
  {
    var r := ReadFrom(script, i, acc, timeoutNs);
    if |acc| == ReportLen || i == |script| {
      assert acc + [] == acc;
    } else {
      var next := i + 1;
      assert Received(script, i, next) == (if script[i].ReadChunk? then script[i].bytes else []);
      match script[i]
      case ReadError =>
        assert acc + [] == acc;
      case ReadChunk(bytes, elapsed) =>
        if elapsed <= timeoutNs {
          ReadReturnsReceived(script, next, acc + bytes, timeoutNs);
          var c := if r.calls <= |script| then r.calls else |script|;
          assert Received(script, i, c) == bytes + Received(script, next, c);
          assert acc + bytes + Received(script, next, c) == acc + (bytes + Received(script, next, c));
        } else {
          assert Received(script, next, next) == [];
        }
    }
  }

  /** The loop, started at i with accLen bytes in hand, gets to make read k: every read
      before it delivered bytes within the budget, and the count it checks at the top of
      each pass up to k is not 8. */
  ghost predicate Reaches(script: seq<HidRead>, i: nat, accLen: nat, k: nat, timeoutNs: nat)
  {
    i <= k < |script| &&
    (forall j :: i <= j < k ==> script[j].ReadChunk? && script[j].elapsedNs <= timeoutNs) &&
    (forall j :: i <= j <= k ==> accLen + Delivered(script, i, j) != ReportLen)
  }

  /** Read k completes the report: the loop reaches it and it brings the count to 8 in time. */
  ghost predicate CompletesAt(script: seq<HidRead>, i: nat, accLen: nat, k: nat, timeoutNs: nat)
  {
    Reaches(script, i, accLen, k, timeoutNs) &&
    script[k].ReadChunk? && script[k].elapsedNs <= timeoutNs &&
    accLen + Delivered(script, i, k + 1) == ReportLen
  }

  /** Read k fails: the loop reaches it and it reports an error. */
  ghost predicate FailsAt(script: seq<HidRead>, i: nat, accLen: nat, k: nat, timeoutNs: nat)
  {
    Reaches(script, i, accLen, k, timeoutNs) && script[k].ReadError?
  }

  /** Once more than 8 bytes have arrived the loop can never succeed: its guard only
      stops on exactly 8. */
  lemma {:induction false} ReadOverrunNeverOk(script: seq<HidRead>, i: nat, acc: seq<bv8>, timeoutNs: nat)
    requires i <= |script| && |acc| > ReportLen
    ensures ReadFrom(script, i, acc, timeoutNs).status != Ok
    decreases |script| - i
  {
    if i < |script| && script[i].ReadChunk? && script[i].elapsedNs <= timeoutNs {
      ReadOverrunNeverOk(script, i + 1, acc + script[i].bytes, timeoutNs);
    }
  }

  /** The read loop succeeds exactly when some read it reaches completes the report in
      time, and fails with ErrInval exactly when some read it reaches fails; every other
      ending is ErrTimeout. */
  lemma {:induction false} ReadOutcomeIff(script: seq<HidRead>, i: nat, acc: seq<bv8>, timeoutNs: nat)
    requires i <= |script| && |acc| != ReportLen
    ensures ReadFrom(script, i, acc, timeoutNs).status == Ok <==>
              exists k: nat :: CompletesAt(script, i, |acc|, k, timeoutNs)
    ensures ReadFrom(script, i, acc, timeoutNs).status == ErrInval <==>
              exists k: nat :: FailsAt(script, i, |acc|, k, timeoutNs)
    decreases |script| - i
  {
    if i == |script| {
      return;
    }
    match script[i]
    case ReadError =>
      assert Delivered(script, i, i) == 0;
      assert FailsAt(script, i, |acc|, i, timeoutNs);
    case ReadChunk(bytes, elapsed) =>
      var acc' := acc + bytes;
      if elapsed > timeoutNs {
        forall k: nat | Reaches(script, i, |acc|, k, timeoutNs) ensures k == i {
        }
      } else if |acc'| == ReportLen {
        assert Delivered(script, i, i) == 0;
        assert Delivered(script, i, i + 1) == |bytes|;
        assert CompletesAt(script, i, |acc|, i, timeoutNs);
        forall k: nat | Reaches(script, i, |acc|, k, timeoutNs) ensures k == i {
        }
      } else {
        ReadOutcomeIff(script, i + 1, acc', timeoutNs);
        ReachesStep(script, i, acc, timeoutNs);
        assert ReadFrom(script, i, acc, timeoutNs) == ReadFrom(script, i + 1, acc', timeoutNs);
        if ReadFrom(script, i, acc, timeoutNs).status == Ok {
          var k: nat :| CompletesAt(script, i + 1, |acc'|, k, timeoutNs);
          assert CompletesAt(script, i, |acc|, k, timeoutNs);
        }
        if ReadFrom(script, i, acc, timeoutNs).status == ErrInval {
          var k: nat :| FailsAt(script, i + 1, |acc'|, k, timeoutNs);
          assert FailsAt(script, i, |acc|, k, timeoutNs);
        }
      }
  }

  /** While a chunk read in time leaves the count short of or past 8, the loop reaches
      read k > i from i exactly when it reaches k from i + 1 with the chunk added. */
  lemma ReachesStep(script: seq<HidRead>, i: nat, acc: seq<bv8>, timeoutNs: nat)
    requires i < |script| && script[i].ReadChunk? && script[i].elapsedNs <= timeoutNs
    requires |acc| != ReportLen && |acc| + |script[i].bytes| != ReportLen
    ensures forall k: nat :: Reaches(script, i, |acc|, k, timeoutNs) && k > i <==>
              Reaches(script, i + 1, |acc + script[i].bytes|, k, timeoutNs)
    ensures forall k: nat :: CompletesAt(script, i, |acc|, k, timeoutNs) <==>
              CompletesAt(script, i + 1, |acc + script[i].bytes|, k, timeoutNs)
    ensures forall k: nat :: FailsAt(script, i, |acc|, k, timeoutNs) <==>
              FailsAt(script, i + 1, |acc + script[i].bytes|, k, timeoutNs)
  {
    var accLen', n := |acc + script[i].bytes|, |script[i].bytes|;
    assert accLen' == |acc| + n;
    assert Delivered(script, i, i) == 0;
    forall k: nat | i < k <= |script|
      ensures Delivered(script, i, k) == n + Delivered(script, i + 1, k)
    {
    }
    forall k: nat ensures Reaches(script, i, |acc|, k, timeoutNs) && k > i <==> Reaches(script, i + 1, accLen', k, timeoutNs) {
      if i < k < |script| {
        if Reaches(script, i + 1, accLen', k, timeoutNs) {
          forall j | i <= j <= k ensures |acc| + Delivered(script, i, j) != ReportLen {
            if j > i {
              assert accLen' + Delivered(script, i + 1, j) != ReportLen;
            }
          }
        }
        if Reaches(script, i, |acc|, k, timeoutNs) {
          var next := i + 1;
          forall j | next <= j <= k ensures accLen' + Delivered(script, next, j) != ReportLen {
            assert |acc| + Delivered(script, i, j) != ReportLen;
          }
        }
      }
    }
  }

  /** A read the loop reaches that ends past the budget ends the loop with a timeout,
      even when it completed the report: the clock is checked after every read. */
  lemma {:induction false} LateReadTimesOut(script: seq<HidRead>, i: nat, acc: seq<bv8>, k: nat, timeoutNs: nat)
    requires Reaches(script, i, |acc|, k, timeoutNs)
    requires script[k].ReadChunk? && script[k].elapsedNs > timeoutNs
    ensures ReadFrom(script, i, acc, timeoutNs).status == ErrTimeout
    decreases k - i
  {
    assert Delivered(script, i, i) == 0;
    if k > i {
      var next := i + 1;
      assert Delivered(script, i, next) == |script[i].bytes|;
      assert |acc| + Delivered(script, i, next) != ReportLen;
      ReachesStep(script, i, acc, timeoutNs);
      LateReadTimesOut(script, next, acc + script[i].bytes, k, timeoutNs);
    }
  }

  /** The report may be complete and still be thrown away: a single read bringing all
      8 bytes after the budget has passed. */
  lemma LateCompletionTimesOut(bytes: seq<bv8>, elapsedNs: nat, timeoutNs: nat)
    requires |bytes| == ReportLen && elapsedNs > timeoutNs
    ensures ReadFrom([ReadChunk(bytes, elapsedNs)], 0, [], timeoutNs).status == ErrTimeout
  {
  }
}
