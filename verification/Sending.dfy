/** Handing reports to hid_write, and what its return values make the writer believe. */
module Sending {
  import opened Bytes
  import opened Reports

  /** hid_write returns a byte count, or -1 on error. */
  type WriteResult = r: int | -1 <= r <= REPORT_SIZE

  /** The writer compares the signed result with the unsigned size of the report, so -1
      is read as the largest value of a 64-bit size_t. */
  function AsSize(res: WriteResult): uint64 {
    if res < 0 then res + 0x1_0000_0000_0000_0000 else res
  }

  datatype Sent = Sent(delivered: seq<Report>, results: seq<WriteResult>, ok: bool)

  /** `results` lists what the next calls return; calls beyond it take the whole report. */
  function Send(reports: seq<Report>, results: seq<WriteResult>): Sent {
    if reports == [] then Sent([], results, true)
    else
      var res := if results == [] then REPORT_SIZE else results[0];
      var left := if results == [] then [] else results[1..];
      var here := if res == REPORT_SIZE then [reports[0]] else [];
      if AsSize(res) < REPORT_SIZE then Sent(here, left, false)
      else var later := Send(reports[1..], left); later.(delivered := here + later.delivered)
  }

  /** Sending with a device that has already taken some reports. */
  function SendOnto(taken: seq<Report>, reports: seq<Report>, results: seq<WriteResult>): Sent {
    var sent := Send(reports, results);
    sent.(delivered := taken + sent.delivered)
  }

  lemma SendOntoNone(taken: seq<Report>, results: seq<WriteResult>)
    ensures SendOnto(taken, [], results) == Sent(taken, results, true)
  {
  }

  lemma SendOntoFirst(taken: seq<Report>, reports: seq<Report>, results: seq<WriteResult>)
    requires reports != []
    ensures var res := if results == [] then REPORT_SIZE else results[0];
            var left := if results == [] then [] else results[1..];
            var next := taken + (if res == REPORT_SIZE then [reports[0]] else []);
            SendOnto(taken, reports, results)
            == if AsSize(res) < REPORT_SIZE then Sent(next, left, false) else SendOnto(next, reports[1..], left)
  {
    var res := if results == [] then REPORT_SIZE else results[0];
    var left := if results == [] then [] else results[1..];
    var here := if res == REPORT_SIZE then [reports[0]] else [];
    var later := Send(reports[1..], left).delivered;
    assert taken + (here + later) == taken + here + later;
  }

  /** The results that the calls for n reports would see. */
  function Seen(n: nat, results: seq<WriteResult>): seq<WriteResult> {
    results[..Min(n, |results|)]
  }

  lemma SendNone(results: seq<WriteResult>)
    ensures Send([], results) == Sent([], results, true)
  {
  }

  lemma SendFirst(reports: seq<Report>, results: seq<WriteResult>)
    requires reports != []
    ensures var res := if results == [] then REPORT_SIZE else results[0];
            var left := if results == [] then [] else results[1..];
            Send(reports, results).ok <==> (res == -1 || res == REPORT_SIZE) && Send(reports[1..], left).ok
  {
  }

  /** The results that the calls for n reports see: the first, then the others. */
  lemma SeenFirst(n: nat, results: seq<WriteResult>)
    requires 0 < n && results != []
    ensures Seen(n, results) == [results[0]] + Seen(n - 1, results[1..])
  {
  }

  /** A short write is always reported, and nothing else is. */
  lemma {:induction false} ShortWriteIsReported(reports: seq<Report>, results: seq<WriteResult>)
    ensures Send(reports, results).ok <==> forall res <- Seen(|reports|, results) :: res == -1 || res == REPORT_SIZE
  {
    if reports == [] {
      SendNone(results);
    } else {
      SendFirst(reports, results);
      hide Send;
      if results == [] {
        ShortWriteIsReported(reports[1..], []);
      } else {
        var later := Seen(|reports| - 1, results[1..]);
        SeenFirst(|reports|, results);
        ShortWriteIsReported(reports[1..], results[1..]);
        hide Seen;
        assert forall res <- [results[0]] + later :: res == results[0] || res in later;
        assert results[0] in [results[0]] + later && forall res <- later :: res in [results[0]] + later;
      }
    }
  }

  /** A write that reports success delivered every report, in order, exactly when no
      call failed with -1. */
  lemma {:induction false} SuccessMeansDelivered(reports: seq<Report>, results: seq<WriteResult>)
    ensures |Send(reports, results).delivered| <= |reports|
    ensures Send(reports, results).ok ==>
              (Send(reports, results).delivered == reports <==> -1 !in Seen(|reports|, results))
  {
    if reports != [] && results != [] {
      assert Seen(|reports|, results) == [results[0]] + Seen(|reports| - 1, results[1..]);
      SuccessMeansDelivered(reports[1..], results[1..]);
      assert reports == [reports[0]] + reports[1..];
    } else if reports != [] {
      SuccessMeansDelivered(reports[1..], results);
      assert reports == [reports[0]] + reports[1..];
    }
  }

  /** A failed call is taken for success: nothing is delivered and no error is raised. */
  lemma FailedWriteGoesUnnoticed(report: Report)
    ensures var sent := Send([report], [-1]); sent.ok && sent.delivered == []
  {
    assert Send([report][1..], [-1][1..]) == Sent([], [], true);
  }
}
