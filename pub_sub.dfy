// The log subscriber: pass after pass, it scans the log from a cursor that
// starts at address 0, hands every non-null record to the handler, and moves
// the cursor past each record, whatever the handler does.
module PubSub {
  import opened Common
  import opened Decimal

  /** A record as the log iterator gives it out: its bytes, or null; its
      address; its length. */
  datatype LogRecord = LogRecord(entry: Option<seq<byte>>, address: int32, entryLength: int64)

  /** How a pass ends once its scan is done: the wait for the commit and the
      pause go through; cancellation interrupts them; or the log raises. */
  datatype PassEnd = Continue | Cancelled | LogFailure(error: Exception)

  /** One pass of the outer loop: the log's records in address order, as the
      scan finds them, and how the wait after the scan ends. */
  datatype Pass = Pass(log: seq<LogRecord>, end: PassEnd)

  /** One handler call: the record's bytes and its address, which the
      handler receives as `IntString(address)`. */
  datatype Delivery = Delivery(message: seq<byte>, address: int32)

  /** What the subscription has done so far: the handler calls in order, the
      addresses whose handler call failed and was logged, and the cursor. */
  datatype Scanned = Scanned(delivered: seq<Delivery>, errors: seq<int32>, cursor: int)

  datatype Subscribed = Subscribed(outcome: Outcome, scanned: Scanned)

  /** `_log.Scan(from, long.MaxValue)`: the records at or after `from`, in order. */
  function Scan(log: seq<LogRecord>, from: int): (r: seq<LogRecord>)
    ensures |r| <= |log|
    ensures forall k :: 0 <= k < |r| ==> r[k].address >= from
  {
    if log == [] then []
    else (if log[0].address >= from then [log[0]] else []) + Scan(log[1..], from)
  }

  /** One record read by the inner loop: a non-null record goes to the
      handler, whose failure is only logged; every record moves the cursor
      to its end. */
  function Read(r: LogRecord, fails: (seq<byte>, string) -> bool, s: Scanned): Scanned {
    match r.entry
    case None => Scanned(s.delivered, s.errors, r.address + r.entryLength)
    case Some(m) =>
      Scanned(s.delivered + [Delivery(m, r.address)],
              if fails(m, IntString(r.address)) then s.errors + [r.address] else s.errors,
              r.address + r.entryLength)
  }

  /** The inner loop over the records of one scan, in order. */
  function ScanRecords(records: seq<LogRecord>, fails: (seq<byte>, string) -> bool, s: Scanned): Scanned
    decreases |records|
  {
    if records == [] then s
    else ScanRecords(records[1..], fails, Read(records[0], fails, s))
  }

  /** The outer loop: one scan per pass from the cursor the previous pass
      left; cancellation ends the subscription normally, a log failure ends it
      with that error, and when the passes run out the token is cancelled. */
  function Subscription(passes: seq<Pass>, fails: (seq<byte>, string) -> bool, s: Scanned): Subscribed
    decreases |passes|
  {
    if passes == [] then Subscribed(Ok, s)
    else
      var after := ScanRecords(Scan(passes[0].log, s.cursor), fails, s);
      match passes[0].end
      case Continue => Subscription(passes[1..], fails, after)
      case Cancelled => Subscribed(Ok, after)
      case LogFailure(e) => Subscribed(Err(e), after)
  }

  /** The handler calls a scan makes, defined on their own: one per non-null
      record, in order. */
  function Deliveries(records: seq<LogRecord>): seq<Delivery> {
    if records == [] then []
    else (match records[0].entry
          case None => []
          case Some(m) => [Delivery(m, records[0].address)]) + Deliveries(records[1..])
  }

  /** A scan makes one handler call per non-null record, in scan order, and
      leaves the cursor at the end of the last record it read. */
  lemma {:induction false} ScanRecordsDelivers(records: seq<LogRecord>, fails: (seq<byte>, string) -> bool, s: Scanned)
    ensures ScanRecords(records, fails, s).delivered == s.delivered + Deliveries(records)
    ensures ScanRecords(records, fails, s).cursor
      == if records == [] then s.cursor else records[|records| - 1].address + records[|records| - 1].entryLength
    decreases |records|
  {
    if records != [] {
      var r, rest := records[0], records[1..];
      var first := match r.entry case None => [] case Some(m) => [Delivery(m, r.address)];
      var next := Read(r, fails, s);
      assert next.delivered == s.delivered + first;
      ScanRecordsDelivers(rest, fails, next);
      assert Deliveries(records) == first + Deliveries(rest);
      assert s.delivered + first + Deliveries(rest) == s.delivered + (first + Deliveries(rest));
    }
  }

  /** Handler failures are swallowed: whichever calls fail, the same calls
      are made and the cursor ends in the same place. */
  lemma {:induction false} FailuresSwallowed(records: seq<LogRecord>, f: (seq<byte>, string) -> bool,
                                             g: (seq<byte>, string) -> bool, s: Scanned)
    ensures ScanRecords(records, f, s).delivered == ScanRecords(records, g, s).delivered
    ensures ScanRecords(records, f, s).cursor == ScanRecords(records, g, s).cursor
  {
    ScanRecordsDelivers(records, f, s);
    ScanRecordsDelivers(records, g, s);
  }

  /** A log whose records have positive lengths and do not overlap, in address order. */
  predicate Ordered(log: seq<LogRecord>) {
    (forall k :: 0 <= k < |log| ==> log[k].entryLength > 0)
    && (forall j, k :: 0 <= j < k < |log| ==> log[j].address + log[j].entryLength <= log[k].address)
  }

  /** The handler calls so far have strictly increasing addresses, all below the cursor. */
  predicate Below(delivered: seq<Delivery>, cursor: int) {
    (forall k :: 0 <= k < |delivered| ==> delivered[k].address < cursor)
    && (forall j, k :: 0 <= j < k < |delivered| ==> delivered[j].address < delivered[k].address)
  }

  lemma {:induction false} ScanAbove(log: seq<LogRecord>, from: int, bound: int)
    requires forall k :: 0 <= k < |log| ==> log[k].address >= bound
    ensures forall k :: 0 <= k < |Scan(log, from)| ==> Scan(log, from)[k].address >= bound
  {
    if log != [] {
      ScanAbove(log[1..], from, bound);
    }
  }

  lemma {:induction false} ScanOrdered(log: seq<LogRecord>, from: int)
    requires Ordered(log)
    ensures Ordered(Scan(log, from))
  {
    if log != [] {
      var tail := log[1..];
      OrderedTail(log);
      ScanOrdered(tail, from);
      ScanAbove(tail, from, log[0].address + log[0].entryLength);
      if log[0].address >= from {
        OrderedCons(log[0], Scan(tail, from));
      }
    }
  }

  /** Dropping the first record of an ordered log leaves an ordered log,
      every record of which starts after the first one ends. */
  lemma OrderedTail(log: seq<LogRecord>)
    requires Ordered(log) && log != []
    ensures Ordered(log[1..])
    ensures forall k :: 0 <= k < |log[1..]| ==> log[1..][k].address >= log[0].address + log[0].entryLength
  {
    var tail := log[1..];
    forall j, k | 0 <= j < k < |tail| ensures tail[j].address + tail[j].entryLength <= tail[k].address {
      assert tail[j] == log[j + 1] && tail[k] == log[k + 1];
    }
    forall k | 0 <= k < |tail| ensures tail[k].address >= log[0].address + log[0].entryLength {
      assert tail[k] == log[k + 1];
    }
  }

  /** A record followed by an ordered log that starts after it ends is ordered. */
  lemma OrderedCons(first: LogRecord, rest: seq<LogRecord>)
    requires Ordered(rest) && first.entryLength > 0
    requires forall k :: 0 <= k < |rest| ==> rest[k].address >= first.address + first.entryLength
    ensures Ordered([first] + rest)
  {
    var r := [first] + rest;
    forall j, k | 0 <= j < k < |r| ensures r[j].address + r[j].entryLength <= r[k].address {
      assert r[k] == rest[k - 1];
      if j > 0 { assert r[j] == rest[j - 1]; }
    }
  }

  /** A scan of an ordered log from the cursor keeps the handler calls in
      strictly increasing address order, below the new cursor. */
  lemma {:induction false} ScanKeepsBelow(records: seq<LogRecord>, fails: (seq<byte>, string) -> bool, s: Scanned)
    requires Ordered(records) && Below(s.delivered, s.cursor)
    requires forall k :: 0 <= k < |records| ==> records[k].address >= s.cursor
    ensures Below(ScanRecords(records, fails, s).delivered, ScanRecords(records, fails, s).cursor)
    ensures ScanRecords(records, fails, s).cursor >= s.cursor
    decreases |records|
  {
    if records != [] {
      var r := records[0];
      var next := match r.entry
        case None => Scanned(s.delivered, s.errors, r.address + r.entryLength)
        case Some(m) =>
          Scanned(s.delivered + [Delivery(m, r.address)],
                  if fails(m, IntString(r.address)) then s.errors + [r.address] else s.errors,
                  r.address + r.entryLength);
      assert Ordered(records[1..]) by {
        forall j, k | 0 <= j < k < |records[1..]|
          ensures records[1..][j].address + records[1..][j].entryLength <= records[1..][k].address
        {
          assert records[1..][j] == records[j + 1] && records[1..][k] == records[k + 1];
        }
      }
      forall k | 0 <= k < |records[1..]| ensures records[1..][k].address >= next.cursor {
        assert records[1..][k] == records[k + 1];
      }
      ScanKeepsBelow(records[1..], fails, next);
    }
  }

  /** Within one subscription no record reaches the handler twice: over
      ordered logs the handler calls have strictly increasing addresses. */
  lemma {:induction false} SubscriptionDeliversOnce(passes: seq<Pass>, fails: (seq<byte>, string) -> bool, s: Scanned)
    requires forall i :: 0 <= i < |passes| ==> Ordered(passes[i].log)
    requires Below(s.delivered, s.cursor)
    ensures var r := Subscription(passes, fails, s).scanned; Below(r.delivered, r.cursor)
    decreases |passes|
  {
    if passes != [] {
      var records := Scan(passes[0].log, s.cursor);
      ScanOrdered(passes[0].log, s.cursor);
      ScanKeepsBelow(records, fails, s);
      SubscriptionDeliversOnce(passes[1..], fails, ScanRecords(records, fails, s));
    }
  }

  /** The inner loop of `SubscribeAsync`: reads the scan record by record. */
  method ReadScan(iter: seq<LogRecord>, fails: (seq<byte>, string) -> bool,
                  delivered0: seq<Delivery>, errors0: seq<int32>, cursor0: int)
    returns (delivered: seq<Delivery>, errors: seq<int32>, currentAddress: int)
    ensures Scanned(delivered, errors, currentAddress) == ScanRecords(iter, fails, Scanned(delivered0, errors0, cursor0))
  {
    delivered, errors, currentAddress := delivered0, errors0, cursor0;
    var j := 0;
    while j < |iter|
      invariant 0 <= j <= |iter|
      invariant ScanRecords(iter, fails, Scanned(delivered0, errors0, cursor0))
        == ScanRecords(iter[j..], fails, Scanned(delivered, errors, currentAddress))
    {
      var record := iter[j];
      if record.entry.Some? {
        delivered := delivered + [Delivery(record.entry.value, record.address)];
        if fails(record.entry.value, IntString(record.address)) {
          errors := errors + [record.address];
        }
      }
      currentAddress := record.address + record.entryLength;
      j := j + 1;
    }
  }

  /** `SubscribeAsync` with the handler's failures given by `fails` and the
      log's successive states and the cancellation by `passes`; the cursor
      starts at address 0. */
  method SubscribeAsync(passes: seq<Pass>, fails: (seq<byte>, string) -> bool)
    returns (outcome: Outcome, delivered: seq<Delivery>, errors: seq<int32>)
    ensures var r := Subscription(passes, fails, Scanned([], [], 0));
      outcome == r.outcome && delivered == r.scanned.delivered && errors == r.scanned.errors
  {
    var currentAddress: int := 0;
    delivered, errors := [], [];
    var i := 0;
    while i < |passes|
      invariant 0 <= i <= |passes|
      invariant Subscription(passes, fails, Scanned([], [], 0))
        == Subscription(passes[i..], fails, Scanned(delivered, errors, currentAddress))
    {
      var iter := Scan(passes[i].log, currentAddress);
      delivered, errors, currentAddress := ReadScan(iter, fails, delivered, errors, currentAddress);
      match passes[i].end {
        case Cancelled =>
          return Ok, delivered, errors;
        case LogFailure(e) =>
          return Err(e), delivered, errors;
        case Continue =>
      }
      i := i + 1;
    }
    outcome := Ok;
  }

  /** A subscription starting from nothing at address 0 over ordered logs
      calls the handler at strictly increasing addresses. */
  lemma FromStartDeliversOnce(passes: seq<Pass>, fails: (seq<byte>, string) -> bool)
    requires forall i :: 0 <= i < |passes| ==> Ordered(passes[i].log)
    ensures var d := Subscription(passes, fails, Scanned([], [], 0)).scanned.delivered;
      forall j, k :: 0 <= j < k < |d| ==> d[j].address < d[k].address
  {
    SubscriptionDeliversOnce(passes, fails, Scanned([], [], 0));
  }
}
