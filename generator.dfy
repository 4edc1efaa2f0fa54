// The activity generator: audit lines read from the log are parsed into
// entries, grouped into batches, and each batch is turned into one activity
// file by a file stage that reads the counter and then publishes, followed
// by a log stage that reports the names of the files produced.
module Generator {
  import opened Common
  import opened Calendar
  import opened Utf8
  import opened Models
  import opened Counters
  import opened ActivityFiles

  // ---------------------------------------------------------------------
  // Splitting on a separator

  /** `s.Split(sep)`: the pieces between separators, empty ones included;
      there is always at least one. */
  function Split(s: string, sep: char): (parts: seq<string>)
    ensures |parts| >= 1
  {
    if s == [] then [""]
    else
      var rest := Split(s[1..], sep);
      if s[0] == sep then [""] + rest
      else [[s[0]] + rest[0]] + rest[1..]
  }

  /** The pieces put back together with the separator between them. */
  function Join(parts: seq<string>, sep: char): string
    requires |parts| >= 1
  {
    if |parts| == 1 then parts[0] else parts[0] + [sep] + Join(parts[1..], sep)
  }

  /** There is one more piece than there are separators, no piece holds the
      separator, and joining the pieces gives back the text. */
  lemma {:induction false} SplitParts(s: string, sep: char)
    ensures |Split(s, sep)| == Count(s, sep) + 1
    ensures forall i :: 0 <= i < |Split(s, sep)| ==> sep !in Split(s, sep)[i]
    ensures Join(Split(s, sep), sep) == s
  {
    if s != [] {
      SplitParts(s[1..], sep);
      var rest := Split(s[1..], sep);
      if s[0] == sep {
        assert Split(s, sep)[1..] == rest;
      } else {
        var parts := Split(s, sep);
        assert parts[1..] == rest[1..];
        forall i | 0 <= i < |parts| ensures sep !in parts[i] {
          if i > 0 { assert parts[i] == rest[i]; }
        }
        if |rest| > 1 {
          assert Join(parts, sep) == [s[0]] + rest[0] + [sep] + Join(rest[1..], sep);
        }
        assert [s[0]] + s[1..] == s;
      }
    }
  }

  /** A text without the separator is a single piece. */
  lemma {:induction false} SplitWithout(s: string, sep: char)
    requires sep !in s
    ensures Split(s, sep) == [s]
  {
    if s != [] {
      SplitWithout(s[1..], sep);
      assert [s[0]] + s[1..] == s;
    }
  }

  /** Splitting across a separator splits both sides. */
  lemma {:induction false} SplitAcross(a: string, b: string, sep: char)
    ensures Split(a + [sep] + b, sep) == Split(a, sep) + Split(b, sep)
  {
    if a == [] {
      assert a + [sep] + b == [sep] + b;
      assert ([sep] + b)[1..] == b;
    } else {
      var t := a + [sep] + b;
      assert t[1..] == a[1..] + [sep] + b;
      SplitAcross(a[1..], b, sep);
    }
  }

  // ---------------------------------------------------------------------
  // Parsing an audit line

  /** `ParseAuditEntry`: the bytes as UTF-8 text, split on '|'; fewer than four
      pieces, or a first piece that is not a `yyyy-MM-ddTHH:mm:ss.fff`
      timestamp, give no entry; otherwise the first four pieces are the
      timestamp, the type, the device and the data, and later pieces are
      dropped. Every failure gives no entry; nothing is raised. */
  function ParseAuditEntry(data: seq<byte>): (r: Option<AuditEntry>)
    ensures r.Some? ==> Count(Decode(data), '|') >= 3
    ensures r.Some? ==> FormatTimestamp(r.value.timestamp) == Split(Decode(data), '|')[0]
    ensures r.Some? ==> '|' !in r.value.auditType && '|' !in r.value.deviceId && '|' !in r.value.data
  {
    var parts := Split(Decode(data), '|');
    SplitParts(Decode(data), '|');
    if |parts| < 4 then None
    else
      match ParseTimestamp(parts[0])
      case None => None
      case Some(t) =>
        FormatParseTimestamp(parts[0]);
        Some(AuditEntry(t, parts[1], parts[2], parts[3]))
  }

  /** A line with fewer than three separators is rejected. */
  lemma ParseNeedsFourFields(data: seq<byte>)
    requires Count(Decode(data), '|') < 3
    ensures ParseAuditEntry(data) == None
  {
    SplitParts(Decode(data), '|');
  }

  lemma DigitsHaveNoSeparator(s: string)
    requires Decimal.AllDigits(s)
    ensures '|' !in s
  {
  }

  lemma TimestampHasNoSeparator(t: DateTime)
    ensures '|' !in FormatTimestamp(t)
  {
    var d := DateOf(t);
    var y, mo, da := Decimal.Padded(d.year, 4), Decimal.Padded(d.month, 2), Decimal.Padded(d.day, 2);
    var h, mi, se, ms := Decimal.Padded(t.hour, 2), Decimal.Padded(t.minute, 2), Decimal.Padded(t.second, 2), Decimal.Padded(t.millisecond, 3);
    DigitsHaveNoSeparator(y);
    DigitsHaveNoSeparator(mo);
    DigitsHaveNoSeparator(da);
    DigitsHaveNoSeparator(h);
    DigitsHaveNoSeparator(mi);
    DigitsHaveNoSeparator(se);
    DigitsHaveNoSeparator(ms);
    assert FormatTimestamp(t) == y + "-" + mo + "-" + da + "T" + h + ":" + mi + ":" + se + "." + ms;
  }

  /** A line made of a timestamp and three '|'-separated fields parses to
      those fields, as long as the type and the device hold no '|'; the
      data is cut at its own first '|'. */
  lemma ParseAuditLine(t: DateTime, auditType: string, deviceId: string, data: string)
    requires '|' !in auditType && '|' !in deviceId
    ensures ParseAuditEntry(Encode(FormatTimestamp(t) + "|" + auditType + "|" + deviceId + "|" + data))
      == Some(AuditEntry(t, auditType, deviceId, Split(data, '|')[0]))
  {
    var ts := FormatTimestamp(t);
    var text := ts + "|" + auditType + "|" + deviceId + "|" + data;
    DecodeEncode(text);
    TimestampHasNoSeparator(t);
    SplitFields(ts, auditType, deviceId, data, '|');
    var parts := Split(Decode(Encode(text)), '|');
    assert parts == [ts, auditType, deviceId] + Split(data, '|');
    assert parts[0] == ts && parts[1] == auditType && parts[2] == deviceId && parts[3] == Split(data, '|')[0];
    ParseFormatTimestamp(t);
  }

  lemma SplitFields(a: string, b: string, c: string, rest: string, sep: char)
    requires sep !in a && sep !in b && sep !in c
    ensures Split(a + [sep] + b + [sep] + c + [sep] + rest, sep) == [a, b, c] + Split(rest, sep)
  {
    SplitAcross(a + [sep] + b + [sep] + c, rest, sep);
    SplitAcross(a + [sep] + b, c, sep);
    SplitAcross(a, b, sep);
    SplitWithout(a, sep);
    SplitWithout(b, sep);
    SplitWithout(c, sep);
  }

  /** Whatever line is accepted starts with the entry's four fields,
      separated by '|', the timestamp written in the accepted format. */
  lemma ParsedLineStartsWithFields(data: seq<byte>)
    requires ParseAuditEntry(data).Some?
    ensures var e := ParseAuditEntry(data).value;
      FormatTimestamp(e.timestamp) + "|" + e.auditType + "|" + e.deviceId + "|" + e.data <= Decode(data)
  {
    var text := Decode(data);
    var parts := Split(text, '|');
    SplitParts(text, '|');
    FormatParseTimestamp(parts[0]);
    JoinPrefix(parts, '|');
  }

  /** The first four pieces, joined, begin the joined text. */
  lemma JoinPrefix(parts: seq<string>, sep: char)
    requires |parts| >= 4
    ensures parts[0] + [sep] + parts[1] + [sep] + parts[2] + [sep] + parts[3] <= Join(parts, sep)
  {
    var j1, j2, j3 := Join(parts[1..], sep), Join(parts[2..], sep), Join(parts[3..], sep);
    assert parts[1..][1..] == parts[2..] && parts[2..][1..] == parts[3..];
    assert j1 == parts[1] + [sep] + j2;
    assert j2 == parts[2] + [sep] + j3;
    assert parts[3] <= j3 by {
      if |parts[3..]| > 1 {
        assert j3 == parts[3] + [sep] + Join(parts[4..], sep);
      }
    }
    var front := parts[0] + [sep] + parts[1] + [sep] + parts[2] + [sep];
    assert Join(parts, sep) == front + j3;
    PrefixExtend(front, parts[3], j3);
  }

  lemma PrefixExtend(front: string, x: string, y: string)
    requires x <= y
    ensures front + x <= front + y
  {
    assert (front + y)[..|front + x|] == front + x;
  }

  // ---------------------------------------------------------------------
  // Forwarding and batching

  /** The entries the subscription handler sends on, in message order: only
      those that parse. */
  function Forwarded(messages: seq<seq<byte>>): (entries: seq<AuditEntry>)
    ensures |entries| <= |messages|
  {
    if messages == [] then []
    else
      var rest := Forwarded(messages[..|messages| - 1]);
      match ParseAuditEntry(messages[|messages| - 1])
      case None => rest
      case Some(e) => rest + [e]
  }

  /** Every forwarded entry is what some message parses to, in order. */
  lemma {:induction false} ForwardedParsed(messages: seq<seq<byte>>)
    ensures forall e :: e in Forwarded(messages) ==> exists m :: m in messages && ParseAuditEntry(m) == Some(e)
    ensures (forall m :: m in messages ==> ParseAuditEntry(m).Some?) ==> |Forwarded(messages)| == |messages|
  {
    if messages != [] {
      var init := messages[..|messages| - 1];
      ForwardedParsed(init);
      forall e | e in Forwarded(messages) ensures exists m :: m in messages && ParseAuditEntry(m) == Some(e) {
        if e in Forwarded(init) {
          var m :| m in init && ParseAuditEntry(m) == Some(e);
          assert m in messages;
        } else {
          assert ParseAuditEntry(messages[|messages| - 1]) == Some(e);
        }
      }
      if forall m :: m in messages ==> ParseAuditEntry(m).Some? {
        assert forall m :: m in init ==> m in messages;
      }
    }
  }

  /** The batches are a split of `entries` into non-empty groups of at most
      `MaxBatchSize`, in order. */
  predicate IsBatching(batches: seq<seq<AuditEntry>>, entries: seq<AuditEntry>) {
    (forall k :: 0 <= k < |batches| ==> 1 <= |batches[k]| <= MaxBatchSize)
    && Flatten(batches) == entries
  }

  function Flatten(batches: seq<seq<AuditEntry>>): seq<AuditEntry> {
    if batches == [] then [] else batches[0] + Flatten(batches[1..])
  }

  /** The batching block's grouping when no timer fires: full batches of
      `size` entries, then what is left. */
  function Chunks(entries: seq<AuditEntry>, size: nat): seq<seq<AuditEntry>>
    requires size >= 1
    decreases |entries|
  {
    if entries == [] then []
    else if |entries| <= size then [entries]
    else [entries[..size]] + Chunks(entries[size..], size)
  }

  /** The grouping by `MaxBatchSize` is a batching of the entries, and every
      batch but the last is full. */
  lemma {:induction false} ChunksAreBatching(entries: seq<AuditEntry>)
    ensures IsBatching(Chunks(entries, MaxBatchSize), entries)
    ensures forall k :: 0 <= k < |Chunks(entries, MaxBatchSize)| - 1 ==> |Chunks(entries, MaxBatchSize)[k]| == MaxBatchSize
  {
    var cs := Chunks(entries, MaxBatchSize);
    if |entries| > MaxBatchSize {
      var rest := entries[MaxBatchSize..];
      ChunksAreBatching(rest);
      assert cs[1..] == Chunks(rest, MaxBatchSize);
      assert entries[..MaxBatchSize] + rest == entries;
      forall k | 0 <= k < |cs| ensures 1 <= |cs[k]| <= MaxBatchSize {
        if k > 0 { assert cs[k] == Chunks(rest, MaxBatchSize)[k - 1]; }
      }
      forall k | 0 <= k < |cs| - 1 ensures |cs[k]| == MaxBatchSize {
        if k > 0 { assert cs[k] == Chunks(rest, MaxBatchSize)[k - 1]; }
      }
    } else if entries != [] {
      assert cs == [entries];
      assert Flatten(cs) == entries + Flatten([]);
    }
  }

  // ---------------------------------------------------------------------
  // The file stage and the log stage, one batch after another

  /** What the file stage does with one batch: it reads the counter store,
      whose error ends the stage, and publishes the batch from the state read. */
  function FileStage(options: ActivityFileOptions, entries: seq<AuditEntry>, today: Date,
                     files: map<string, seq<byte>>, counterFile: Option<string>, deviceFault: bool): Published
  {
    if counterFile.Some? && deviceFault then Published(Failure(IOError), files, counterFile)
    else Publish(options, entries, DecodeCounterFile(counterFile, today), files, counterFile, deviceFault)
  }

  /** The log stage: a name is reported only when it is not empty. */
  function LogName(logged: seq<string>, name: string): seq<string> {
    if name != "" then logged + [name] else logged
  }

  /** The file stage of a run, with the options, the day and the store's device fixed. */
  function Stage(options: ActivityFileOptions, today: Date, deviceFault: bool): StageFunction {
    (entries, files, counterFile) => FileStage(options, entries, today, files, counterFile, deviceFault)
  }

  type StageFunction = (seq<AuditEntry>, map<string, seq<byte>>, Option<string>) -> Published

  /** How a run of the two stages over a sequence of batches ends: its
      outcome, the files and the counter file it leaves, and the names
      reported, after those of `logged`. */
  datatype Run = Run(outcome: Outcome, files: map<string, seq<byte>>, counterFile: Option<string>, logged: seq<string>)

  /** The batches go through `stage` in order and each name it gives goes to
      the log stage; the first failing file stage ends the run with its
      error, and no later batch is processed. */
  function RunBatches(stage: StageFunction, batches: seq<seq<AuditEntry>>,
                      files: map<string, seq<byte>>, counterFile: Option<string>, logged: seq<string>): Run
    decreases |batches|
  {
    if batches == [] then Run(Ok, files, counterFile, logged)
    else
      var p := stage(batches[0], files, counterFile);
      match p.result
      case Failure(e) => Run(Err(e), p.files, p.counterFile, logged)
      case Success(name) => RunBatches(stage, batches[1..], p.files, p.counterFile, LogName(logged, name))
  }

  /** The names already reported stay first: a run adds its own after them. */
  lemma {:induction false} RunAfterLogged(stage: StageFunction, batches: seq<seq<AuditEntry>>,
      files: map<string, seq<byte>>, counterFile: Option<string>, logged: seq<string>)
    ensures var a, b := RunBatches(stage, batches, files, counterFile, logged),
                        RunBatches(stage, batches, files, counterFile, []);
      a.outcome == b.outcome && a.files == b.files && a.counterFile == b.counterFile && a.logged == logged + b.logged
    decreases |batches|
  {
    if batches != [] {
      var p := stage(batches[0], files, counterFile);
      if p.result.Success? {
        var name := p.result.value;
        RunAfterLogged(stage, batches[1..], p.files, p.counterFile, LogName(logged, name));
        RunAfterLogged(stage, batches[1..], p.files, p.counterFile, LogName([], name));
        assert LogName(logged, name) == logged + LogName([], name);
      }
    }
  }

  /** A stage that never replaces or removes a published file. */
  ghost predicate KeepsFinalFiles(stage: StageFunction, options: ActivityFileOptions) {
    forall entries, files, counterFile, name ::
      EndsInBin(name) && FinalPath(options, name) in files ==>
        FinalPath(options, name) in stage(entries, files, counterFile).files
        && stage(entries, files, counterFile).files[FinalPath(options, name)] == files[FinalPath(options, name)]
  }

  /** A stage that, when it succeeds on a non-empty batch, publishes it under
      a ".BIN" name whose final path was free. */
  ghost predicate PublishesBatch(stage: StageFunction, options: ActivityFileOptions) {
    forall entries, files, counterFile ::
      entries != [] && stage(entries, files, counterFile).result.Success? ==>
        var p := stage(entries, files, counterFile);
        var final := FinalPath(options, p.result.value);
        EndsInBin(p.result.value) && final !in files && final in p.files && p.files[final] == FileBytes(entries)
  }

  /** A stage that, when it succeeds on a non-empty batch, advances the
      counter the store reads back by one. */
  ghost predicate AdvancesCounter(stage: StageFunction, today: Date) {
    forall entries, files, counterFile ::
      entries != [] && stage(entries, files, counterFile).result.Success? ==>
        DecodeCounterFile(stage(entries, files, counterFile).counterFile, today).counter
          == Increment(DecodeCounterFile(counterFile, today).counter)
  }

  lemma StageKeepsFinalFiles(options: ActivityFileOptions, today: Date, deviceFault: bool)
    ensures KeepsFinalFiles(Stage(options, today, deviceFault), options)
  {
    forall entries, files, counterFile, name | EndsInBin(name) && FinalPath(options, name) in files
      ensures FinalPath(options, name) in FileStage(options, entries, today, files, counterFile, deviceFault).files
      ensures FileStage(options, entries, today, files, counterFile, deviceFault).files[FinalPath(options, name)]
        == files[FinalPath(options, name)]
    {
      FileStageKeepsFinalFile(options, entries, today, files, counterFile, deviceFault, name);
    }
  }

  lemma StagePublishesBatch(options: ActivityFileOptions, today: Date, deviceFault: bool)
    ensures PublishesBatch(Stage(options, today, deviceFault), options)
  {
    forall entries, files, counterFile |
      entries != [] && FileStage(options, entries, today, files, counterFile, deviceFault).result.Success?
      ensures var p := FileStage(options, entries, today, files, counterFile, deviceFault);
        var final := FinalPath(options, p.result.value);
        EndsInBin(p.result.value) && final !in files && final in p.files && p.files[final] == FileBytes(entries)
    {
      FileStageSuccess(options, entries, today, files, counterFile, deviceFault);
    }
  }

  lemma StageAdvancesCounter(options: ActivityFileOptions, today: Date, deviceFault: bool)
    ensures AdvancesCounter(Stage(options, today, deviceFault), today)
  {
    forall entries, files, counterFile |
      entries != [] && FileStage(options, entries, today, files, counterFile, deviceFault).result.Success?
      ensures DecodeCounterFile(FileStage(options, entries, today, files, counterFile, deviceFault).counterFile, today).counter
        == Increment(DecodeCounterFile(counterFile, today).counter)
    {
      FileStageSuccess(options, entries, today, files, counterFile, deviceFault);
    }
  }

  /** A successful file stage on a non-empty batch: the facts about its
      publication, with the counter read from the store. */
  lemma FileStageSuccess(options: ActivityFileOptions, entries: seq<AuditEntry>, today: Date,
                         files: map<string, seq<byte>>, counterFile: Option<string>, deviceFault: bool)
    requires entries != []
    requires FileStage(options, entries, today, files, counterFile, deviceFault).result.Success?
    ensures var p := FileStage(options, entries, today, files, counterFile, deviceFault);
      var name := p.result.value;
      EndsInBin(name)
      && FinalPath(options, name) !in files
      && FinalPath(options, name) in p.files && p.files[FinalPath(options, name)] == FileBytes(entries)
      && DecodeCounterFile(p.counterFile, today).counter == Increment(DecodeCounterFile(counterFile, today).counter)
  {
    var cs := DecodeCounterFile(counterFile, today);
    PublishSuccess(options, entries, cs, files, counterFile, deviceFault);
    PublishAdvancesCounter(options, entries, cs, files, counterFile, deviceFault, today);
  }

  /** A file stage never replaces or removes a file whose name ends in ".BIN". */
  lemma FileStageKeepsFinalFile(options: ActivityFileOptions, entries: seq<AuditEntry>, today: Date,
                                files: map<string, seq<byte>>, counterFile: Option<string>, deviceFault: bool, name: string)
    requires EndsInBin(name) && FinalPath(options, name) in files
    ensures var p := FileStage(options, entries, today, files, counterFile, deviceFault);
      FinalPath(options, name) in p.files && p.files[FinalPath(options, name)] == files[FinalPath(options, name)]
  {
    if !(counterFile.Some? && deviceFault) {
      var cs := DecodeCounterFile(counterFile, today);
      PublishKeepsOtherFiles(options, entries, cs, files, counterFile, deviceFault);
      if entries != [] && BatchFileName(options.cebConcentrateur, entries, cs).Success? {
        TempPathIsNoFinalPath(options, BatchFileName(options.cebConcentrateur, entries, cs).value, name);
      }
    }
  }

  /** Once published, a file stays as it is whatever later batches do. */
  lemma {:induction false} RunKeepsFinalFile(stage: StageFunction, options: ActivityFileOptions, batches: seq<seq<AuditEntry>>,
      files: map<string, seq<byte>>, counterFile: Option<string>, logged: seq<string>, name: string)
    requires KeepsFinalFiles(stage, options)
    requires EndsInBin(name) && FinalPath(options, name) in files
    ensures var run := RunBatches(stage, batches, files, counterFile, logged);
      FinalPath(options, name) in run.files && run.files[FinalPath(options, name)] == files[FinalPath(options, name)]
    decreases |batches|
  {
    if batches != [] {
      var p := stage(batches[0], files, counterFile);
      if p.result.Success? {
        RunKeepsFinalFile(stage, options, batches[1..], p.files, p.counterFile, LogName(logged, p.result.value), name);
      }
    }
  }

  /** `names[k]` is the ".BIN" name of `batches[k]`, free in `before` and
      holding that batch's bytes in `after`. */
  ghost predicate PublishedAs(options: ActivityFileOptions, batches: seq<seq<AuditEntry>>, names: seq<string>,
                              before: map<string, seq<byte>>, after: map<string, seq<byte>>) {
    |names| == |batches|
    && forall k :: 0 <= k < |names| ==> PublishedOne(options, batches[k], names[k], before, after)
  }

  /** One batch published under a ".BIN" name whose final path was free before and holds its records after. */
  ghost predicate PublishedOne(options: ActivityFileOptions, batch: seq<AuditEntry>, name: string,
                               before: map<string, seq<byte>>, after: map<string, seq<byte>>) {
    EndsInBin(name)
    && FinalPath(options, name) !in before
    && FinalPath(options, name) in after
    && after[FinalPath(options, name)] == FileBytes(batch)
  }

  predicate Distinct(names: seq<string>) {
    forall j, k :: 0 <= j < k < |names| ==> names[j] != names[k]
  }

  lemma PublishedAsCons(options: ActivityFileOptions, batch: seq<AuditEntry>, name: string,
                        batches: seq<seq<AuditEntry>>, names: seq<string>,
                        before: map<string, seq<byte>>, middle: map<string, seq<byte>>, after: map<string, seq<byte>>)
    requires PublishedAs(options, batches, names, middle, after)
    requires forall k :: 0 <= k < |names| ==> FinalPath(options, names[k]) !in before
    requires EndsInBin(name) && FinalPath(options, name) !in before
    requires FinalPath(options, name) in after && after[FinalPath(options, name)] == FileBytes(batch)
    ensures PublishedAs(options, [batch] + batches, [name] + names, before, after)
  {
    PublishedAsEarlier(options, batches, names, before, middle, after);
    var all, bs := [name] + names, [batch] + batches;
    forall k | 0 < k < |all|
      ensures PublishedOne(options, bs[k], all[k], before, after)
    {
      assert all[k] == names[k - 1] && bs[k] == batches[k - 1];
    }
  }

  /** Names published after `middle` whose final paths were free in `before` count as published after `before`. */
  lemma PublishedAsEarlier(options: ActivityFileOptions, batches: seq<seq<AuditEntry>>, names: seq<string>,
                           before: map<string, seq<byte>>, middle: map<string, seq<byte>>, after: map<string, seq<byte>>)
    requires PublishedAs(options, batches, names, middle, after)
    requires forall k :: 0 <= k < |names| ==> FinalPath(options, names[k]) !in before
    ensures PublishedAs(options, batches, names, before, after)
  {
  }

  lemma DistinctCons(options: ActivityFileOptions, name: string, names: seq<string>, middle: map<string, seq<byte>>)
    requires Distinct(names)
    requires FinalPath(options, name) in middle
    requires forall k :: 0 <= k < |names| ==> FinalPath(options, names[k]) !in middle
    ensures Distinct([name] + names)
  {
    var all := [name] + names;
    forall j, k | 0 <= j < k < |all| ensures all[j] != all[k] {
      assert all[k] == names[k - 1];
      if j == 0 {
        assert FinalPath(options, all[k]) !in middle;
      } else {
        assert all[j] == names[j - 1];
      }
    }
  }

  /** The final paths the first batch's stage leaves free were free before it. */
  lemma FreeBeforeStage(stage: StageFunction, options: ActivityFileOptions, batch: seq<AuditEntry>,
                        files: map<string, seq<byte>>, counterFile: Option<string>, names: seq<string>)
    requires KeepsFinalFiles(stage, options)
    requires forall k :: 0 <= k < |names| ==> EndsInBin(names[k]) && FinalPath(options, names[k]) !in stage(batch, files, counterFile).files
    ensures forall k :: 0 <= k < |names| ==> FinalPath(options, names[k]) !in files
  {
  }

  /** What a publishing stage promises for one successful batch. */
  lemma StagePublished(stage: StageFunction, options: ActivityFileOptions, batch: seq<AuditEntry>,
                       files: map<string, seq<byte>>, counterFile: Option<string>)
    requires PublishesBatch(stage, options)
    requires batch != [] && stage(batch, files, counterFile).result.Success?
    ensures var p := stage(batch, files, counterFile);
      PublishedOne(options, batch, p.result.value, files, p.files)
  {
  }

  /** A run over non-empty batches that ends well publishes every batch, in
      order, each under a ".BIN" name that was free when the run began, and
      reports exactly those names. */
  lemma {:induction false} RunPublishesEveryBatch(stage: StageFunction, options: ActivityFileOptions,
      batches: seq<seq<AuditEntry>>, files: map<string, seq<byte>>, counterFile: Option<string>)
    requires KeepsFinalFiles(stage, options) && PublishesBatch(stage, options)
    requires forall k :: 0 <= k < |batches| ==> batches[k] != []
    requires RunBatches(stage, batches, files, counterFile, []).outcome == Ok
    ensures var run := RunBatches(stage, batches, files, counterFile, []);
      PublishedAs(options, batches, run.logged, files, run.files)
    decreases |batches|
  {
    if batches != [] {
      var p := stage(batches[0], files, counterFile);
      var name := p.result.value;
      StagePublished(stage, options, batches[0], files, counterFile);
      assert LogName([], name) == [name];
      var run := RunBatches(stage, batches[1..], p.files, p.counterFile, [name]);
      var rest := RunBatches(stage, batches[1..], p.files, p.counterFile, []);
      RunAfterLogged(stage, batches[1..], p.files, p.counterFile, [name]);
      RunPublishesEveryBatch(stage, options, batches[1..], p.files, p.counterFile);
      RunKeepsFinalFile(stage, options, batches[1..], p.files, p.counterFile, [name], name);
      FreeBeforeStage(stage, options, batches[0], files, counterFile, rest.logged);
      PublishedAsCons(options, batches[0], name, batches[1..], rest.logged, files, p.files, run.files);
      assert [batches[0]] + batches[1..] == batches;
    }
  }

  /** No two batches of a run that ends well are published under the same name. */
  lemma {:induction false} RunNamesDistinct(stage: StageFunction, options: ActivityFileOptions,
      batches: seq<seq<AuditEntry>>, files: map<string, seq<byte>>, counterFile: Option<string>)
    requires KeepsFinalFiles(stage, options) && PublishesBatch(stage, options)
    requires forall k :: 0 <= k < |batches| ==> batches[k] != []
    requires RunBatches(stage, batches, files, counterFile, []).outcome == Ok
    ensures Distinct(RunBatches(stage, batches, files, counterFile, []).logged)
    decreases |batches|
  {
    if batches != [] {
      var p := stage(batches[0], files, counterFile);
      var name := p.result.value;
      assert LogName([], name) == [name];
      var rest := RunBatches(stage, batches[1..], p.files, p.counterFile, []);
      RunAfterLogged(stage, batches[1..], p.files, p.counterFile, [name]);
      RunPublishesEveryBatch(stage, options, batches[1..], p.files, p.counterFile);
      RunNamesDistinct(stage, options, batches[1..], p.files, p.counterFile);
      DistinctCons(options, name, rest.logged, p.files);
    }
  }

  /** A run over non-empty batches that ends well advances the stored counter
      once per batch, as long as it does not pass the largest 32-bit value. */
  lemma {:induction false} RunAdvancesCounter(stage: StageFunction, today: Date,
      batches: seq<seq<AuditEntry>>, files: map<string, seq<byte>>, counterFile: Option<string>, logged: seq<string>)
    requires AdvancesCounter(stage, today)
    requires forall k :: 0 <= k < |batches| ==> batches[k] != []
    requires RunBatches(stage, batches, files, counterFile, logged).outcome == Ok
    requires DecodeCounterFile(counterFile, today).counter as int + |batches| <= INT32_MAX
    ensures DecodeCounterFile(RunBatches(stage, batches, files, counterFile, logged).counterFile, today).counter as int
      == DecodeCounterFile(counterFile, today).counter as int + |batches|
    decreases |batches|
  {
    if batches != [] {
      var p := stage(batches[0], files, counterFile);
      RunAdvancesCounter(stage, today, batches[1..], p.files, p.counterFile, LogName(logged, p.result.value));
    }
  }

  /** What a run of the generator's own file stage over a batching that ends
      well leaves behind: every batch published, in order, under distinct
      names that were free, and the counter advanced once per batch unless
      that passes the largest 32-bit value. */
  lemma GeneratorRunPublishes(options: ActivityFileOptions, today: Date, deviceFault: bool,
      batches: seq<seq<AuditEntry>>, entries: seq<AuditEntry>, files: map<string, seq<byte>>, counterFile: Option<string>)
    requires IsBatching(batches, entries)
    requires RunBatches(Stage(options, today, deviceFault), batches, files, counterFile, []).outcome == Ok
    ensures var run := RunBatches(Stage(options, today, deviceFault), batches, files, counterFile, []);
      PublishedAs(options, batches, run.logged, files, run.files) && Distinct(run.logged)
    ensures var run := RunBatches(Stage(options, today, deviceFault), batches, files, counterFile, []);
      DecodeCounterFile(counterFile, today).counter as int + |batches| <= INT32_MAX ==>
        DecodeCounterFile(run.counterFile, today).counter as int == DecodeCounterFile(counterFile, today).counter as int + |batches|
  {
    var stage := Stage(options, today, deviceFault);
    StageKeepsFinalFiles(options, today, deviceFault);
    StagePublishesBatch(options, today, deviceFault);
    StageAdvancesCounter(options, today, deviceFault);
    RunPublishesEveryBatch(stage, options, batches, files, counterFile);
    RunNamesDistinct(stage, options, batches, files, counterFile);
    if DecodeCounterFile(counterFile, today).counter as int + |batches| <= INT32_MAX {
      RunAdvancesCounter(stage, today, batches, files, counterFile, []);
    }
  }

  /** Handling the messages one after another forwards their parsed entries in order. */
  lemma ForwardedAppend(messages: seq<seq<byte>>, data: seq<byte>)
    ensures Forwarded(messages + [data]) == Forwarded(messages) + Forwarded([data])
  {
    assert (messages + [data])[..|messages|] == messages;
    assert [data][..0] == [];
  }

  // ---------------------------------------------------------------------
  // The generator service

  /** The background service: the subscription handler feeds the buffer,
      the batches go through the file stage and the log stage in turn. */
  class ReactiveActivityGenerator {
    const fileWriter: ActivityFileWriter
    const counterManager: CounterManager
    /** The entries sent into the pipeline and not yet taken by a batch. */
    var pipeline: seq<AuditEntry>
    /** The file names the log stage has reported. */
    var logged: seq<string>

    constructor(fileWriter: ActivityFileWriter, counterManager: CounterManager)
      requires fileWriter.counterManager == counterManager
      ensures this.fileWriter == fileWriter && this.counterManager == counterManager
      ensures pipeline == [] && logged == []
    {
      this.fileWriter := fileWriter;
      this.counterManager := counterManager;
      pipeline := [];
      logged := [];
    }

    /** The subscription handler: a message that parses is sent into the
        pipeline; any other is dropped. */
    method HandleMessage(data: seq<byte>)
      modifies this
      ensures pipeline == old(pipeline) + Forwarded([data]) && logged == old(logged)
    {
      var entry := ParseAuditEntry(data);
      if entry.Some? {
        pipeline := pipeline + [entry.value];
      }
    }

    /** The file stage: reads the counter store, then writes the batch's file
        from the state read; an error of either is passed on. */
    method GenerateFile(entries: seq<AuditEntry>, today: Date) returns (r: Result<string>)
      requires fileWriter.counterManager == counterManager && !counterManager.lockHeld
      modifies fileWriter.fileSystem, counterManager
      ensures !counterManager.lockHeld && counterManager.deviceFault == old(counterManager.deviceFault)
      ensures Published(r, fileWriter.fileSystem.files, counterManager.counterFile)
        == FileStage(fileWriter.options, entries, today, old(fileWriter.fileSystem.files),
                     old(counterManager.counterFile), counterManager.deviceFault)
    {
      var current := counterManager.GetCurrentCounter(today);
      if current.Failure? {
        return Failure(current.error);
      }
      r := fileWriter.GenerateActivityFileAtomic(entries, current.value);
    }

    /** The log stage: reports the name unless it is empty. */
    method LogFile(fileName: string)
      modifies this
      ensures logged == LogName(old(logged), fileName) && pipeline == old(pipeline)
    {
      if fileName != "" {
        logged := logged + [fileName];
      }
    }

    /** The batch block takes the buffered entries as `batches`; each goes
        through the file stage and then the log stage, and the first failing
        file stage faults the pipeline, ending the run with its error. */
    method ProcessBatches(batches: seq<seq<AuditEntry>>, today: Date) returns (outcome: Outcome)
      requires IsBatching(batches, pipeline)
      requires fileWriter.counterManager == counterManager && !counterManager.lockHeld
      modifies this, fileWriter.fileSystem, counterManager
      ensures pipeline == [] && !counterManager.lockHeld
      ensures counterManager.deviceFault == old(counterManager.deviceFault)
      ensures Run(outcome, fileWriter.fileSystem.files, counterManager.counterFile, logged)
        == RunBatches(Stage(fileWriter.options, today, counterManager.deviceFault), batches,
                      old(fileWriter.fileSystem.files), old(counterManager.counterFile), old(logged))
    {
      pipeline := [];
      var stage := Stage(fileWriter.options, today, counterManager.deviceFault);
      var i := 0;
      while i < |batches|
        invariant 0 <= i <= |batches|
        invariant !counterManager.lockHeld && counterManager.deviceFault == old(counterManager.deviceFault)
        invariant pipeline == []
        invariant RunBatches(stage, batches, old(fileWriter.fileSystem.files), old(counterManager.counterFile), old(logged))
          == RunBatches(stage, batches[i..], fileWriter.fileSystem.files, counterManager.counterFile, logged)
      {
        var name := GenerateFile(batches[i], today);
        if name.Failure? {
          return Err(name.error);
        }
        LogFile(name.value);
        i := i + 1;
      }
      return Ok;
    }
  }
}
