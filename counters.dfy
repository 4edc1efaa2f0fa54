// The counter store: three lines of text (date, counter, last file name)
// read back with fall-backs, and rewritten whole under a single lock.
module Counters {
  import opened Common
  import opened Calendar
  import opened Decimal
  import opened Models

  predicate IsLineBreak(c: char) {
    c == '\n' || c == '\r'
  }

  predicate NoLineBreak(s: string) {
    forall i :: 0 <= i < |s| ==> !IsLineBreak(s[i])
  }

  /** The first line of `text` and what follows its terminator, which is
      "\n", "\r" or "\r\n". */
  function NextLine(text: string): (r: (string, string))
    requires text != []
    ensures |r.1| < |text|
  {
    if text[0] == '\n' then ("", text[1..])
    else if text[0] == '\r' then ("", if |text| > 1 && text[1] == '\n' then text[2..] else text[1..])
    else if |text| == 1 then (text, "")
    else
      var (line, rest) := NextLine(text[1..]);
      ([text[0]] + line, rest)
  }

  /** `File.ReadAllLines`: a terminator at the very end does not start an extra line. */
  function ReadLines(text: string): seq<string>
    decreases |text|
  {
    if text == [] then []
    else
      var (line, rest) := NextLine(text);
      [line] + ReadLines(rest)
  }

  /** `File.WriteAllLines`: every line followed by the platform's "\n". */
  function WriteLines(lines: seq<string>): string {
    if lines == [] then "" else lines[0] + "\n" + WriteLines(lines[1..])
  }

  lemma {:induction false} NextLineOf(line: string, rest: string)
    requires NoLineBreak(line)
    ensures NextLine(line + "\n" + rest) == (line, rest)
  {
    if line != [] {
      var text := line + "\n" + rest;
      assert text[1..] == line[1..] + "\n" + rest;
      assert NoLineBreak(line[1..]) by {
        forall i | 0 <= i < |line[1..]| ensures !IsLineBreak(line[1..][i]) {
          assert line[1..][i] == line[i + 1];
        }
      }
      NextLineOf(line[1..], rest);
      assert [line[0]] + line[1..] == line;
    }
  }

  /** What the first line of a text is, whatever breaks it holds: a prefix of the text. */
  lemma {:induction false} NextLinePrefix(text: string)
    requires text != []
    ensures NextLine(text).0 <= text
    ensures NoLineBreak(NextLine(text).0)
  {
    if text[0] != '\n' && text[0] != '\r' && |text| > 1 {
      NextLinePrefix(text[1..]);
    }
  }

  /** The state a missing or unreadable counter file stands for. */
  function Default(today: Date): CounterState {
    CounterState(today, 0, "")
  }

  /** The text `SaveCounterAsync` writes: date, counter and last file name, one per line. */
  function EncodeCounterFile(s: CounterState): string {
    WriteLines([FormatDate(s.date), IntString(s.counter), s.lastGeneratedFile])
  }

  /** The state `GetCurrentCounterAsync` reads from the file's text, or from
      its absence; only the first three lines matter and the third is optional. */
  function DecodeCounterFile(file: Option<string>, today: Date): CounterState {
    match file
    case None => Default(today)
    case Some(text) =>
      var lines := ReadLines(text);
      if |lines| >= 2 && ParseDate(lines[0]).Some? && TryParseInt32(lines[1]).Some? then
        CounterState(ParseDate(lines[0]).value, TryParseInt32(lines[1]).value, if |lines| > 2 then lines[2] else "")
      else Default(today)
  }

  lemma FormattedFieldsHaveNoBreaks(s: CounterState)
    ensures NoLineBreak(FormatDate(s.date))
    ensures NoLineBreak(IntString(s.counter))
  {
    var d := FormatDate(s.date);
    assert forall i :: 0 <= i < |d| ==> d[i] == '-' || IsDigit(d[i]) by {
      forall i | 0 <= i < |d| ensures d[i] == '-' || IsDigit(d[i]) {
        var y, m, dd := Padded(s.date.year, 4), Padded(s.date.month, 2), Padded(s.date.day, 2);
        assert d == y + "-" + m + "-" + dd;
        if i < 4 { assert d[i] == y[i]; }
        else if 5 <= i < 7 { assert d[i] == m[i - 5]; }
        else if 8 <= i { assert d[i] == dd[i - 8]; }
      }
    }
    var n := IntString(s.counter);
    assert forall i :: 0 <= i < |n| ==> n[i] == '-' || IsDigit(n[i]) by {
      if s.counter < 0 {
        var m: nat := 0 - s.counter;
        forall i | 0 <= i < |n| ensures n[i] == '-' || IsDigit(n[i]) {
          if i > 0 { assert n[i] == NatString(m)[i - 1]; }
        }
      }
    }
  }

  lemma ReadEncodedLines(s: CounterState)
    ensures ReadLines(EncodeCounterFile(s))
      == [FormatDate(s.date), IntString(s.counter)] + ReadLines(s.lastGeneratedFile + "\n")
  {
    var d, c, f := FormatDate(s.date), IntString(s.counter), s.lastGeneratedFile;
    FormattedFieldsHaveNoBreaks(s);
    var tail := f + "\n";
    assert WriteLines([f]) == tail;
    assert WriteLines([c, f]) == c + "\n" + tail;
    var text := EncodeCounterFile(s);
    assert text == d + "\n" + (c + "\n" + tail);
    NextLineOf(d, c + "\n" + tail);
    NextLineOf(c, tail);
  }

  lemma FirstLineIsPrefix(f: string)
    ensures ReadLines(f + "\n") != [] && ReadLines(f + "\n")[0] <= f
  {
    var tail := f + "\n";
    NextLinePrefix(tail);
    var first := NextLine(tail).0;
    assert IsLineBreak(tail[|f|]);
    assert first != tail;
    assert first == tail[..|first|] == f[..|first|];
  }

  /** The date and the counter always survive a save and a read; the last file
      name comes back cut at its first line break. */
  lemma DecodeEncodeCounterFile(s: CounterState, today: Date)
    ensures DecodeCounterFile(Some(EncodeCounterFile(s)), today).date == s.date
    ensures DecodeCounterFile(Some(EncodeCounterFile(s)), today).counter == s.counter
    ensures DecodeCounterFile(Some(EncodeCounterFile(s)), today).lastGeneratedFile <= s.lastGeneratedFile
  {
    ReadEncodedLines(s);
    FirstLineIsPrefix(s.lastGeneratedFile);
    ParseFormatDate(s.date);
    TryParseInt32String(s.counter);
  }

  /** A text whose first three lines are those a state is saved as reads back as that state. */
  lemma DecodeThreeLines(text: string, s: CounterState, today: Date)
    requires |ReadLines(text)| >= 3
    requires ReadLines(text)[..3] == [FormatDate(s.date), IntString(s.counter), s.lastGeneratedFile]
    ensures DecodeCounterFile(Some(text), today) == s
  {
    var lines := ReadLines(text);
    assert lines[0] == FormatDate(s.date) && lines[1] == IntString(s.counter) && lines[2] == s.lastGeneratedFile;
    ParseFormatDate(s.date);
    TryParseInt32String(s.counter);
  }

  /** Saving a state and reading it back gives that state, as long as the last
      file name holds no line break. */
  lemma CounterRoundTrip(s: CounterState, today: Date)
    requires NoLineBreak(s.lastGeneratedFile)
    ensures DecodeCounterFile(Some(EncodeCounterFile(s)), today) == s
  {
    FormattedFieldsHaveNoBreaks(s);
    var lines := [FormatDate(s.date), IntString(s.counter), s.lastGeneratedFile];
    ReadWriteLines(lines);
    DecodeThreeLines(EncodeCounterFile(s), s, today);
  }

  /** One step of reading: the first line, then the lines of what follows it. */
  lemma ReadLinesStep(text: string)
    requires text != []
    ensures ReadLines(text) == [NextLine(text).0] + ReadLines(NextLine(text).1)
  {
  }

  /** Lines written whole and followed by any text are read back first. */
  lemma {:induction false} ReadLinesAfter(lines: seq<string>, extra: string)
    requires forall i :: 0 <= i < |lines| ==> NoLineBreak(lines[i])
    ensures ReadLines(WriteLines(lines) + extra) == lines + ReadLines(extra)
    decreases |lines|
  {
    if lines == [] {
      assert WriteLines(lines) + extra == extra;
    } else {
      var tail := WriteLines(lines[1..]) + extra;
      var text := lines[0] + "\n" + tail;
      assert WriteLines(lines) + extra == text;
      NextLineOf(lines[0], tail);
      ReadLinesStep(text);
      ReadLinesAfter(lines[1..], extra);
      HeadThenRest(lines, ReadLines(extra));
    }
  }

  lemma HeadThenRest<T>(s: seq<T>, t: seq<T>)
    requires s != []
    ensures [s[0]] + (s[1..] + t) == s + t
  {
    assert s == [s[0]] + s[1..];
  }

  /** Lines without breaks are read back exactly as they were written. */
  lemma ReadWriteLines(lines: seq<string>)
    requires forall i :: 0 <= i < |lines| ==> NoLineBreak(lines[i])
    ensures ReadLines(WriteLines(lines)) == lines
  {
    ReadLinesAfter(lines, "");
    assert WriteLines(lines) + "" == WriteLines(lines);
  }

  /** With no counter file, the state is today's date, counter 0 and no last file. */
  lemma MissingFileDefaults(today: Date)
    ensures DecodeCounterFile(None, today) == CounterState(today, 0, "")
  {
  }

  /** A file of fewer than two lines, or whose date or counter line does not
      parse, counts as no file at all. */
  lemma CorruptFileResets(text: string, today: Date)
    requires var lines := ReadLines(text);
      |lines| < 2 || ParseDate(lines[0]).None? || TryParseInt32(lines[1]).None?
    ensures DecodeCounterFile(Some(text), today) == CounterState(today, 0, "")
  {
  }

  /** Whatever follows the three saved lines is ignored. */
  lemma OnlyThreeLinesRead(s: CounterState, extra: string, today: Date)
    requires NoLineBreak(s.lastGeneratedFile)
    ensures DecodeCounterFile(Some(EncodeCounterFile(s) + extra), today) == s
  {
    FormattedFieldsHaveNoBreaks(s);
    var lines := [FormatDate(s.date), IntString(s.counter), s.lastGeneratedFile];
    ReadLinesAfter(lines, extra);
    assert (lines + ReadLines(extra))[..3] == lines;
    DecodeThreeLines(EncodeCounterFile(s) + extra, s, today);
  }

  /** A file holding only the date and the counter has no last file name. */
  lemma MissingThirdLine(date: Date, counter: int32, today: Date)
    ensures DecodeCounterFile(Some(WriteLines([FormatDate(date), IntString(counter)])), today)
      == CounterState(date, counter, "")
  {
    FormattedFieldsHaveNoBreaks(CounterState(date, counter, ""));
    ReadWriteLines([FormatDate(date), IntString(counter)]);
    ParseFormatDate(date);
    TryParseInt32String(counter);
  }

  /** The counter store as the writer and the generator share it. */
  class CounterManager {
    /** The counter file's text, or `None` when there is no such file. */
    var counterFile: Option<string>
    /** Whether the device holding the counter file fails every read and write. */
    var deviceFault: bool
    /** The single-slot semaphore guarding both operations. */
    var lockHeld: bool

    constructor(counterFile: Option<string>, deviceFault: bool)
      ensures this.counterFile == counterFile && this.deviceFault == deviceFault && !lockHeld
    {
      this.counterFile := counterFile;
      this.deviceFault := deviceFault;
      lockHeld := false;
    }

    /** The stored state, the default for a missing or unparseable file, or the
        device's error; the file is left alone and the lock is released on every path. */
    method GetCurrentCounter(today: Date) returns (r: Result<CounterState>)
      requires !lockHeld
      modifies this
      ensures !lockHeld && counterFile == old(counterFile) && deviceFault == old(deviceFault)
      ensures r == if counterFile.Some? && deviceFault then Failure(IOError)
                   else Success(DecodeCounterFile(counterFile, today))
    {
      lockHeld := true;
      if counterFile.Some? {
        if deviceFault {
          lockHeld := false;
          return Failure(IOError);
        }
        var lines := ReadLines(counterFile.value);
        if |lines| >= 2 {
          var date := ParseDate(lines[0]);
          var counter := TryParseInt32(lines[1]);
          if date.Some? && counter.Some? {
            var lastFile := if |lines| > 2 then lines[2] else "";
            lockHeld := false;
            return Success(CounterState(date.value, counter.value, lastFile));
          }
        }
      }
      lockHeld := false;
      return Success(Default(today));
    }

    /** Replaces the counter file with the three lines of `state`, or reports
        the device's error and leaves the file as it was; the lock is released
        on every path. */
    method SaveCounter(state: CounterState) returns (r: Outcome)
      requires !lockHeld
      modifies this
      ensures !lockHeld && deviceFault == old(deviceFault)
      ensures deviceFault ==> r == Err(IOError) && counterFile == old(counterFile)
      ensures !deviceFault ==> r == Ok && counterFile == Some(EncodeCounterFile(state))
    {
      lockHeld := true;
      if deviceFault {
        lockHeld := false;
        return Err(IOError);
      }
      var text := WriteLines([FormatDate(state.date), IntString(state.counter), state.lastGeneratedFile]);
      counterFile := Some(text);
      lockHeld := false;
      return Ok;
    }
  }
}
