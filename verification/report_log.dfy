/** The report accumulator of `ResourceMonitor`: a text log, empty when the
    monitor is created, to which `print_log` appends one line at a time. */
module ReportLog {

  /** The part of a resource monitor's state this model keeps: its log. */
  datatype Monitor = Monitor(log: string)

  /** A freshly constructed monitor has an empty log. */
  const Fresh: Monitor := Monitor("")

  /** `print_log(text)`: appends the text followed by a newline. The contract
      is the append-only promise itself (the old log stays as a prefix, and
      exactly text and a newline follow); `SplitJoin` and `ReportReadsBack`
      show that the lines can be read back. */
  function PrintLog(m: Monitor, text: string): (m': Monitor)
    ensures |m'.log| == |m.log| + |text| + 1
    ensures m'.log[..|m.log|] == m.log
    ensures m'.log[|m.log|..] == text + "\n"
  {
    Monitor(m.log + text + "\n")
  }

  /** A sequence of `print_log` calls, in order. */
  function PrintAll(m: Monitor, texts: seq<string>): Monitor
    decreases |texts|
  {
    if texts == [] then m else PrintAll(PrintLog(m, texts[0]), texts[1..])
  }

  /** The lines of texts, each terminated by a newline, concatenated. */
  function Join(texts: seq<string>): string
    decreases |texts|
  {
    if texts == [] then "" else texts[0] + "\n" + Join(texts[1..])
  }

  /** Printing several lines leaves the old log untouched as a prefix and adds
      exactly their newline-terminated concatenation. */
  lemma {:induction false} PrintAllAppends(m: Monitor, texts: seq<string>)
    ensures PrintAll(m, texts).log == m.log + Join(texts)
    decreases |texts|
  {
    if texts != [] {
      var m1 := PrintLog(m, texts[0]);
      PrintAllAppends(m1, texts[1..]);
      assert m1.log + Join(texts[1..]) == m.log + Join(texts);
    }
  }

  /** Position of the first newline in s, or |s| when there is none. */
  function IndexOfNewline(s: string): (i: nat)
    ensures i <= |s|
    ensures i < |s| ==> s[i] == '\n'
    ensures forall j :: 0 <= j < i ==> s[j] != '\n'
    decreases |s|
  {
    if s == [] || s[0] == '\n' then 0 else 1 + IndexOfNewline(s[1..])
  }

  /** Reads a log back into its lines: each newline ends a line, and text
      after the last newline forms a final line of its own. */
  function SplitLines(s: string): seq<string>
    decreases |s|
  {
    if s == [] then []
    else
      var i := IndexOfNewline(s);
      if i == |s| then [s] else [s[..i]] + SplitLines(s[i + 1..])
  }

  /** A log line contains no newline of its own. */
  predicate IsLine(text: string)
  {
    forall j :: 0 <= j < |text| ==> text[j] != '\n'
  }

  /** Reading back a log built from newline-free lines recovers exactly those
      lines, in order. */
  lemma {:induction false} SplitJoin(texts: seq<string>)
    requires forall t :: t in texts ==> IsLine(t)
    ensures SplitLines(Join(texts)) == texts
    decreases |texts|
  {
    if texts != [] {
      var t := texts[0];
      var s := Join(texts);
      assert s == t + ("\n" + Join(texts[1..]));
      assert IsLine(t);
      assert s[|t|] == '\n';
      assert IndexOfNewline(s) == |t|;
      assert s[..|t|] == t;
      assert s[|t| + 1..] == Join(texts[1..]);
      SplitJoin(texts[1..]);
    }
  }

  /** The report a fresh monitor accumulates from a sequence of lines reads
      back as exactly those lines. */
  lemma ReportReadsBack(texts: seq<string>)
    requires forall t :: t in texts ==> IsLine(t)
    ensures SplitLines(PrintAll(Fresh, texts).log) == texts
  {
    PrintAllAppends(Fresh, texts);
    assert Fresh.log + Join(texts) == Join(texts);
    SplitJoin(texts);
  }
}
