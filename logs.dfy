/**
 * The log viewer: how many lines the operator asked for, the tail of the log that is
 * shown, and the colour each shown line gets from the keywords it contains.
 */
module Logs {
  import opened Wrappers
  import opened Text

  /** How a log line is shown. */
  datatype Severity = Error | Warning | Connected | Plain

  /**
   * The class of a shown line, by the first keyword pair that occurs in it: an error
   * keyword wins over a warning keyword, which wins over a connection keyword.
   */
  function Classify(line: string): (r: Severity)
    ensures r == Error <==> Contains(line, "ERROR") || Contains(line, "error")
    ensures r == Warning <==>
      !(Contains(line, "ERROR") || Contains(line, "error"))
      && (Contains(line, "WARNING") || Contains(line, "warning"))
    ensures r == Connected <==>
      !(Contains(line, "ERROR") || Contains(line, "error"))
      && !(Contains(line, "WARNING") || Contains(line, "warning"))
      && (Contains(line, "Connected") || Contains(line, "connected"))
  {
    if Contains(line, "ERROR") || Contains(line, "error") then Error
    else if Contains(line, "WARNING") || Contains(line, "warning") then Warning
    else if Contains(line, "Connected") || Contains(line, "connected") then Connected
    else Plain
  }

  /** A keyword made of ASCII letters occurs in a stripped line exactly when it occurs in the line. */
  lemma KeywordSurvivesStrip(line: string, w: string)
    requires w != [] && forall k :: 0 <= k < |w| ==> 'A' <= w[k] <= 'Z' || 'a' <= w[k] <= 'z'
    ensures Contains(Strip(line), w) <==> Contains(line, w)
  {
    ContainsStrip(line, w);
  }

  /**
   * The viewer strips each line before classifying it; since no keyword holds whitespace,
   * the stripped line is classified exactly as the raw line would be.
   */
  lemma ClassifyIgnoresPadding(line: string)
    ensures Classify(Strip(line)) == Classify(line)
  {
    KeywordSurvivesStrip(line, "ERROR");
    KeywordSurvivesStrip(line, "error");
    KeywordSurvivesStrip(line, "WARNING");
    KeywordSurvivesStrip(line, "warning");
    KeywordSurvivesStrip(line, "Connected");
    KeywordSurvivesStrip(line, "connected");
  }

  /**
   * Keywords are matched as substrings, so a line reporting a disconnection, with no error
   * or warning keyword, is shown as a connection.
   */
  lemma DisconnectedCountsAsConnected(line: string)
    requires Contains(line, "disconnected")
    requires !(Contains(line, "ERROR") || Contains(line, "error"))
    requires !(Contains(line, "WARNING") || Contains(line, "warning"))
    ensures Classify(line) == Connected
  {
    var i := ContainsWitness(line, "disconnected");
    assert line[i..][..12] == "disconnected";
    assert line[i + 3..][..9] == line[i..][..12][3..];
    ContainsAt(line, "connected", i + 3);
  }

  // ---------------------------------------------------------------------------
  // Which lines are shown
  // ---------------------------------------------------------------------------

  /** The number of lines shown when the operator's answer is not a number. */
  const DefaultLineCount: int := 50

  /** The operator's answer read as `int()` reads it, or the default when it is not a number. */
  function LineCount(answer: string): (n: int)
    ensures ParseInt(answer).None? ==> n == DefaultLineCount
    ensures ParseInt(answer).Some? ==> n == ParseInt(answer).value
  {
    match ParseInt(answer)
    case Some(v) => v
    case None => DefaultLineCount
  }

  /** A run of digits asks for that many lines. */
  lemma LineCountOfDigits(d: string)
    requires IsDigits(d)
    ensures LineCount(d) == DecimalValue(d)
  {
    ParseIntDigits(d);
  }

  /**
   * Python's `all_lines[-n:]`: the last `n` lines when `n` is positive (all of them when
   * there are fewer), every line when `n` is 0, and all but the first `-n` when `n` is
   * negative.
   */
  function TailLines(all: seq<string>, n: int): (r: seq<string>)
    ensures |r| == if n == 0 then |all|
                  else if n > 0 then (if n < |all| then n else |all|)
                  else (if |all| + n > 0 then |all| + n else 0)
    ensures r == all[|all| - |r|..]
  {
    var start := if n > 0 then (if n < |all| then |all| - n else 0)
                 else (if -n < |all| then -n else |all|);
    all[start..]
  }

  /** Taking the last `m` of the last `n` lines is taking the last min(n, m) lines. */
  lemma TailOfTail(all: seq<string>, n: int, m: int)
    requires n > 0 && m > 0
    ensures TailLines(TailLines(all, n), m) == TailLines(all, if n < m then n else m)
  {
    var t := TailLines(all, n);
    var k := if n < m then n else m;
    var r := TailLines(t, m);
    var q := TailLines(all, k);
    assert |r| == |q|;
    assert t == all[|all| - |t|..];
    assert r == t[|t| - |r|..] == all[|all| - |r|..];
  }

  /** The lines shown: the tail of the log, or nothing when the log cannot be read. */
  function ReadLogFile(file: Option<seq<string>>, n: int): (r: seq<string>)
    ensures file.None? ==> r == []
    ensures file.Some? ==> |r| <= |file.value| && r == file.value[|file.value| - |r|..]
    ensures file.Some? ==> r == TailLines(file.value, n)
  {
    match file
    case None => []
    case Some(all) => TailLines(all, n)
  }

  /** Asking for 0 lines shows the whole log. */
  lemma ZeroShowsWholeLog(all: seq<string>)
    ensures ReadLogFile(Some(all), LineCount("0")) == all
  {
    LineCountOfDigits("0");
  }
}
