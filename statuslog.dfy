/**
 * The fallback session source: the server's status log. Lines are stripped; sessions
 * come from the comma lines after a `Common Name,` header, and the first `ROUTING`
 * line ends the scan wherever it stands. A file that cannot be read yields no sessions.
 */
module StatusLog {
  import opened Wrappers
  import opened Text
  import opened Sessions

  const HeaderPrefix: string := "Common Name,"
  const RoutingPrefix: string := "ROUTING"

  /** The header that opens the client section. */
  predicate IsHeader(line: string) {
    StartsWith(Strip(line), HeaderPrefix)
  }

  /** A line that ends the scan. */
  predicate IsRouting(line: string) {
    StartsWith(Strip(line), RoutingPrefix)
  }

  /** A non-empty stripped line with at least four comma fields. */
  predicate IsSessionLine(line: string) {
    Strip(line) != [] && |Split(Strip(line), ',')| >= 4
  }

  /**
   * The session a status line describes: fields 0 to 3 are the user, the real address and
   * the two counters; field 4, when present, is the connection time; the status log
   * reports no virtual address.
   */
  function StatusRecord(line: string): Session
    requires IsSessionLine(line)
  {
    var f := Split(Strip(line), ',');
    Session(f[0], f[1], NotAvailable, CounterField(f[2]), CounterField(f[3]),
      if |f| > 4 then f[4] else NotAvailable)
  }

  lemma HeaderIsNotRouting(line: string)
    ensures !(IsHeader(line) && IsRouting(line))
  {
    var t := Strip(line);
    if |t| >= |HeaderPrefix| {
      assert t[..|HeaderPrefix|][0] == t[0];
      assert t[..|RoutingPrefix|][0] == t[0];
    }
  }

  /**
   * The scan as the manager runs it, with `inSection` the flag that the header sets: a
   * header turns the flag on and yields nothing, a ROUTING line stops everything, any
   * other line yields its session when the flag is on.
   */
  function Scan(lines: seq<string>, inSection: bool): seq<Session> {
    if lines == [] then []
    else if IsHeader(lines[0]) then Scan(lines[1..], true)
    else if IsRouting(lines[0]) then []
    else
      (if inSection && IsSessionLine(lines[0]) then [StatusRecord(lines[0])] else [])
      + Scan(lines[1..], inSection)
  }

  /** The sessions of a status log; `file` is absent when the log cannot be read. */
  function StatusFileSessions(file: Option<seq<string>>): seq<Session> {
    match file
    case None => []
    case Some(lines) => Scan(lines, false)
  }

  lemma AppendAssociates(a: seq<Session>, b: seq<Session>, c: seq<Session>)
    ensures (a + b) + c == a + (b + c)
  {
  }

  /** One step of the scan, stated in terms of the stripped first line. */
  lemma ScanStep(rest: seq<string>, inSection: bool)
    requires rest != []
    ensures StartsWith(Strip(rest[0]), HeaderPrefix) ==> Scan(rest, inSection) == Scan(rest[1..], true)
    ensures !StartsWith(Strip(rest[0]), HeaderPrefix) && StartsWith(Strip(rest[0]), RoutingPrefix) ==>
      Scan(rest, inSection) == []
    ensures !StartsWith(Strip(rest[0]), HeaderPrefix) && !StartsWith(Strip(rest[0]), RoutingPrefix) ==>
      Scan(rest, inSection) ==
        (if inSection && IsSessionLine(rest[0]) then [StatusRecord(rest[0])] else []) + Scan(rest[1..], inSection)
  {
  }

  /**
   * The loop of the manager's status-file parser: a section flag, a `continue` on the
   * header, an append per session line and a `break` on ROUTING.
   */
  method ParseStatusFile(file: Option<seq<string>>) returns (sessions: seq<Session>)
    ensures sessions == StatusFileSessions(file)
  {
    sessions := [];
    if file.None? {
      return;
    }
    var lines := file.value;
    var inSection := false;
    var i := 0;
    while i < |lines|
      invariant 0 <= i <= |lines|
      invariant sessions + Scan(lines[i..], inSection) == Scan(lines, false)
    {
      ghost var before := sessions;
      ghost var flag := inSection;
      var line := Strip(lines[i]);
      ScanStep(lines[i..], inSection);
      assert lines[i..][0] == lines[i] && lines[i..][1..] == lines[i + 1..];
      if StartsWith(line, HeaderPrefix) {
        inSection := true;
        assert sessions + Scan(lines[i + 1..], inSection) == Scan(lines, false);
        i := i + 1;
        continue;
      }
      if inSection && line != [] && !StartsWith(line, RoutingPrefix) {
        var parts := Split(line, ',');
        if |parts| >= 4 {
          var record := Session(parts[0], parts[1], NotAvailable,
            CounterField(parts[2]), CounterField(parts[3]),
            if |parts| > 4 then parts[4] else NotAvailable);
          assert record == StatusRecord(lines[i]);
          sessions := sessions + [record];
        }
      }
      if StartsWith(line, RoutingPrefix) {
        break;
      }
      ghost var yielded := if flag && IsSessionLine(lines[i]) then [StatusRecord(lines[i])] else [];
      assert sessions == before + yielded;
      calc {
        sessions + Scan(lines[i + 1..], inSection);
        (before + yielded) + Scan(lines[i + 1..], flag);
        { AppendAssociates(before, yielded, Scan(lines[i + 1..], flag)); }
        before + (yielded + Scan(lines[i + 1..], flag));
        before + Scan(lines[i..], flag);
      }
      i := i + 1;
    }
  }

  // ---------------------------------------------------------------------------
  // An independent description of the same result: the section window
  // ---------------------------------------------------------------------------

  /** Index of the first ROUTING line, or the length when there is none. */
  function FirstRouting(lines: seq<string>): (k: nat)
    ensures k <= |lines|
    ensures forall i :: 0 <= i < k ==> !IsRouting(lines[i])
    ensures k < |lines| ==> IsRouting(lines[k])
  {
    if lines == [] || IsRouting(lines[0]) then 0 else 1 + FirstRouting(lines[1..])
  }

  /** Index of the first header line, or the length when there is none. */
  function FirstHeader(lines: seq<string>): (k: nat)
    ensures k <= |lines|
    ensures forall i :: 0 <= i < k ==> !IsHeader(lines[i])
    ensures k < |lines| ==> IsHeader(lines[k])
  {
    if lines == [] || IsHeader(lines[0]) then 0 else 1 + FirstHeader(lines[1..])
  }

  /**
   * The client section: the lines strictly after the first header and before the first
   * ROUTING line; empty when a ROUTING line comes first or no header comes at all.
   */
  function Section(lines: seq<string>): seq<string> {
    var p := lines[..FirstRouting(lines)];
    var h := FirstHeader(p);
    if h < |p| then p[h + 1..] else []
  }

  /** The sessions of the section's lines: one per session line that is not a repeated header. */
  function SectionRecords(lines: seq<string>): seq<Session> {
    if lines == [] then []
    else
      (if !IsHeader(lines[0]) && IsSessionLine(lines[0]) then [StatusRecord(lines[0])] else [])
      + SectionRecords(lines[1..])
  }

  /** Inside the section (no ROUTING line) the scan yields the section records. */
  lemma {:induction false} ScanInSection(lines: seq<string>)
    requires forall i :: 0 <= i < |lines| ==> !IsRouting(lines[i])
    ensures Scan(lines, true) == SectionRecords(lines)
  {
    if lines != [] {
      ScanInSection(lines[1..]);
    }
  }

  /** Before the header (no header, no ROUTING line) the scan yields nothing. */
  lemma {:induction false} ScanBeforeHeader(lines: seq<string>)
    requires forall i :: 0 <= i < |lines| ==> !IsRouting(lines[i]) && !IsHeader(lines[i])
    ensures Scan(lines, false) == []
  {
    if lines != [] {
      ScanBeforeHeader(lines[1..]);
    }
  }

  /** The scan skips everything up to and including the first header. */
  lemma {:induction false} ScanSkipsPreamble(lines: seq<string>, h: nat)
    requires h < |lines| && IsHeader(lines[h])
    requires forall i :: 0 <= i < h ==> !IsRouting(lines[i]) && !IsHeader(lines[i])
    ensures Scan(lines, false) == Scan(lines[h + 1..], true)
    decreases h
  {
    if h > 0 {
      assert lines[1..][h..] == lines[h + 1..];
      ScanSkipsPreamble(lines[1..], h - 1);
    }
  }

  /** Nothing at or after the first ROUTING line is read. */
  lemma {:induction false} ScanStopsAtRouting(lines: seq<string>, inSection: bool)
    ensures Scan(lines, inSection) == Scan(lines[..FirstRouting(lines)], inSection)
  {
    var k := FirstRouting(lines);
    if lines != [] {
      HeaderIsNotRouting(lines[0]);
    }
    if lines != [] && !IsRouting(lines[0]) {
      var p := lines[..k];
      assert p[0] == lines[0];
      assert p[1..] == lines[1..][..FirstRouting(lines[1..])];
      ScanStopsAtRouting(lines[1..], true);
      ScanStopsAtRouting(lines[1..], inSection);
    }
  }

  /**
   * The status parser returns exactly the sessions of the client section: lines before
   * the header and from the first ROUTING line on (even one ahead of the header) are
   * never read as sessions, and header lines never are.
   */
  lemma StatusSessionsAreSection(lines: seq<string>)
    ensures StatusFileSessions(Some(lines)) == SectionRecords(Section(lines))
  {
    var p := lines[..FirstRouting(lines)];
    ScanStopsAtRouting(lines, false);
    var h := FirstHeader(p);
    if h < |p| {
      ScanSkipsPreamble(p, h);
      ScanInSection(p[h + 1..]);
    } else {
      ScanBeforeHeader(p);
    }
  }

  /** A ROUTING line ahead of every header leaves the parser with no sessions at all. */
  lemma RoutingFirstMeansNoSessions(lines: seq<string>, k: nat)
    requires k < |lines| && IsRouting(lines[k])
    requires forall i :: 0 <= i < k ==> !IsHeader(lines[i])
    ensures StatusFileSessions(Some(lines)) == []
  {
    StatusSessionsAreSection(lines);
    var p := lines[..FirstRouting(lines)];
    assert FirstHeader(p) == |p|;
  }

  /** Every session the parser returns has "N/A" as its virtual address. */
  lemma {:induction false} StatusSessionsHaveNoVirtualAddress(lines: seq<string>, inSection: bool)
    ensures forall s :: s in Scan(lines, inSection) ==> s.virtualIp == NotAvailable
  {
    if lines != [] {
      StatusSessionsHaveNoVirtualAddress(lines[1..], true);
      StatusSessionsHaveNoVirtualAddress(lines[1..], inSection);
    }
  }
}
