/**
 * The OpenVPN management-interface side of the manager: reading sessions out of the
 * reply to `status`, and the `kill <user>` command with its success check. The socket
 * exchange itself (connect, banner, send, one bounded read, close) is not modelled:
 * a reply is the text that was received, and a failed exchange is the absence of one.
 */
module Management {
  import opened Wrappers
  import opened Text
  import opened Sessions

  /** The tag of the reply lines that describe one connected client. */
  const ClientListTag: string := "CLIENT_LIST"

  /** A reply line that yields a session: it starts with CLIENT_LIST and has at least five comma fields. */
  predicate IsClientListLine(line: string) {
    StartsWith(line, ClientListTag) && |Split(line, ',')| >= 5
  }

  /**
   * The session a CLIENT_LIST line describes: fields 1 to 3 are copied, field 4 is the
   * received counter, field 5 (when present) the sent counter, field 7 (when present)
   * the connection time.
   */
  function ClientListRecord(line: string): Session
    requires IsClientListLine(line)
  {
    var f := Split(line, ',');
    Session(
      f[1], f[2], f[3],
      CounterField(f[4]),
      if |f| > 5 then CounterField(f[5]) else 0,
      if |f| > 7 then f[7] else NotAvailable)
  }

  /** What one reply line contributes: its session, or nothing. */
  function LineSessions(line: string): seq<Session> {
    if IsClientListLine(line) then [ClientListRecord(line)] else []
  }

  function CountClientListLines(lines: seq<string>): nat {
    if lines == [] then 0
    else CountClientListLines(lines[..|lines| - 1]) + (if IsClientListLine(lines[|lines| - 1]) then 1 else 0)
  }

  /**
   * The sessions of a list of reply lines: exactly one per CLIENT_LIST line, each built
   * from its own line.
   */
  function ClientListSessions(lines: seq<string>): (r: seq<Session>)
    ensures |r| == CountClientListLines(lines)
    ensures forall s :: s in r ==>
      exists k :: 0 <= k < |lines| && IsClientListLine(lines[k]) && s == ClientListRecord(lines[k])
  {
    if lines == [] then []
    else
      var init := lines[..|lines| - 1];
      var r := ClientListSessions(init) + LineSessions(lines[|lines| - 1]);
      assert forall s :: s in ClientListSessions(init) ==>
        exists k :: 0 <= k < |lines| && IsClientListLine(lines[k]) && s == ClientListRecord(lines[k])
      by {
        forall s | s in ClientListSessions(init)
          ensures exists k :: 0 <= k < |lines| && IsClientListLine(lines[k]) && s == ClientListRecord(lines[k])
        {
          var k :| 0 <= k < |init| && IsClientListLine(init[k]) && s == ClientListRecord(init[k]);
          assert lines[k] == init[k];
        }
      }
      r
  }

  /** The sessions in a `status` reply: its text is cut at newlines, then read line by line. */
  function StatusReplySessions(reply: string): seq<Session> {
    ClientListSessions(Split(reply, '\n'))
  }

  /**
   * The parser reads line by line, so the sessions of two runs of lines are those of
   * the first followed by those of the second: order is kept and no line affects another.
   */
  lemma {:induction false} ClientListSessionsAppend(a: seq<string>, b: seq<string>)
    ensures ClientListSessions(a + b) == ClientListSessions(a) + ClientListSessions(b)
    decreases |b|
  {
    if b == [] {
      assert a + b == a;
    } else {
      var b' := b[..|b| - 1];
      assert (a + b)[..|a + b| - 1] == a + b';
      assert (a + b)[|a + b| - 1] == b[|b| - 1];
      ClientListSessionsAppend(a, b');
    }
  }

  /** A single line yields its own session if it is a CLIENT_LIST line and nothing otherwise. */
  lemma ClientListSessionsSingle(line: string)
    ensures ClientListSessions([line]) == LineSessions(line)
  {
    assert [line][..0] == [];
  }

  /**
   * The imperative reading of a `status` reply: split at newlines and append one session
   * per CLIENT_LIST line with at least five fields.
   */
  method ParseStatusReply(reply: string) returns (sessions: seq<Session>)
    ensures sessions == StatusReplySessions(reply)
  {
    var lines := Split(reply, '\n');
    sessions := [];
    for i := 0 to |lines|
      invariant sessions == ClientListSessions(lines[..i])
    {
      var line := lines[i];
      if StartsWith(line, ClientListTag) {
        var parts := Split(line, ',');
        if |parts| >= 5 {
          sessions := sessions + [Session(
            parts[1], parts[2], parts[3],
            CounterField(parts[4]),
            if |parts| > 5 then CounterField(parts[5]) else 0,
            if |parts| > 7 then parts[7] else NotAvailable)];
        }
      }
      assert lines[..i + 1][..i] == lines[..i];
    }
    assert lines[..|lines|] == lines;
  }

  /** A character absent from a string is absent from every piece it splits into. */
  lemma {:induction false} SplitKeepsOut(s: string, sep: char, c: char)
    requires c !in s
    ensures forall k :: 0 <= k < |Split(s, sep)| ==> c !in Split(s, sep)[k]
  {
    if s != [] {
      SplitKeepsOut(s[1..], sep, c);
    }
  }

  /** No session read from a reply has a newline in its user name: each comes from one line. */
  lemma ReplyUsersAreOneLine(reply: string)
    ensures forall s :: s in StatusReplySessions(reply) ==> '\n' !in s.user
  {
    var lines := Split(reply, '\n');
    forall s | s in StatusReplySessions(reply) ensures '\n' !in s.user {
      var k :| 0 <= k < |lines| && IsClientListLine(lines[k]) && s == ClientListRecord(lines[k]);
      SplitKeepsOut(lines[k], ',', '\n');
    }
  }

  /** A character absent from every piece is absent from their join unless it is the separator. */
  lemma {:induction false} JoinKeepsOut(parts: seq<string>, sep: char, c: char)
    requires |parts| >= 1 && c != sep
    requires forall k :: 0 <= k < |parts| ==> c !in parts[k]
    ensures c !in Join(parts, sep)
  {
    if |parts| > 1 {
      JoinKeepsOut(parts[1..], sep, c);
    }
  }

  /** The CLIENT_LIST line a server writes for a session (field 6, unused, left empty). */
  function ClientListLine(s: Session): string {
    Join([ClientListTag, s.user, s.realIp, s.virtualIp,
          Decimal(s.bytesRecv), Decimal(s.bytesSent), "", s.connectedSince], ',')
  }

  /**
   * Round trip: a reply made of the CLIENT_LIST line of a session whose text fields hold
   * no comma and no newline reads back as exactly that session.
   */
  lemma ClientListRoundTrip(s: Session)
    requires ',' !in s.user && ',' !in s.realIp && ',' !in s.virtualIp && ',' !in s.connectedSince
    requires '\n' !in s.user && '\n' !in s.realIp && '\n' !in s.virtualIp && '\n' !in s.connectedSince
    ensures StatusReplySessions(ClientListLine(s)) == [s]
  {
    var recv, sent := Decimal(s.bytesRecv), Decimal(s.bytesSent);
    DigitsAreText(recv);
    DigitsAreText(sent);
    var parts := [ClientListTag, s.user, s.realIp, s.virtualIp, recv, sent, "", s.connectedSince];
    var line := Join(parts, ',');
    SplitJoin(parts, ',');
    JoinKeepsOut(parts, ',', '\n');
    SplitJoin([line], '\n');
    assert StartsWith(line, ClientListTag);
    DecimalRoundTrip(s.bytesRecv);
    DecimalRoundTrip(s.bytesSent);
    assert ClientListRecord(line) == s;
    ClientListSessionsSingle(line);
  }

  lemma DigitsAreText(d: string)
    requires IsDigits(d)
    ensures ',' !in d && '\n' !in d
  {
  }

  // ---------------------------------------------------------------------------
  // Disconnecting a client
  // ---------------------------------------------------------------------------

  /** The command line sent to disconnect a client. */
  function KillCommand(user: string): string {
    "kill " + user + "\n"
  }

  /**
   * For a user name without a newline the kill command is one protocol line: the server
   * reads `kill <user>` and nothing after it.
   */
  lemma KillCommandIsOneLine(user: string)
    requires '\n' !in user
    ensures Split(KillCommand(user), '\n') == ["kill " + user, ""]
  {
    var cmd := "kill " + user;
    SplitJoin([cmd, ""], '\n');
    assert Join([cmd, ""], '\n') == KillCommand(user);
  }

  /** Whether a kill succeeded, as the manager reports it. */
  datatype KickResult =
    | Kicked                       // the reply holds the SUCCESS marker
    | Refused(response: string)    // any other reply, shown to the operator
    | Unreachable                  // the exchange itself failed

  /** The verdict on a kill exchange; `response` is absent when the socket exchange failed. */
  function KickOutcome(response: Option<string>): (r: KickResult)
    ensures r == Unreachable <==> response.None?
    ensures r == Kicked <==> response.Some? && Contains(response.value, "SUCCESS")
    ensures r.Refused? ==> r.response == response.value
  {
    match response
    case None => Unreachable
    case Some(text) => if Contains(text, "SUCCESS") then Kicked else Refused(text)
  }
}
