/**
 * Where the screens that list, kick or count users get their sessions: the management
 * interface first, and the status log only when the management exchange fails. A
 * successful reply is used as it is, even when it lists no client.
 */
module Registry {
  import opened Wrappers
  import opened Text
  import opened Sessions
  import Management
  import StatusLog

  /**
   * The connected sessions; `reply` is absent when the management exchange raised, and
   * `statusFile` when the status log cannot be read.
   */
  function ActiveSessions(reply: Option<string>, statusFile: Option<seq<string>>): (r: seq<Session>)
    ensures reply.Some? ==> r == Management.StatusReplySessions(reply.value)
    ensures reply.None? ==> r == StatusLog.StatusFileSessions(statusFile)
    ensures reply.Some? ==> |r| == Management.CountClientListLines(Split(reply.value, '\n'))
    ensures reply.None? ==> forall s :: s in r ==> s.virtualIp == NotAvailable
    ensures reply.None? && statusFile.None? ==> r == []
  {
    match reply
    case Some(text) => Management.StatusReplySessions(text)
    case None =>
      match statusFile
      case None => StatusLog.StatusFileSessions(statusFile)
      case Some(lines) =>
        StatusLog.StatusSessionsHaveNoVirtualAddress(lines, false);
        StatusLog.StatusFileSessions(statusFile)
  }

  /** Once the management exchange succeeds, the status log plays no part, even for an empty reply. */
  lemma ReplyDecides(reply: string, file1: Option<seq<string>>, file2: Option<seq<string>>)
    ensures ActiveSessions(Some(reply), file1) == ActiveSessions(Some(reply), file2)
    ensures Management.CountClientListLines(Split(reply, '\n')) == 0 ==> ActiveSessions(Some(reply), file1) == []
  {
  }

  /** The names offered for selection: one per session, in session order. */
  function ConnectedUsers(sessions: seq<Session>): (users: seq<string>)
    ensures |users| == |sessions|
    ensures forall i :: 0 <= i < |sessions| ==> users[i] == sessions[i].user
  {
    seq(|sessions|, i requires 0 <= i < |sessions| => sessions[i].user)
  }

  /**
   * A user listed from a management reply has no newline in its name, so the kill command
   * sent for it is one protocol line.
   */
  lemma KillOfReplyUserIsOneLine(reply: string, statusFile: Option<seq<string>>, user: string)
    requires user in ConnectedUsers(ActiveSessions(Some(reply), statusFile))
    ensures Split(Management.KillCommand(user), '\n') == ["kill " + user, ""]
  {
    var sessions := ActiveSessions(Some(reply), statusFile);
    var i :| 0 <= i < |sessions| && ConnectedUsers(sessions)[i] == user;
    assert sessions[i] in sessions;
    Management.ReplyUsersAreOneLine(reply);
    Management.KillCommandIsOneLine(user);
  }
}
