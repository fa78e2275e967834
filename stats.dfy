/**
 * The statistics screen: totals over the connected sessions, and the five sessions with
 * the most traffic, ordered the way Python's stable `sorted(..., reverse=True)` orders them.
 */
module Stats {
  import opened Sessions

  /** A session's traffic: bytes received plus bytes sent. */
  function Traffic(s: Session): nat {
    s.bytesRecv + s.bytesSent
  }

  function TotalRecv(sessions: seq<Session>): nat {
    if sessions == [] then 0 else sessions[0].bytesRecv + TotalRecv(sessions[1..])
  }

  function TotalSent(sessions: seq<Session>): nat {
    if sessions == [] then 0 else sessions[0].bytesSent + TotalSent(sessions[1..])
  }

  /** The sum of the sessions' traffic, session by session. */
  function TotalTraffic(sessions: seq<Session>): nat {
    if sessions == [] then 0 else Traffic(sessions[0]) + TotalTraffic(sessions[1..])
  }

  /** Summing the two directions separately gives the same total as summing each session's traffic. */
  lemma {:induction false} TotalsAddUp(sessions: seq<Session>)
    ensures TotalRecv(sessions) + TotalSent(sessions) == TotalTraffic(sessions)
  {
    if sessions != [] {
      TotalsAddUp(sessions[1..]);
    }
  }

  /** The totals of two runs of sessions add up. */
  lemma {:induction false} TotalsAppend(a: seq<Session>, b: seq<Session>)
    ensures TotalRecv(a + b) == TotalRecv(a) + TotalRecv(b)
    ensures TotalSent(a + b) == TotalSent(a) + TotalSent(b)
    ensures TotalTraffic(a + b) == TotalTraffic(a) + TotalTraffic(b)
  {
    if a == [] {
      assert a + b == b;
    } else {
      assert (a + b)[0] == a[0];
      assert (a + b)[1..] == a[1..] + b;
      TotalsAppend(a[1..], b);
    }
  }

  /** The figures shown on the statistics screen. */
  datatype Summary = Summary(
    connected: nat,      // connected users: one per session
    validCerts: nat,     // certificates in force
    revokedCerts: nat,   // revoked certificates
    received: nat,       // bytes received, all sessions
    sent: nat,           // bytes sent, all sessions
    traffic: nat)        // received plus sent

  /**
   * The statistics of a list of sessions and the two certificate listings: the total
   * traffic is the sum of every session's own traffic.
   */
  function Statistics(sessions: seq<Session>, valid: seq<string>, revoked: seq<string>): (r: Summary)
    ensures r.connected == |sessions| && r.validCerts == |valid| && r.revokedCerts == |revoked|
    ensures r.received == TotalRecv(sessions) && r.sent == TotalSent(sessions)
    ensures r.traffic == r.received + r.sent
    ensures r.traffic == TotalTraffic(sessions)
    ensures r.received <= r.traffic && r.sent <= r.traffic
  {
    TotalsAddUp(sessions);
    var recv := TotalRecv(sessions);
    var sent := TotalSent(sessions);
    Summary(|sessions|, |valid|, |revoked|, recv, sent, recv + sent)
  }

  // ---------------------------------------------------------------------------
  // Ordering by traffic
  // ---------------------------------------------------------------------------

  /** Traffic never increases along the sequence. */
  predicate Descending(s: seq<Session>) {
    forall i, j :: 0 <= i < j < |s| ==> Traffic(s[i]) >= Traffic(s[j])
  }

  /** Every element of `s` has at most `v` traffic. */
  predicate AllAtMost(v: nat, s: seq<Session>) {
    forall j :: 0 <= j < |s| ==> Traffic(s[j]) <= v
  }

  /** A bound on `u` and on `x` bounds any rearrangement of `u` with `x` added. */
  lemma UpperBoundOfInsert(v: nat, x: Session, u: seq<Session>, t: seq<Session>)
    requires AllAtMost(v, u) && Traffic(x) <= v
    requires multiset(t) == multiset(u) + multiset{x}
    ensures AllAtMost(v, t)
  {
    forall j | 0 <= j < |t| ensures Traffic(t[j]) <= v {
      assert t[j] in multiset(t);
      if t[j] != x {
        assert t[j] in multiset(u);
        var k :| 0 <= k < |u| && u[k] == t[j];
      }
    }
  }

  /** A session with at least the traffic of every element of a descending sequence can lead it. */
  lemma DescendingCons(x: Session, t: seq<Session>)
    requires Descending(t) && AllAtMost(Traffic(x), t)
    ensures Descending([x] + t)
  {
    forall i, j | 0 <= i < j < |[x] + t| ensures Traffic(([x] + t)[i]) >= Traffic(([x] + t)[j]) {
      if i > 0 {
        assert ([x] + t)[i] == t[i - 1];
      }
      assert ([x] + t)[j] == t[j - 1];
    }
  }

  /** `x` placed into descending `s` before the first element with no more traffic than it. */
  function InsertByTraffic(x: Session, s: seq<Session>): (r: seq<Session>)
    requires Descending(s)
    ensures Descending(r)
    ensures multiset(r) == multiset(s) + multiset{x}
  {
    if s == [] || Traffic(x) >= Traffic(s[0]) then
      assert AllAtMost(Traffic(x), s);
      DescendingCons(x, s);
      [x] + s
    else
      var rest := InsertByTraffic(x, s[1..]);
      assert AllAtMost(Traffic(s[0]), s[1..]);
      UpperBoundOfInsert(Traffic(s[0]), x, s[1..], rest);
      DescendingCons(s[0], rest);
      assert s == [s[0]] + s[1..];
      [s[0]] + rest
  }

  /** Python's `sorted(sessions, key=traffic, reverse=True)`: descending, a rearrangement of the input. */
  function SortByTraffic(sessions: seq<Session>): (r: seq<Session>)
    ensures Descending(r)
    ensures multiset(r) == multiset(sessions)
  {
    if sessions == [] then []
    else
      assert sessions == [sessions[0]] + sessions[1..];
      InsertByTraffic(sessions[0], SortByTraffic(sessions[1..]))
  }

  /** The sessions with traffic `t`, in order. */
  function WithTraffic(s: seq<Session>, t: nat): seq<Session> {
    if s == [] then []
    else (if Traffic(s[0]) == t then [s[0]] else []) + WithTraffic(s[1..], t)
  }

  /** Inserting puts the new session ahead of those with the same traffic. */
  lemma {:induction false} InsertGoesBeforeTies(x: Session, s: seq<Session>, t: nat)
    requires Descending(s)
    ensures WithTraffic(InsertByTraffic(x, s), t) ==
      (if Traffic(x) == t then [x] else []) + WithTraffic(s, t)
  {
    if s == [] || Traffic(x) >= Traffic(s[0]) {
      assert InsertByTraffic(x, s) == [x] + s;
      assert ([x] + s)[1..] == s;
    } else {
      assert Descending(s[1..]);
      InsertGoesBeforeTies(x, s[1..], t);
      var rest := InsertByTraffic(x, s[1..]);
      var hx := if Traffic(x) == t then [x] else [];
      var h0 := if Traffic(s[0]) == t then [s[0]] else [];
      assert ([s[0]] + rest)[1..] == rest;
      calc {
        WithTraffic(InsertByTraffic(x, s), t);
        WithTraffic([s[0]] + rest, t);
        h0 + WithTraffic(rest, t);
        h0 + (hx + WithTraffic(s[1..], t));
        { assert h0 == [] || hx == []; }
        hx + (h0 + WithTraffic(s[1..], t));
        hx + WithTraffic(s, t);
      }
    }
  }

  /**
   * The sort is stable: the sessions with the same traffic come out in the order they
   * came in.
   */
  lemma {:induction false} SortIsStable(sessions: seq<Session>, t: nat)
    ensures WithTraffic(SortByTraffic(sessions), t) == WithTraffic(sessions, t)
  {
    if sessions != [] {
      SortIsStable(sessions[1..], t);
      InsertGoesBeforeTies(sessions[0], SortByTraffic(sessions[1..]), t);
    }
  }

  /** How many entries the top list shows at most. */
  const TopCount: nat := 5

  /** In a descending sequence, everything before position `k` has at least the traffic of everything after it. */
  lemma PrefixDominates(sorted: seq<Session>, k: nat)
    requires Descending(sorted) && k <= |sorted|
    ensures forall x, y :: x in sorted[..k] && y in multiset(sorted[k..]) ==> Traffic(y) <= Traffic(x)
  {
    forall x, y | x in sorted[..k] && y in multiset(sorted[k..]) ensures Traffic(y) <= Traffic(x) {
      var i :| 0 <= i < k && sorted[..k][i] == x;
      assert y in sorted[k..];
      var j :| 0 <= j < |sorted| - k && sorted[k..][j] == y;
      assert sorted[i] == x && sorted[k + j] == y;
    }
  }

  /** Cutting a sequence in two cuts its multiset in two. */
  lemma SplitMultiset(s: seq<Session>, k: nat)
    requires k <= |s|
    ensures multiset(s[..k]) <= multiset(s)
    ensures multiset(s) - multiset(s[..k]) == multiset(s[k..])
  {
    assert s == s[..k] + s[k..];
  }

  /** The first `k` of a descending rearrangement of `s` are drawn from `s` and dominate the rest of `s`. */
  lemma TopOfSorted(s: seq<Session>, sorted: seq<Session>, k: nat)
    requires Descending(sorted) && multiset(sorted) == multiset(s) && k <= |sorted|
    ensures Descending(sorted[..k])
    ensures multiset(sorted[..k]) <= multiset(s)
    ensures forall x, y :: x in sorted[..k] && y in multiset(s) - multiset(sorted[..k]) ==> Traffic(y) <= Traffic(x)
  {
    SplitMultiset(sorted, k);
    PrefixDominates(sorted, k);
  }

  /**
   * The top list: the first five sessions of the ordering (all of them when there are
   * fewer), in descending traffic, taken from the sessions, and with at least as much
   * traffic as every session left out.
   */
  function TopByTraffic(sessions: seq<Session>): (r: seq<Session>)
    ensures |r| == if |sessions| < TopCount then |sessions| else TopCount
    ensures Descending(r)
    ensures multiset(r) <= multiset(sessions)
    ensures forall x, y :: x in r && y in multiset(sessions) - multiset(r) ==> Traffic(y) <= Traffic(x)
    ensures r == SortByTraffic(sessions)[..|r|]
  {
    var sorted := SortByTraffic(sessions);
    var k := if |sorted| < TopCount then |sorted| else TopCount;
    TopOfSorted(sessions, sorted, k);
    sorted[..k]
  }
}
