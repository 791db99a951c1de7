/**
 Properties of whole runs of the monitoring state: the invariant every
 recorder keeps, counters that never go back, the global totals as the
 count of recorded events, and the open/close and count/query round trips.
 */
module Properties {
  import opened Results
  import opened Sessions
  import opened Stats
  import opened Registry
  import opened Recorders
  import opened Snapshot

  /** One call from the NETCONF layer into the monitoring code. */
  datatype Event =
    | Rpc(session: Session)
    | BadRpc(session: Session)
    | RpcReplyError(session: Session)
    | Notification(session: Session)
    | Open(session: Session)
    | Close(session: Session)
    | Hello(session: Session)

  /** What the caller must guarantee: a monitored session is registered before it is counted or closed. */
  predicate Pre(s: Ncm, e: Event)
  {
    && Valid(s)
    && (e.Open? || e.Hello? || (Monitored(s, e.session) ==> Registered(s, e.session)))
  }

  function Apply(s: Ncm, e: Event): Ncm
    requires Pre(s, e)
  {
    match e
    case Rpc(x) => SessionRpc(s, x)
    case BadRpc(x) => SessionBadRpc(s, x)
    case RpcReplyError(x) => SessionRpcReplyError(s, x)
    case Notification(x) => SessionNotification(s, x)
    case Open(x) => SessionAdd(s, x)
    case Close(x) => SessionDel(s, x)
    case Hello(x) => BadHello(s, x)
  }

  /** The counter a counting event increments, if any. */
  function FieldOf(e: Event): Option<Field>
  {
    match e
    case Rpc(_) => Some(InRpcs)
    case BadRpc(_) => Some(InBadRpcs)
    case RpcReplyError(_) => Some(OutRpcErrors)
    case Notification(_) => Some(OutNotifications)
    case _ => None
  }

  /**
   The registry invariant: the arrays are aligned, only monitored sessions
   are registered, the live sessions' counters are covered by the global
   totals, and no more sessions are live than were ever started.
   */
  predicate Inv(s: Ncm)
  {
    && Valid(s)
    && (forall i :: 0 <= i < |s.sessions| ==> IsMonitored(s.build, s.sessions[i].ti))
    && (forall f :: Sum(s.sessionStats, f) <= Get(s.globalStats, f))
    && s.sessionCount <= s.inSessions
  }

  /** The process-lifetime counters of `t` are at least those of `s`. */
  predicate NeverDecreases(s: Ncm, t: Ncm)
  {
    && t.build == s.build
    && t.netconfStartTime == s.netconfStartTime
    && (forall f :: Get(s.globalStats, f) <= Get(t.globalStats, f))
    && s.inBadHellos <= t.inBadHellos
    && s.inSessions <= t.inSessions
    && s.droppedSessions <= t.droppedSessions
  }

  lemma CountersExt(a: Counters, b: Counters)
    requires forall g :: Get(a, g) == Get(b, g)
    ensures a == b
  {
    assert Get(a, InRpcs) == Get(b, InRpcs);
    assert Get(a, InBadRpcs) == Get(b, InBadRpcs);
    assert Get(a, OutRpcErrors) == Get(b, OutRpcErrors);
    assert Get(a, OutNotifications) == Get(b, OutNotifications);
  }

  /** Counting once in entry `k` adds one to the live total of `f` and nothing to the others. */
  lemma SumCountedOnce(s: Ncm, t: Ncm, k: nat, f: Field, g: Field)
    requires k < |s.sessionStats|
    requires CountedOnce(s, t, k, f)
    ensures Sum(t.sessionStats, g) == Sum(s.sessionStats, g) + (if g == f then 1 else 0)
  {
    forall j | 0 <= j < |s.sessionStats| && j != k
      ensures t.sessionStats[j] == s.sessionStats[j]
    {
      forall h ensures Get(t.sessionStats[j], h) == Get(s.sessionStats[j], h) {
        assert Get(t.sessionStats[j], h) == Get(s.sessionStats[j], h) + (if j == k && h == f then 1 else 0);
      }
      CountersExt(t.sessionStats[j], s.sessionStats[j]);
    }
    assert t.sessionStats == s.sessionStats[k := t.sessionStats[k]];
    SumUpdate(s.sessionStats, k, t.sessionStats[k], g);
    // the `j == k` of CountedOnce instantiated at j := k
    assert Get(t.sessionStats[k], g) == Get(s.sessionStats[k], g) + (if k == k && g == f then 1 else 0);
  }

  /** The state ncm_init produces satisfies the invariant. */
  lemma InitInv(b: Build, now: Time)
    ensures Inv(Init(b, now))
  {
  }

  /** Every recorder keeps the invariant. */
  lemma {:induction false} StepInv(s: Ncm, e: Event)
    requires Inv(s) && Pre(s, e)
    ensures Inv(Apply(s, e))
  {
    var t := Apply(s, e);
    var x := e.session;
    if !Monitored(s, x) {
      return;
    }
    match e
    case Open(_) =>
      var n := s.sessionCount;
      assert t.sessionStats == s.sessionStats + [t.sessionStats[n]];
      forall f ensures Sum(t.sessionStats, f) <= Get(t.globalStats, f) {
        SumAppend(s.sessionStats, t.sessionStats[n], f);
      }
      forall i | 0 <= i < |t.sessions| ensures IsMonitored(t.build, t.sessions[i].ti) {
        if i < n {
          assert t.sessions[i] == t.sessions[..n][i];
        }
      }
    case Close(_) =>
      var k := FindSessionIdx(s, x);
      forall f ensures Sum(t.sessionStats, f) <= Get(t.globalStats, f) {
        SumRemoveAt(s.sessionStats, k, f);
      }
      forall i | 0 <= i < |t.sessions| ensures IsMonitored(t.build, t.sessions[i].ti) {
        if i >= k {
          assert t.sessions[i] == s.sessions[i + 1];
        }
      }
    case Hello(_) =>
    case _ =>
      var k := FindSessionIdx(s, x);
      var f := FieldOf(e).value;
      assert CountedOnce(s, t, k, f);
      forall g ensures Sum(t.sessionStats, g) <= Get(t.globalStats, g) {
        SumCountedOnce(s, t, k, f, g);
      }
  }

  /** Any call for a session on an unmonitored transport is a no-op, open, close and bad hello included. */
  lemma UnmonitoredIsNoop(s: Ncm, e: Event)
    requires Pre(s, e) && !Monitored(s, e.session)
    ensures Apply(s, e) == s
  {
  }

  /**
   However the server runs from ncm_init on, no session on an unmonitored
   transport ever appears in the registry.
   */
  lemma UnmonitoredNeverListed(b: Build, now: Time, evs: seq<Event>, x: Session)
    requires Admissible(Init(b, now), evs) && !IsMonitored(b, x.ti)
    ensures var t := Run(Init(b, now), evs);
            forall i :: 0 <= i < |t.sessions| ==> t.sessions[i].ti != x.ti
  {
    InitInv(b, now);
    RunInv(Init(b, now), evs);
    RunNeverDecreases(Init(b, now), evs);
  }

  /** No recorder lowers a lifetime counter or the global totals. */
  lemma StepNeverDecreases(s: Ncm, e: Event)
    requires Pre(s, e)
    ensures NeverDecreases(s, Apply(s, e))
  {
  }

  /** Each call's precondition holds in the state its predecessors leave. */
  predicate Admissible(s: Ncm, evs: seq<Event>)
    decreases |evs|
  {
    |evs| == 0 || (Pre(s, evs[0]) && Admissible(Apply(s, evs[0]), evs[1..]))
  }

  /** The state after a sequence of recorder calls, each one atomic. */
  function Run(s: Ncm, evs: seq<Event>): Ncm
    requires Admissible(s, evs)
    decreases |evs|
  {
    if |evs| == 0 then s else Run(Apply(s, evs[0]), evs[1..])
  }

  lemma {:induction false} RunInv(s: Ncm, evs: seq<Event>)
    requires Inv(s) && Admissible(s, evs)
    ensures Inv(Run(s, evs))
    decreases |evs|
  {
    if |evs| > 0 {
      StepInv(s, evs[0]);
      RunInv(Apply(s, evs[0]), evs[1..]);
    }
  }

  lemma {:induction false} RunNeverDecreases(s: Ncm, evs: seq<Event>)
    requires Admissible(s, evs)
    ensures NeverDecreases(s, Run(s, evs))
    decreases |evs|
  {
    if |evs| > 0 {
      StepNeverDecreases(s, evs[0]);
      RunNeverDecreases(Apply(s, evs[0]), evs[1..]);
    }
  }

  /** How many calls in `evs` count `f` for a session the build monitors. */
  function CountedEvents(b: Build, evs: seq<Event>, f: Field): nat
    decreases |evs|
  {
    if |evs| == 0 then 0
    else
      (if FieldOf(evs[0]) == Some(f) && IsMonitored(b, evs[0].session.ti) then 1 else 0)
      + CountedEvents(b, evs[1..], f)
  }

  /** No lost updates: each global total grows by exactly the number of monitored calls that count it. */
  lemma {:induction false} RunGlobalTotals(s: Ncm, evs: seq<Event>, f: Field)
    requires Admissible(s, evs)
    ensures Get(Run(s, evs).globalStats, f) == Get(s.globalStats, f) + CountedEvents(s.build, evs, f)
    decreases |evs|
  {
    if |evs| > 0 {
      var e := evs[0];
      var t := Apply(s, e);
      if FieldOf(e).Some? && Monitored(s, e.session) {
        assert CountedOnce(s, t, FindSessionIdx(s, e.session), FieldOf(e).value);
      }
      assert Get(t.globalStats, f) == Get(s.globalStats, f)
        + (if FieldOf(e) == Some(f) && IsMonitored(s.build, e.session.ti) then 1 else 0);
      RunGlobalTotals(t, evs[1..], f);
    }
  }

  /** Under the invariant the registry part of the render never fails. */
  lemma InvRenders(s: Ncm)
    requires Inv(s)
    ensures OperData(s).Ok?
  {
  }

  /** A freshly added session is found at the end of the registry. */
  lemma FindAfterAdd(s: Ncm, x: Session)
    requires Valid(s) && Monitored(s, x) && !Registered(s, x)
    ensures Registered(SessionAdd(s, x), x)
    ensures FindSessionIdx(SessionAdd(s, x), x) == s.sessionCount
  {
  }

  /**
   Opening a session and closing it again restores the registry: only
   in-sessions has grown, and dropped-sessions too unless the close was
   a regular one. `y` is the same handle at close time.
   */
  lemma AddThenDel(s: Ncm, x: Session, y: Session)
    requires Valid(s) && Monitored(s, x) && !Registered(s, x)
    requires y.id == x.id && y.ti == x.ti
    ensures var t := SessionDel(SessionAdd(s, x), y);
            && t.sessions == s.sessions
            && t.sessionStats == s.sessionStats
            && t.sessionCount == s.sessionCount
            && t.inSessions == s.inSessions + 1
            && t.droppedSessions == s.droppedSessions + (if y.termReason == TermClosed then 0 else 1)
            && t.globalStats == s.globalStats
            && t.inBadHellos == s.inBadHellos
  {
  }

  /** Querying right after a notification gives one more than before. */
  lemma NotificationThenGet(s: Ncm, x: Session)
    requires Valid(s)
    requires Monitored(s, x) ==> Registered(s, x)
    ensures GetNotification(SessionNotification(s, x), x)
            == GetNotification(s, x) + (if Monitored(s, x) then 1 else 0)
  {
  }

  /** A session just opened has sent no notification. */
  lemma FreshSessionNoNotifications(s: Ncm, x: Session)
    requires Valid(s) && !Registered(s, x)
    ensures GetNotification(SessionAdd(s, x), x) == 0
  {
  }

  /** Occurrences of `f` in `fs`. */
  function Occurrences(fs: seq<Field>, f: Field): nat
    decreases |fs|
  {
    if |fs| == 0 then 0 else (if fs[0] == f then 1 else 0) + Occurrences(fs[1..], f)
  }

  /** One session's counter calls, in order. */
  function RecordAll(s: Ncm, x: Session, fs: seq<Field>): (t: Ncm)
    requires Valid(s)
    requires Monitored(s, x) ==> Registered(s, x)
    ensures Valid(t)
    ensures t.(sessionStats := s.sessionStats, globalStats := s.globalStats) == s
    decreases |fs|
  {
    if |fs| == 0 then s else RecordAll(RecordEvent(s, x, fs[0]), x, fs[1..])
  }

  /**
   The session row and the global totals report exactly the calls made:
   every counter of the session's entry grows by the number of calls that
   name it, and so does the global total.
   */
  lemma {:induction false} RecordAllCounts(s: Ncm, x: Session, fs: seq<Field>, f: Field)
    requires Valid(s) && Monitored(s, x) && Registered(s, x)
    ensures var t := RecordAll(s, x, fs);
            var k := FindSessionIdx(s, x);
            && FindSessionIdx(t, x) == k
            && Get(t.sessionStats[k], f) == Get(s.sessionStats[k], f) + Occurrences(fs, f)
            && Get(t.globalStats, f) == Get(s.globalStats, f) + Occurrences(fs, f)
    decreases |fs|
  {
    var k := FindSessionIdx(s, x);
    if |fs| > 0 {
      var u := RecordEvent(s, x, fs[0]);
      assert CountedOnce(s, u, k, fs[0]);
      assert u.sessions == s.sessions;
      assert FindSessionIdx(u, x) == k;
      // the `j == k` of CountedOnce instantiated at j := k
      assert Get(u.sessionStats[k], f) == Get(s.sessionStats[k], f) + (if k == k && f == fs[0] then 1 else 0);
      RecordAllCounts(u, x, fs[1..], f);
    }
  }

  /** A registry of one monitored session renders as exactly one row. */
  lemma OneRow(b: Build, x: Session, c: Counters)
    requires IsMonitored(b, x.ti)
    ensures RenderRows(b, [x], [c])
            == Ok([SessionRow(x.id, TransportLabelOf(b, x.ti).value, x.username, x.host, x.startTime, c)])
  {
    var tr := TransportLabelOf(b, x.ti).value;
    var row := SessionRow(x.id, tr, x.username, x.host, x.startTime, c);
    assert [x][1..] == [] && [c][1..] == [];
    assert RenderRows(b, [x][1..], [c][1..]) == Ok([]);
    assert [row] + [] == [row];
  }

  /** The counter calls of the scenario below, on its one session. */
  lemma ScenarioCounts(b: Build, x: Session)
    requires IsMonitored(b, x.ti)
    ensures
      var s0 := SessionAdd(Init(b, 0), x);
      var s3 := SessionRpc(SessionRpc(SessionRpc(s0, x), x), x);
      var s6 := SessionNotification(SessionNotification(SessionBadRpc(s3, x), x), x);
      s6 == Ncm(b, 0, [x], [Counters(3, 1, 0, 2)], 1, Counters(3, 1, 0, 2), 0, 1, 0)
  {
    var s0 := SessionAdd(Init(b, 0), x);
    assert s0 == Ncm(b, 0, [x], [Zero], 1, Zero, 0, 1, 0);
    assert FindSessionIdx(s0, x) == 0;
    var s1 := SessionRpc(s0, x);
    assert s1 == s0.(sessionStats := [Counters(1, 0, 0, 0)], globalStats := Counters(1, 0, 0, 0));
    var s2 := SessionRpc(s1, x);
    assert s2 == s0.(sessionStats := [Counters(2, 0, 0, 0)], globalStats := Counters(2, 0, 0, 0));
    var s3 := SessionRpc(s2, x);
    assert s3 == s0.(sessionStats := [Counters(3, 0, 0, 0)], globalStats := Counters(3, 0, 0, 0));
    var s4 := SessionBadRpc(s3, x);
    assert s4 == s0.(sessionStats := [Counters(3, 1, 0, 0)], globalStats := Counters(3, 1, 0, 0));
    var s5 := SessionNotification(s4, x);
    assert s5 == s0.(sessionStats := [Counters(3, 1, 0, 1)], globalStats := Counters(3, 1, 0, 1));
  }

  /**
   Open one SSH session, record three RPCs, one malformed RPC and two
   notifications, render; close it regularly and render again.
   */
  lemma Scenario()
    ensures
      var b := Build(true, true);
      var x := Session(1, TiLibssh, TermNone, "admin", "192.0.2.1", 100);
      var s0 := SessionAdd(Init(b, 0), x);
      var s3 := SessionRpc(SessionRpc(SessionRpc(s0, x), x), x);
      var s6 := SessionNotification(SessionNotification(SessionBadRpc(s3, x), x), x);
      var s7 := SessionDel(s6, x.(termReason := TermClosed));
      && OperData(s6) == Ok(NetconfState(
           Some([SessionRow(1, NetconfSsh, "admin", "192.0.2.1", 100, Counters(3, 1, 0, 2))]),
           Statistics(0, 0, 1, 0, Counters(3, 1, 0, 2))))
      && OperData(s7) == Ok(NetconfState(None, Statistics(0, 0, 1, 0, Counters(3, 1, 0, 2))))
  {
    var b := Build(true, true);
    var x := Session(1, TiLibssh, TermNone, "admin", "192.0.2.1", 100);
    var c := Counters(3, 1, 0, 2);
    ScenarioCounts(b, x);
    var s6 := Ncm(b, 0, [x], [c], 1, c, 0, 1, 0);
    OneRow(b, x, c);
    assert OperData(s6) == Ok(NetconfState(
           Some([SessionRow(1, NetconfSsh, "admin", "192.0.2.1", 100, c)]),
           Statistics(0, 0, 1, 0, c)));
    assert FindSessionIdx(s6, x) == 0;
    assert SessionDel(s6, x.(termReason := TermClosed)) == Ncm(b, 0, [], [], 0, c, 0, 1, 0);
  }
}
