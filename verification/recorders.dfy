/**
 The event recorders the NETCONF layer calls (ncm_session_rpc and friends)
 and the state created by ncm_init. Each recorder is one atomic transition
 of the monitoring state; a session whose transport the module does not
 know leaves the state exactly as it was.
 */
module Recorders {
  import opened Sessions
  import opened Stats
  import opened Registry

  /**
   `t` is `s` with one counter `f` counted once: in entry `k` and in the
   global set, and nowhere else.
   */
  predicate CountedOnce(s: Ncm, t: Ncm, k: nat, f: Field)
  {
    && |t.sessionStats| == |s.sessionStats|
    && (forall j, g :: 0 <= j < |s.sessionStats| ==>
          Get(t.sessionStats[j], g) == Get(s.sessionStats[j], g) + (if j == k && g == f then 1 else 0))
    && (forall g :: Get(t.globalStats, g) == Get(s.globalStats, g) + (if g == f then 1 else 0))
    && t.(sessionStats := s.sessionStats, globalStats := s.globalStats) == s
  }

  /** The state right after ncm_init: start time set, everything else zero. */
  function Init(b: Build, now: Time): (s: Ncm)
    ensures Valid(s)
    ensures s.build == b && s.netconfStartTime == now
    ensures s.sessionCount == 0
    ensures forall f :: Get(s.globalStats, f) == 0
    ensures s.inBadHellos == 0 && s.inSessions == 0 && s.droppedSessions == 0
  {
    Ncm(b, now, [], [], 0, Zero, 0, 0, 0)
  }

  /** The shared shape of the four counter recorders. */
  function RecordEvent(s: Ncm, session: Session, f: Field): (t: Ncm)
    requires Valid(s)
    requires Monitored(s, session) ==> Registered(s, session)
    ensures Valid(t)
    ensures !Monitored(s, session) ==> t == s
    ensures Monitored(s, session) ==> CountedOnce(s, t, FindSessionIdx(s, session), f)
  {
    if !Monitored(s, session) then s
    else
      var k := FindSessionIdx(s, session);
      s.(sessionStats := s.sessionStats[k := Bump(s.sessionStats[k], f)],
         globalStats := Bump(s.globalStats, f))
  }

  /** ncm_session_rpc: one more incoming RPC. */
  function SessionRpc(s: Ncm, session: Session): (t: Ncm)
    requires Valid(s)
    requires Monitored(s, session) ==> Registered(s, session)
    ensures Valid(t)
    ensures !Monitored(s, session) ==> t == s
    ensures Monitored(s, session) ==> CountedOnce(s, t, FindSessionIdx(s, session), InRpcs)
  {
    RecordEvent(s, session, InRpcs)
  }

  /** ncm_session_bad_rpc: one more malformed incoming RPC. */
  function SessionBadRpc(s: Ncm, session: Session): (t: Ncm)
    requires Valid(s)
    requires Monitored(s, session) ==> Registered(s, session)
    ensures Valid(t)
    ensures !Monitored(s, session) ==> t == s
    ensures Monitored(s, session) ==> CountedOnce(s, t, FindSessionIdx(s, session), InBadRpcs)
  {
    RecordEvent(s, session, InBadRpcs)
  }

  /** ncm_session_rpc_reply_error: one more rpc-reply carrying rpc-error. */
  function SessionRpcReplyError(s: Ncm, session: Session): (t: Ncm)
    requires Valid(s)
    requires Monitored(s, session) ==> Registered(s, session)
    ensures Valid(t)
    ensures !Monitored(s, session) ==> t == s
    ensures Monitored(s, session) ==> CountedOnce(s, t, FindSessionIdx(s, session), OutRpcErrors)
  {
    RecordEvent(s, session, OutRpcErrors)
  }

  /** ncm_session_notification: one more notification sent. */
  function SessionNotification(s: Ncm, session: Session): (t: Ncm)
    requires Valid(s)
    requires Monitored(s, session) ==> Registered(s, session)
    ensures Valid(t)
    ensures !Monitored(s, session) ==> t == s
    ensures Monitored(s, session) ==> CountedOnce(s, t, FindSessionIdx(s, session), OutNotifications)
  {
    RecordEvent(s, session, OutNotifications)
  }

  /**
   ncm_session_add: count the session as started and append it with zeroed
   counters. Growing the arrays is assumed to succeed.
   */
  function SessionAdd(s: Ncm, session: Session): (t: Ncm)
    requires Valid(s)
    ensures Valid(t)
    ensures !Monitored(s, session) ==> t == s
    ensures Monitored(s, session) ==>
              && t.sessionCount == s.sessionCount + 1
              && t.sessions[..s.sessionCount] == s.sessions
              && t.sessionStats[..s.sessionCount] == s.sessionStats
              && t.sessions[s.sessionCount] == session
              && (forall f :: Get(t.sessionStats[s.sessionCount], f) == 0)
              && t.inSessions == s.inSessions + 1
              && t.(sessions := s.sessions, sessionStats := s.sessionStats,
                    sessionCount := s.sessionCount, inSessions := s.inSessions) == s
  {
    if !Monitored(s, session) then s
    else
      s.(inSessions := s.inSessions + 1,
         sessionCount := s.sessionCount + 1,
         sessions := s.sessions + [session],
         sessionStats := s.sessionStats + [Zero])
  }

  /**
   ncm_session_del: a session that ended for any reason other than a
   regular <close-session> counts as dropped (an unset reason included);
   then its entry is compacted out of both arrays.
   */
  function SessionDel(s: Ncm, session: Session): (t: Ncm)
    requires Valid(s)
    requires Monitored(s, session) ==> Registered(s, session)
    ensures Valid(t)
    ensures !Monitored(s, session) ==> t == s
    ensures Monitored(s, session) ==>
              var k := FindSessionIdx(s, session);
              && t.sessionCount == s.sessionCount - 1
              && t.sessions == RemoveAt(s.sessions, k)
              && t.sessionStats == RemoveAt(s.sessionStats, k)
              && (session.termReason == TermClosed ==> t.droppedSessions == s.droppedSessions)
              && (session.termReason != TermClosed ==> t.droppedSessions == s.droppedSessions + 1)
              && t.(sessions := s.sessions, sessionStats := s.sessionStats,
                    sessionCount := s.sessionCount, droppedSessions := s.droppedSessions) == s
  {
    if !Monitored(s, session) then s
    else
      var dropped := if session.termReason != TermClosed then s.droppedSessions + 1 else s.droppedSessions;
      var k := FindSessionIdx(s, session);
      s.(droppedSessions := dropped,
         sessionCount := s.sessionCount - 1,
         sessions := RemoveAt(s.sessions, k),
         sessionStats := RemoveAt(s.sessionStats, k))
  }

  /** ncm_bad_hello: one more failed <hello>, still filtered by transport. */
  function BadHello(s: Ncm, session: Session): (t: Ncm)
    ensures !Monitored(s, session) ==> t == s
    ensures Monitored(s, session) ==>
              t.inBadHellos == s.inBadHellos + 1 && t.(inBadHellos := s.inBadHellos) == s
  {
    if !Monitored(s, session) then s
    else s.(inBadHellos := s.inBadHellos + 1)
  }

  /** ncm_session_get_notification: the session's sent-notification count, 0 when unmonitored. */
  function GetNotification(s: Ncm, session: Session): (n: nat)
    requires Valid(s)
    requires Monitored(s, session) ==> Registered(s, session)
    ensures !Monitored(s, session) ==> n == 0
    ensures Monitored(s, session) ==>
              exists k :: 0 <= k < s.sessionCount && s.sessions[k].id == session.id
                          && n == Get(s.sessionStats[k], OutNotifications)
                          && forall j :: 0 <= j < k ==> s.sessions[j].id != session.id
  {
    if !Monitored(s, session) then 0
    else s.sessionStats[FindSessionIdx(s, session)].outNotifications
  }
}
