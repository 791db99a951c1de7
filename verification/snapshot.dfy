/**
 An abstract view of the operational data np2srv_ncm_oper_cb renders for
 /ietf-netconf-monitoring:netconf-state: the "sessions" list and the
 "statistics" container, read from one state of the registry.
 */
module Snapshot {
  import opened Results
  import opened Sessions
  import opened Stats
  import opened Registry

  /** The values of the "transport" leaf (netconf-ssh, netconf-tls). */
  datatype TransportLabel = NetconfSsh | NetconfTls

  /** One entry of the "session" list. */
  datatype SessionRow = SessionRow(
    sessionId: nat,
    transport: TransportLabel,
    username: string,
    sourceHost: string,
    loginTime: Time,
    counters: Counters)

  /** The "statistics" container. */
  datatype Statistics = Statistics(
    netconfStartTime: Time,
    inBadHellos: nat,
    inSessions: nat,
    droppedSessions: nat,
    totals: Counters)

  /** The rendered tree: the "sessions" container is present or absent. */
  datatype NetconfState = NetconfState(sessions: Option<seq<SessionRow>>, statistics: Statistics)

  /** The label of a transport, or None for a kind the module cannot describe. */
  function TransportLabelOf(b: Build, ti: Transport): (r: Option<TransportLabel>)
    ensures r.Some? <==> IsMonitored(b, ti)
    ensures r == Some(NetconfSsh) <==> ti == TiLibssh && b.ssh
    ensures r == Some(NetconfTls) <==> ti == TiOpenssl && b.tls
  {
    match ti
    case TiLibssh => if b.ssh then Some(NetconfSsh) else None
    case TiOpenssl => if b.tls then Some(NetconfTls) else None
    case _ => None
  }

  /** `row` reports `session` and its counter set `c`. */
  predicate Describes(row: SessionRow, b: Build, session: Session, c: Counters)
  {
    && row.sessionId == session.id
    && TransportLabelOf(b, session.ti) == Some(row.transport)
    && row.username == session.username
    && row.sourceHost == session.host
    && row.loginTime == session.startTime
    && row.counters == c
  }

  /** The session rows, in registry order; an unsupported transport fails the whole list. */
  function RenderRows(b: Build, sessions: seq<Session>, stats: seq<Counters>): (r: Result<seq<SessionRow>>)
    requires |sessions| == |stats|
    ensures r.Ok? <==> forall i :: 0 <= i < |sessions| ==> IsMonitored(b, sessions[i].ti)
    ensures r.Ok? ==>
              && |r.value| == |sessions|
              && forall i :: 0 <= i < |sessions| ==> Describes(r.value[i], b, sessions[i], stats[i])
    decreases |sessions|
  {
    if |sessions| == 0 then Ok([])
    else
      match TransportLabelOf(b, sessions[0].ti)
      case None => InternalError
      case Some(tr) =>
        var x := sessions[0];
        match RenderRows(b, sessions[1..], stats[1..])
        case InternalError => InternalError
        case Ok(rest) =>
          Ok([SessionRow(x.id, tr, x.username, x.host, x.startTime, stats[0])] + rest)
  }

  /**
   The registry part of np2srv_ncm_oper_cb. The "sessions" container exists
   only when a session is registered; "statistics" is always present.
   */
  function OperData(s: Ncm): (r: Result<NetconfState>)
    requires Valid(s)
    ensures r.Ok? <==> forall i :: 0 <= i < s.sessionCount ==> IsMonitored(s.build, s.sessions[i].ti)
    ensures r.Ok? ==> (r.value.sessions.Some? <==> s.sessionCount > 0)
    ensures r.Ok? && r.value.sessions.Some? ==>
              && |r.value.sessions.value| == s.sessionCount
              && forall i :: 0 <= i < s.sessionCount ==>
                   Describes(r.value.sessions.value[i], s.build, s.sessions[i], s.sessionStats[i])
    ensures r.Ok? ==>
              var st := r.value.statistics;
              && st.netconfStartTime == s.netconfStartTime
              && st.inBadHellos == s.inBadHellos
              && st.inSessions == s.inSessions
              && st.droppedSessions == s.droppedSessions
              && st.totals == s.globalStats
  {
    var st := Statistics(s.netconfStartTime, s.inBadHellos, s.inSessions, s.droppedSessions, s.globalStats);
    if s.sessionCount == 0 then Ok(NetconfState(None, st))
    else
      match RenderRows(s.build, s.sessions, s.sessionStats)
      case InternalError => InternalError
      case Ok(rows) => Ok(NetconfState(Some(rows), st))
  }
}
