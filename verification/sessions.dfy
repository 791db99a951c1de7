/**
 The part of a libnetconf2 session handle that the monitoring code reads.
 The handle itself is owned by the transport layer; the model keeps a value
 with the attributes the registry looks at.
 */
module Sessions {

  /** Transport implementation of a session (the NC_TI_* kinds). */
  datatype Transport = TiNone | TiFd | TiLibssh | TiOpenssl

  /** Why a session ended (NC_SESSION_TERM_*); TermNone is the unset value 0. */
  datatype TermReason =
    | TermNone
    | TermClosed
    | TermKilled
    | TermDropped
    | TermTimeout
    | TermBadHello
    | TermOther

  /** Seconds since the epoch, as a time_t. */
  type Time = int

  datatype Session = Session(
    id: nat,
    ti: Transport,
    termReason: TermReason,
    username: string,
    host: string,
    startTime: Time)

  /** Which secure transports the server was built with (NC_ENABLED_SSH, NC_ENABLED_TLS). */
  datatype Build = Build(ssh: bool, tls: bool)

  /** ietf-netconf-monitoring only knows NETCONF over SSH and over TLS. */
  function IsMonitored(b: Build, ti: Transport): (r: bool)
    ensures r ==> ti == TiLibssh || ti == TiOpenssl
    ensures ti == TiLibssh ==> (r <==> b.ssh)
    ensures ti == TiOpenssl ==> (r <==> b.tls)
  {
    match ti
    case TiLibssh => b.ssh
    case TiOpenssl => b.tls
    case _ => false
  }
}
