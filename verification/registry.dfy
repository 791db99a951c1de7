/**
 The process-wide monitoring state (`struct ncm stats`) and the two
 registry primitives every recorder builds on: lookup by session id and
 removal by shifting the tail one slot to the front.
 */
module Registry {
  import opened Sessions
  import opened Stats

  /**
   The monitoring state. `sessions` and `sessionStats` are the two
   index-aligned arrays; `sessionCount` is their logical length.
   The mutex guarding it is not modelled: every operation is one atomic step.
   */
  datatype Ncm = Ncm(
    build: Build,
    netconfStartTime: Time,
    sessions: seq<Session>,
    sessionStats: seq<Counters>,
    sessionCount: nat,
    globalStats: Counters,
    inBadHellos: nat,
    inSessions: nat,
    droppedSessions: nat)

  /** Both arrays hold exactly `sessionCount` entries. */
  predicate Valid(s: Ncm)
  {
    |s.sessions| == s.sessionCount && |s.sessionStats| == s.sessionCount
  }

  /** Some registry entry carries the session's id. */
  predicate Registered(s: Ncm, session: Session)
  {
    exists i :: 0 <= i < |s.sessions| && s.sessions[i].id == session.id
  }

  /** The recorders only act on sessions of a transport the module knows. */
  predicate Monitored(s: Ncm, session: Session)
  {
    IsMonitored(s.build, session.ti)
  }

  /** First position at or after `from` holding `id`, or `|sessions|` when there is none. */
  function ScanFrom(sessions: seq<Session>, id: nat, from: nat): (k: nat)
    requires from <= |sessions|
    ensures from <= k <= |sessions|
    ensures k < |sessions| ==> sessions[k].id == id
    ensures forall j :: from <= j < k ==> sessions[j].id != id
    decreases |sessions| - from
  {
    if from == |sessions| then from
    else if sessions[from].id == id then from
    else ScanFrom(sessions, id, from + 1)
  }

  /**
   The linear lookup by session id. An absent id is an internal error that
   the code only logs, after which it answers index 0.
   */
  function FindSessionIdx(s: Ncm, session: Session): (i: nat)
    requires Valid(s)
    ensures Registered(s, session) ==>
              && i < s.sessionCount
              && s.sessions[i].id == session.id
              && forall j :: 0 <= j < i ==> s.sessions[j].id != session.id
    ensures !Registered(s, session) ==> i == 0
  {
    var k := ScanFrom(s.sessions, session.id, 0);
    if k < s.sessionCount then k else 0
  }

  /** The sequence with position `i` taken out and the rest kept in order. */
  function RemoveAt<T>(a: seq<T>, i: nat): (r: seq<T>)
    requires i < |a|
    ensures |r| == |a| - 1
    ensures forall k :: 0 <= k < i ==> r[k] == a[k]
    ensures forall k :: i <= k < |r| ==> r[k] == a[k + 1]
  {
    a[..i] + a[i + 1..]
  }

  /**
   The in-place compaction of ncm_session_del: decrement the count, then,
   when something follows position `i`, move every later slot one to the front.
   The array is a private copy, so the caller's sequence is untouched.
   */
  method RemoveByShift<T>(a: seq<T>, count: nat, i: nat) returns (r: seq<T>)
    requires count == |a| && i < count
    ensures r == RemoveAt(a, i)
  {
    var buf := new T[|a|](k requires 0 <= k < |a| => a[k]);
    var n := count - 1;
    if n > 0 && i < n {
      var j := i;
      while j < n
        invariant i <= j <= n
        invariant forall k :: 0 <= k < i ==> buf[k] == a[k]
        invariant forall k :: i <= k < j ==> buf[k] == a[k + 1]
        invariant forall k :: j <= k < |a| ==> buf[k] == a[k]
      {
        buf[j] := buf[j + 1];
        j := j + 1;
      }
    }
    r := buf[..n];
  }
}
