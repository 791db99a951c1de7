# netopeer2 NETCONF monitoring statistics, modelled in Dafny

This project models the session-statistics registry of the netopeer2 server
(`src/netconf_monitoring.c`). The registry feeds the `ietf-netconf-monitoring`
YANG module of RFC 6022: the "sessions" list (section 2.1.4) and the
"statistics" container (section 2.1.5).

The monitoring state (`struct ncm stats`) is the record `Registry.Ncm`. It holds:

- the two index-aligned arrays `sessions` and `sessionStats`, and their logical length `sessionCount`;
- the global counter set `globalStats`;
- the process-lifetime counters `inBadHellos`, `inSessions` and `droppedSessions`;
- the server start time, and the build configuration (`Build`): whether NETCONF over SSH and over TLS were compiled in.

A libnetconf2 session handle is the value `Sessions.Session`. It carries the
id, the transport kind, the termination reason, the username, the source host
and the login time.

Every event recorder (`ncm_session_rpc`, `ncm_session_add`, `ncm_session_del`,
`ncm_bad_hello`, ...) is a pure function from one state to the next. The mutex is
abstracted away, so each recorder is one atomic step. `Snapshot.OperData` is
the part of the operational-data callback `np2srv_ncm_oper_cb` that reads the
registry: the optional "sessions" list and the "statistics" container.

Modules:

- `Results`: `Option`, and `Result` with its single error `InternalError` (SR_ERR_INTERNAL).
- `Sessions`: the session handle, transport kinds, termination reasons, and the "is monitored" filter.
- `Stats`: the four-field counter set, `Bump` (increment one named field), and `Sum` over a sequence of counter sets.
- `Registry`: the state record, lookup by session id, and removal by shifting. Removal has a functional version and an array version with a loop.
- `Recorders`: `ncm_init` and the eight recorders.
- `Snapshot`: the rendered sessions/statistics view.
- `Properties`: recorder calls as `Event`s, runs of events, the registry invariant, monotonicity, global totals as event counts, round trips, and a concrete scenario.

Three behaviours of the code are easy to misread; the model follows the code:

- `find_session_idx` on an absent id logs an internal error and returns index 0. It does not abort. The model's `FindSessionIdx` returns 0 in that case. Every recorder that uses it requires a monitored session to be registered.
- `ncm_bad_hello` applies the same transport filter as the other recorders, so a bad hello on an unmonitored transport is not counted in `in-bad-hellos` (the counter RFC 6022 defines for rejected hellos).
- `ncm_session_add` increments `in_sessions` and `session_count` before it grows the arrays. The failure path does not undo these increments (see Left out).

## Model

| member | source | states |
|---|---|---|
| Sessions.IsMonitored | src/netconf_monitoring.c:63-81 | Only the SSH transport (when built with SSH) and the TLS transport (when built with TLS) are monitored. FD and NONE never are. |
| Registry.FindSessionIdx | src/netconf_monitoring.c:48-61 | For a registered session, the result is the smallest index whose stored id equals the session's id, and it is below `session_count`. For an absent id, the result is 0. |
| Registry.ScanFrom | src/netconf_monitoring.c:53-57 | The scan from `from` stops at the first position holding the id. It stops at the end when no position does, and no position it passed holds the id. |
| Registry.RemoveAt | src/netconf_monitoring.c:197-202 | Removing position `i` gives one element fewer. Earlier elements stay in place, and later elements move one slot toward the front. |
| Registry.RemoveByShift | src/netconf_monitoring.c:198-202 | The memmove loop (decrement the count, then shift the tail left when something follows `i`) computes exactly `RemoveAt`. |
| Recorders.Init | src/netconf_monitoring.c:31-38 | After init, the registry is empty and valid and every counter is zero (the zero-initialised global `stats`), and the start time is the given clock value (`ncm_init`). |
| Recorders.RecordEvent | src/netconf_monitoring.c:83-141 | Unmonitored: the state is unchanged. Monitored and registered: the named counter grows by 1 in the found entry and in the global set. Every other entry, every other field and every other counter stays the same. |
| Recorders.SessionRpc | src/netconf_monitoring.c:83-96 | Same as RecordEvent, for in-rpcs. |
| Recorders.SessionBadRpc | src/netconf_monitoring.c:98-111 | Same as RecordEvent, for in-bad-rpcs. |
| Recorders.SessionRpcReplyError | src/netconf_monitoring.c:113-126 | Same as RecordEvent, for out-rpc-errors. |
| Recorders.SessionNotification | src/netconf_monitoring.c:128-141 | Same as RecordEvent, for out-notifications. |
| Recorders.SessionAdd | src/netconf_monitoring.c:143-176 | Unmonitored: the state is unchanged. Monitored: the session is appended after the unchanged earlier entries, with all four counters zero. `session_count` and `in_sessions` each grow by 1, and nothing else changes. |
| Recorders.SessionDel | src/netconf_monitoring.c:178-205 | Unmonitored: the state is unchanged. Monitored and registered: both arrays lose exactly the found index, in order and still aligned, and `session_count` drops by 1. `dropped_sessions` grows by 1 exactly when the reason is not "closed" (an unset reason counts as dropped). Global counters and `in_sessions` are untouched. |
| Recorders.BadHello | src/netconf_monitoring.c:207-219 | Unmonitored: the state is unchanged. Monitored: only `in_bad_hellos` changes, and it grows by exactly 1. |
| Recorders.GetNotification | src/netconf_monitoring.c:221-237 | Unmonitored: the result is 0. Monitored: the result is the out-notifications counter of the first entry with the session's id. |
| Snapshot.TransportLabelOf | src/netconf_monitoring.c:326-341 | A label exists exactly for monitored transports: netconf-ssh for SSH and netconf-tls for TLS. |
| Snapshot.RenderRows | src/netconf_monitoring.c:322-355 | The rows succeed exactly when every entry is on a monitored transport. The result then has one row per entry, in registry order, with the entry's id, label, user, host, login time and counters. |
| Snapshot.OperData | src/netconf_monitoring.c:316-378 | The render fails exactly when some registered session has an unsupported transport. On success, the sessions section is present iff `session_count > 0` and lists every entry in order. The statistics carry the start time, bad hellos, in/dropped sessions and the global counters. |
| Properties.InitInv | src/netconf_monitoring.c:33-38 | The initial state satisfies the registry invariant. |
| Properties.StepInv | src/netconf_monitoring.c:83-219 | Every recorder keeps the invariant. The arrays stay aligned, only monitored sessions are registered, each global counter is at least the sum of the live sessions' counters, and `session_count <= in_sessions`. |
| Properties.StepNeverDecreases | src/netconf_monitoring.c:83-219 | No recorder lowers a global counter, `in_bad_hellos`, `in_sessions` or `dropped_sessions`, or changes the start time. |
| Properties.UnmonitoredIsNoop | src/netconf_monitoring.c:64-81 | For a session on an unmonitored transport, every recorder is the identity, including add, del and bad hello. |
| Properties.UnmonitoredNeverListed | src/netconf_monitoring.c:148-152 | After any admissible sequence of recorder calls from the init state, no registry entry has the transport of an unmonitored session. |
| Properties.RunInv | src/netconf_monitoring.c:83-219 | Any admissible sequence of recorder calls keeps the invariant. |
| Properties.RunNeverDecreases | src/netconf_monitoring.c:83-219 | Over any admissible sequence of recorder calls, the lifetime and global counters never decrease. |
| Properties.RunGlobalTotals | src/netconf_monitoring.c:92-138 | No lost updates: after any sequence of calls, each global counter has grown by exactly the number of monitored calls that count it. |
| Properties.InvRenders | src/netconf_monitoring.c:326-341 | Under the invariant, the render never reaches its unsupported-transport error. |
| Properties.FindAfterAdd | src/netconf_monitoring.c:156-173 | After a session with a fresh id is added, it is registered, and lookup finds it at the old `session_count`. |
| Properties.AddThenDel | src/netconf_monitoring.c:143-205 | Adding a fresh session and deleting it again restores the arrays, the count, the global counters and the bad-hello count. `in_sessions` grows by 1. `dropped_sessions` grows by 1 iff the close reason is not "closed". |
| Properties.NotificationThenGet | src/netconf_monitoring.c:221-237 | Querying after a notification gives one more than querying before, or the same value when the session is unmonitored. |
| Properties.FreshSessionNoNotifications | src/netconf_monitoring.c:172-173 | A just-added session reports 0 notifications. |
| Properties.RecordAll | src/netconf_monitoring.c:83-141 | Any series of counter calls on one session leaves the registry layout and every non-counter field unchanged. |
| Properties.RecordAllCounts | src/netconf_monitoring.c:83-141 | After a series of counter calls on one registered session, each of its counters and each global counter has grown by the number of calls naming that counter. |
| Properties.OneRow | src/netconf_monitoring.c:322-355 | A registry holding one monitored session renders as exactly one row describing it. |
| Properties.ScenarioCounts | src/netconf_monitoring.c:83-176 | Opening one SSH session and recording 3 RPCs, 1 malformed RPC and 2 notifications gives entry and global counters 3/1/0/2, with one session started. |
| Properties.Scenario | src/netconf_monitoring.c:316-378 | In that scenario, the render lists one row with 3/1/0/2. After a regular close, the render has no sessions section, zero dropped sessions and unchanged global counters 3/1/0/2. |

## Left out

- The pthread mutex and all concurrency. Each recorder and the render are modelled as one atomic step on the state, which is what the single lock guarantees.
- The `realloc` failure path of `ncm_session_add`. Allocation is assumed to succeed. On failure the code has already bumped `in_sessions` and `session_count`, and it returns with the lock held.
- `ncm_destroy`: it only frees the two arrays and destroys the mutex, so there is no state to model.
- Capabilities, datastore locks and schemas sections of the render, and `lyd_validate_all`. They are built from libyang, sysrepo and libnetconf2 calls that are not part of this model.
- Timestamp formatting (`nc_time2datetime` with the "CET" zone) and decimal `sprintf` rendering. Times and counters appear in the snapshot as numbers.
- The clock read by `ncm_init` is a parameter (`now`).
- Recorders.SessionRpc: counters are unbounded `nat`s, so the `uint32_t` wrap-around of every counter (per session, global, `in_sessions`, `dropped_sessions`, `in_bad_hellos`) is not modelled. This applies equally to the other recorders.
- Recorders.RecordEvent: a monitored but unregistered session is excluded by the precondition, for `SessionRpc`, `SessionBadRpc`, `SessionRpcReplyError` and `SessionNotification` alike. The code logs an internal error there and increments entry 0, which belongs to another session, or writes past the arrays when the registry is empty.
- Recorders.SessionDel: a monitored but unregistered session is excluded by the precondition. The code logs an internal error there, removes entry 0, and with an empty registry underflows `session_count`.
- Recorders.GetNotification: a monitored but unregistered session is excluded by the precondition. The code reads entry 0 there.
- Registry.FindSessionIdx: session ids are unbounded `nat`s rather than `uint32_t`.
- Log output is not modelled: the internal error of a failed lookup, the warning on adding an unmonitored session, the internal error on an unset termination reason at delete, and the error on an unsupported transport in the render.
- `src/netconf.h` (prototypes only) and the sysrepo demo programs `src/sp/oper_data_example.c` and `cli/sp/sr_set_item_example.c` are not part of this model.
