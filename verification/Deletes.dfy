/** Handling a records delete and a protocols configure. */
module Deletes {
  import opened Timestamps
  import opened Messages
  import opened RecordQueries
  import opened NodeState
  import opened Writes

  /** An incoming delete, and whether its author may delete the record. */
  datatype DeleteRequest = DeleteRequest(delete: Delete, authorized: bool)

  // ----- delete ------------------------------------------------------------

  /** The handler's checks. A record whose oldest unarchived message is a delete
      is never deleted again, pruning or not: that message is not a write. */
  predicate DeleteAdmitted(st: State, req: DeleteRequest)
  {
    var entries := Unarchived(st.messages, req.delete.recordId);
    && entries != []
    && var latest := st.messages[entries[0]];
       && latest.StoredWrite?
       && req.authorized
       && !Before(req.delete.base.timestamp, latest.Timestamp())
  }

  /** The checks of the delete task, whose outcome the handler ignores. */
  predicate TaskAdmitted(env: Env, st: State, d: Delete)
  {
    var entries := Existing(st.messages, d.recordId);
    && 1 <= |entries| <= 2
    && !Before(d.base.timestamp, st.messages[entries[|entries| - 1]].Timestamp())
    && st.messages[entries[0]].StoredWrite? && IsInitial(env, st.messages[entries[0]].write)
  }

  /** Removes the record's messages that are strictly older than the delete, with
      their data, but keeps initial writes, archived. */
  function Cleared(env: Env, st: State, d: Delete, fetched: Store, cids: seq<string>): State
    requires forall i :: 0 <= i < |cids| ==> cids[i] in fetched
    decreases |cids|
  {
    if cids == [] then st
    else
      var c, m := cids[0], fetched[cids[0]];
      if !Before(m.Timestamp(), d.base.timestamp) then Cleared(env, st, d, fetched, cids[1..])
      else if !m.StoredWrite? then st
      else Cleared(env, Aged(env, st, c, m), d, fetched, cids[1..])
  }

  /** An older write is archived if it is initial, and removed if it is not. */
  function Aged(env: Env, st: State, c: string, m: Stored): State
    requires m.StoredWrite?
  {
    var data := st.data - {DataKey(m.write)};
    if IsInitial(env, m.write) then State(st.messages[c := Archived(m)], st.events, data)
    else State(st.messages - {c}, st.events - {c}, data)
  }

  function Marked(env: Env, st: State, d: Delete, initial: Write): State
  {
    var c := env.deleteCid(d);
    State(st.messages[c := StoredDelete(d, initial)], st.events + {c}, st.data)
  }

  predicate DeleteApplies(env: Env, st: State, req: DeleteRequest)
  {
    DeleteAdmitted(st, req) && TaskAdmitted(env, st, req.delete)
  }

  /** The state after a delete is handled. */
  function DeleteStep(env: Env, st: State, req: DeleteRequest): State
  {
    if DeleteApplies(env, st, req) then TaskDone(env, st, req.delete) else st
  }

  /** What the delete task does once it is admitted. */
  function TaskDone(env: Env, st: State, d: Delete): State
    requires TaskAdmitted(env, st, d)
  {
    var entries := Existing(st.messages, d.recordId);
    Cleared(env, Marked(env, st, d, st.messages[entries[0]].write), d, st.messages, entries)
  }

  // ----- configure ---------------------------------------------------------

  /** An incoming configure, and whether it is authorized and valid. */
  datatype ConfigureRequest = ConfigureRequest(configure: Configure, admitted: bool)

  function ConfigCids(s: Store, protocol: string): set<string>
  {
    set c | c in s && s[c].StoredConfigure? && s[c].configure.protocol == protocol
            && s[c].configure.base.interface == ProtocolsInterface
  }

  /** The stored configurations of a protocol, oldest first. */
  function Configs(s: Store, protocol: string): (r: seq<string>)
    ensures OldestFirst(s, ConfigCids(s, protocol), r)
  {
    ByTime(s, ConfigCids(s, protocol))
  }

  /** The configure is the latest for its protocol. Of configurations with one
      timestamp the last listed, which has the greatest CID, is compared. */
  predicate ConfigureLatest(env: Env, s: Store, c: Configure)
  {
    var existing := Configs(s, c.protocol);
    existing == [] ||
      var last := existing[|existing| - 1];
      !Older(StoredConfigure(c), env.configureCid(c), s[last], last)
  }

  predicate ConfigureAccepted(env: Env, s: Store, req: ConfigureRequest)
  {
    && req.admitted
    && req.configure.base.interface == ProtocolsInterface && req.configure.base.verb == ConfigureMethod
    && ConfigureLatest(env, s, req.configure)
  }

  /** The state after a configure is handled: it replaces those before it. */
  function ConfigureStep(env: Env, st: State, req: ConfigureRequest): State
  {
    if !ConfigureAccepted(env, st.messages, req) then st
    else
      var gone, cid := ConfigCids(st.messages, req.configure.protocol), env.configureCid(req.configure);
      State((st.messages - gone)[cid := StoredConfigure(req.configure)], st.events - gone + {cid}, st.data)
  }

  // ----- runs --------------------------------------------------------------

  datatype Request =
    | WriteIt(write: WriteRequest)
    | DeleteIt(delete: DeleteRequest)
    | ConfigureIt(configure: ConfigureRequest)

  function Step(env: Env, st: State, req: Request): State
  {
    match req
    case WriteIt(w) => WriteStep(env, st, w)
    case DeleteIt(d) => DeleteStep(env, st, d)
    case ConfigureIt(c) => ConfigureStep(env, st, c)
  }
}
