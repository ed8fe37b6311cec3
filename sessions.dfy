/** The general session list of `print.py`: `SESSIONS`, saved whole to
    `sessions.json`, grown by `start_session` and stamped by `end_session`. */
module Sessions {
  import opened Wrappers
  import opened Json

  /** One element of `SESSIONS`. `system` and `code_dirs` are `None` for
      `null`. */
  datatype SessionRecord = SessionRecord(
    id: string,
    username: string,
    loginTs: string,
    logoutTs: Option<string>,
    system: Option<Json>,
    codeDirs: Option<Json>)

  /** The index of the first record whose id is `sid`, searching from `from`. */
  function FirstWithIdFrom(s: seq<SessionRecord>, sid: string, from: nat): (r: Option<nat>)
    decreases |s| - from
    ensures r.Some? ==> from <= r.value < |s| && s[r.value].id == sid
    ensures r.Some? ==> forall k :: from <= k < r.value ==> s[k].id != sid
    ensures r.None? ==> forall k :: from <= k < |s| ==> s[k].id != sid
  {
    if from >= |s| then None
    else if s[from].id == sid then Some(from)
    else FirstWithIdFrom(s, sid, from + 1)
  }

  /** The record `end_session(sid)` stamps: the first one with that id. */
  function FirstWithId(s: seq<SessionRecord>, sid: string): Option<nat> {
    FirstWithIdFrom(s, sid, 0)
  }

  /** The list after setting `logout_ts` of record `i` to `now`. */
  function Stamp(s: seq<SessionRecord>, i: nat, now: string): seq<SessionRecord>
    requires i < |s|
  {
    s[i := s[i].(logoutTs := Some(now))]
  }

  /** Stamping keeps every id where it was, so the same record is found
      again: a second `end_session` with the same id succeeds and
      re-stamps it. */
  lemma StampKeepsFirst(s: seq<SessionRecord>, i: nat, now: string, sid: string)
    requires i < |s|
    ensures FirstWithId(Stamp(s, i, now), sid) == FirstWithId(s, sid)
  {
    var t := Stamp(s, i, now);
    assert forall k :: 0 <= k < |s| ==> t[k].id == s[k].id;
    FirstWithIdUnique(s, t, sid);
  }

  /** Two lists with the same ids position by position agree on the first
      match. */
  lemma FirstWithIdUnique(s: seq<SessionRecord>, t: seq<SessionRecord>, sid: string)
    requires |s| == |t| && forall k :: 0 <= k < |s| ==> s[k].id == t[k].id
    ensures FirstWithId(s, sid) == FirstWithId(t, sid)
  {
    var a, b := FirstWithId(s, sid), FirstWithId(t, sid);
    if a.Some? && b.Some? {
      assert !(a.value < b.value) && !(b.value < a.value);
    }
  }

  /** A freshly appended record with an id not used before is the one a
      later `end_session` with that id stamps. */
  lemma FreshIdFound(s: seq<SessionRecord>, rec: SessionRecord)
    requires forall k :: 0 <= k < |s| ==> s[k].id != rec.id
    ensures FirstWithId(s + [rec], rec.id) == Some(|s|)
  {
    var t := s + [rec];
    var r := FirstWithId(t, rec.id);
    assert t[|s|].id == rec.id;
    assert r.Some?;
  }

  class SessionList {
    /** `SESSIONS` */
    var sessions: seq<SessionRecord>
    /** `sessions.json` as last written by `save_sessions`. */
    var saved: seq<SessionRecord>

    constructor(saved: seq<SessionRecord>)
      ensures sessions == [] && this.saved == saved
    {
      sessions := [];
      this.saved := saved;
    }

    /** `start_session`: exactly one record is appended, open (no logout
        time), with the given id (`uuid4()`) and login time; earlier
        records are unchanged and the list is saved. */
    method StartSession(username: string, system: Option<Json>, codeDirs: Option<Json>, sid: string, now: string)
      returns (id: string)
      modifies this
      ensures id == sid
      ensures sessions == old(sessions) + [SessionRecord(sid, username, now, None, system, codeDirs)]
      ensures saved == sessions
    {
      sessions := sessions + [SessionRecord(sid, username, now, None, system, codeDirs)];
      saved := sessions;
      id := sid;
    }

    /** `end_session`: the first record with the id gets `logout_ts = now`
        and the list is saved; with no such record nothing changes. */
    method EndSession(sid: string, now: string) returns (found: bool)
      modifies this
      ensures found <==> FirstWithId(old(sessions), sid).Some?
      ensures found ==> sessions == Stamp(old(sessions), FirstWithId(old(sessions), sid).value, now) && saved == sessions
      ensures !found ==> sessions == old(sessions) && saved == old(saved)
    {
      var i := 0;
      while i < |sessions|
        invariant 0 <= i <= |sessions|
        invariant FirstWithId(sessions, sid) == FirstWithIdFrom(sessions, sid, i)
      {
        if sessions[i].id == sid {
          sessions := sessions[i := sessions[i].(logoutTs := Some(now))];
          saved := sessions;
          return true;
        }
        i := i + 1;
      }
      return false;
    }
  }

  /** A session started with an unused id is closed by `end_session` with
      that id, which stamps that record and nothing else; ending it again
      still succeeds. */
  method StartEndScenario(list: SessionList, user: string, sid: string, t1: string, t2: string, t3: string)
    requires forall k :: 0 <= k < |list.sessions| ==> list.sessions[k].id != sid
    modifies list
  {
    var before := list.sessions;
    var id := list.StartSession(user, None, None, sid, t1);
    FreshIdFound(before, SessionRecord(sid, user, t1, None, None, None));
    var ended := list.EndSession(id, t2);
    assert ended;
    assert list.sessions[..|before|] == before;
    assert list.sessions[|before|].logoutTs == Some(t2);
    StampKeepsFirst(before + [SessionRecord(sid, user, t1, None, None, None)], |before|, t2, sid);
    var again := list.EndSession(id, t3);
    assert again;
  }
}
