/** The logged-in-session collector (`GetLoggedInUsers`): placeholder slots
    with an empty user name are skipped and the numeric record type is named
    through a fixed table. */
module Sessions {
  import opened Wrappers
  import opened Timeval
  import Selection

  /** `USER_TYPES`, indexed by `ut_type`. */
  const USER_TYPES: seq<string> := [
    "EMPTY", "RUN_LVL", "BOOT_TIME", "NEW_TIME", "OLD_TIME",
    "INIT_PROCESS", "LOGIN_PROCESS", "USER_PROCESS", "DEAD_PROCESS", "ACCOUNTING"]
  /** `MAX_USER_TYPES`: the largest code looked up in the table (compared with `<=`). */
  const MAX_USER_TYPES: int := 9
  const OTHER_TYPE: string := "OTHER"

  /** The fields of a `utmpx` entry the collector reads. */
  datatype Utmpx = Utmpx(user: string, utType: int, line: string, host: string, tvSec: int, tvUsec: int)

  datatype Session = Session(name: string, sessionType: string, host: string, line: string, startTime: int)

  /** A negative code would index before the table, which the collector does
      not guard against, so callers must not pass one. */
  function TypeName(code: int): (t: string)
    requires code >= 0
    ensures code <= MAX_USER_TYPES ==> t == USER_TYPES[code]
    ensures code == MAX_USER_TYPES ==> t == "ACCOUNTING"
    ensures code > MAX_USER_TYPES ==> t == OTHER_TYPE
  {
    if code <= MAX_USER_TYPES then USER_TYPES[code] else OTHER_TYPE
  }

  /** Each tabulated code has its own name, and only codes past the table
      share one: the name determines the code up to "unknown". */
  lemma TypeNameDetermines(c: int, d: int)
    requires c >= 0 && d >= 0
    ensures TypeName(c) == TypeName(d) <==> c == d || (c > MAX_USER_TYPES && d > MAX_USER_TYPES)
    ensures TypeName(c) == OTHER_TYPE <==> c > MAX_USER_TYPES
  {
    if c <= MAX_USER_TYPES && d <= MAX_USER_TYPES && c != d {
      assert USER_TYPES[c] != USER_TYPES[d];
    }
  }

  predicate TypeDefined(u: Utmpx) {
    u.user != [] ==> u.utType >= 0
  }

  function SessionEntry(u: Utmpx): Option<Session>
    requires TypeDefined(u)
  {
    if u.user == [] then None
    else Some(Session(u.user, TypeName(u.utType), u.host, u.line, StartTimeMillis(u.tvSec, u.tvUsec)))
  }

  /** What a kept entry means: a real user, recorded with its classified type. */
  lemma SessionEntryKept(u: Utmpx)
    requires TypeDefined(u)
    ensures SessionEntry(u).Some? <==> u.user != []
    ensures SessionEntry(u).Some? ==>
              var s := SessionEntry(u).value;
              s.name == u.user && s.sessionType == TypeName(u.utType) && s.host == u.host && s.line == u.line
  {
  }

  function ListSessions(entries: seq<Utmpx>): (r: seq<Session>)
    requires forall i | 0 <= i < |entries| :: TypeDefined(entries[i])
    ensures |r| <= |entries|
    ensures forall k | 0 <= k < |r| :: r[k].name != []
    ensures forall i | 0 <= i < |entries| && entries[i].user != [] :: SessionEntry(entries[i]).value in r
  {
    CollectedSessions(entries);
    Selection.Collect(entries, SessionEntry)
  }

  lemma CollectedSessions(entries: seq<Utmpx>)
    requires forall i | 0 <= i < |entries| :: TypeDefined(entries[i])
    ensures forall k | 0 <= k < |Selection.Collect(entries, SessionEntry)| :: Selection.Collect(entries, SessionEntry)[k].name != []
  {
    var r := Selection.Collect(entries, SessionEntry);
    var idx := ListSessionsInOrder(entries);
  }

  /** The result lists, in input order, the session of every entry with a
      user name and nothing else: position `k` holds exactly the session built
      from entry `idx[k]`, its name, type, host, line and start time. */
  lemma ListSessionsInOrder(entries: seq<Utmpx>) returns (idx: seq<nat>)
    requires forall i | 0 <= i < |entries| :: TypeDefined(entries[i])
    ensures |idx| == |Selection.Collect(entries, SessionEntry)|
    ensures forall k | 0 <= k < |idx| ::
              idx[k] < |entries| && entries[idx[k]].user != []
              && SessionEntry(entries[idx[k]]) == Some(Selection.Collect(entries, SessionEntry)[k])
    ensures forall k, l | 0 <= k < l < |idx| :: idx[k] < idx[l]
    ensures forall i | 0 <= i < |entries| && entries[i].user != [] :: i in idx
  {
    idx := Selection.CollectIndices(entries, SessionEntry);
    forall i | 0 <= i < |entries| && entries[i].user != []
      ensures i in idx
    {
      SessionEntryKept(entries[i]);
    }
  }
}
