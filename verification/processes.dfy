/** The process-table collector (`GetProcesses`): the table is fetched as
    `len` bytes of fixed-size `kinfo_proc` records, of which only the
    `len / sizeof(kinfo_proc)` complete ones are decoded. */
module Processes {
  import opened Wrappers
  import opened CNum
  import opened Timeval

  const UNKNOWN_USER: string := "<unknown>"
  const SYSCTL_ERROR: string := "sysctl failed."

  /** The fields of a `kinfo_proc` record the collector reads. */
  datatype KinfoProc = KinfoProc(pid: int, ppid: int, uid: nat, comm: string, startSec: int, startUsec: int)

  /** A fetched table: `len` bytes, decoded slot by slot into `slots`. */
  datatype ProcTable = ProcTable(len: nat, slots: seq<KinfoProc>)

  datatype Process = Process(pid: int, parentPid: int, uid: int, username: string, command: string, startTime: int)

  /** How many complete records of `recordSize` bytes fit in `len` bytes. */
  function RecordCount(len: nat, recordSize: nat): (n: nat)
    requires recordSize > 0
    ensures n * recordSize <= len < n * recordSize + recordSize
  {
    len / recordSize
  }

  /** `getpwuid` as a lookup table from uid to login name. */
  function UserName(passwd: map<nat, string>, uid: nat): (name: string)
    ensures uid in passwd ==> name == passwd[uid]
    ensures uid !in passwd ==> name == UNKNOWN_USER
  {
    if uid in passwd then passwd[uid] else UNKNOWN_USER
  }

  function ProcessOf(k: KinfoProc, passwd: map<nat, string>): (p: Process)
    ensures p.pid == k.pid && p.parentPid == k.ppid && p.command == k.comm
    ensures p.uid == ToInt32(k.uid)
    ensures p.username == UserName(passwd, k.uid)
    ensures p.startTime == StartTimeMillis(k.startSec, k.startUsec)
  {
    Process(k.pid, k.ppid, ToInt32(k.uid), UserName(passwd, k.uid), k.comm,
            StartTimeMillis(k.startSec, k.startUsec))
  }

  /** `fetched` is `None` when the size probe or the fetch failed. */
  function ListProcesses(fetched: Option<ProcTable>, recordSize: nat, passwd: map<nat, string>): (r: Result<seq<Process>, string>)
    requires recordSize > 0
    requires fetched.Some? ==> RecordCount(fetched.value.len, recordSize) <= |fetched.value.slots|
    ensures r.Failure? <==> fetched.None?
    ensures r.Failure? ==> r.error == SYSCTL_ERROR
    ensures r.Success? ==> |r.value| == RecordCount(fetched.value.len, recordSize)
    ensures r.Success? ==> forall i | 0 <= i < |r.value| :: r.value[i] == ProcessOf(fetched.value.slots[i], passwd)
  {
    match fetched
    case None => Failure(SYSCTL_ERROR)
    case Some(table) =>
      var n := RecordCount(table.len, recordSize);
      Success(seq(n, i requires 0 <= i < n => ProcessOf(table.slots[i], passwd)))
  }

  /** The user name is never empty as long as the password database holds
      no empty names: a miss falls back to "<unknown>". */
  lemma UserNamesNonEmpty(fetched: Option<ProcTable>, recordSize: nat, passwd: map<nat, string>)
    requires recordSize > 0
    requires fetched.Some? ==> RecordCount(fetched.value.len, recordSize) <= |fetched.value.slots|
    requires forall u | u in passwd :: passwd[u] != []
    ensures var r := ListProcesses(fetched, recordSize, passwd);
      r.Success? ==> forall i | 0 <= i < |r.value| :: r.value[i].username != []
  {
  }

  /** Pids that are unique in the kernel table stay unique in the result. */
  lemma PidsStayUnique(table: ProcTable, recordSize: nat, passwd: map<nat, string>)
    requires recordSize > 0
    requires RecordCount(table.len, recordSize) <= |table.slots|
    requires forall i, j | 0 <= i < j < |table.slots| :: table.slots[i].pid != table.slots[j].pid
    ensures var r := ListProcesses(Some(table), recordSize, passwd);
      forall i, j | 0 <= i < j < |r.value| :: r.value[i].pid != r.value[j].pid
  {
  }
}
