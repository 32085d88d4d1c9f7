/** The account collector (`GetUsers`): every password-database entry is
    stored under its uid, so a later entry with the same uid replaces an
    earlier one. The uid and gid pass through `Integer::New`, a 32-bit
    signed conversion of the unsigned `uid_t`/`gid_t`. */
module Accounts {
  import opened CNum

  /** The fields of a `passwd` entry the collector reads. */
  datatype Passwd = Passwd(name: string, uid: nat, gid: nat, dir: string)

  datatype Account = Account(name: string, uid: int, gid: int, dir: string)

  /** The key an entry is stored under. */
  function Key(p: Passwd): int {
    ToInt32(p.uid)
  }

  function AccountOf(p: Passwd): (a: Account)
    ensures InInt32(a.uid) && InInt32(a.gid)
    ensures a.uid == Key(p)
    ensures p.uid <= INT32_MAX ==> a.uid == p.uid
    ensures p.gid <= INT32_MAX ==> a.gid == p.gid
    ensures a.name == p.name && a.dir == p.dir
  {
    Account(p.name, ToInt32(p.uid), ToInt32(p.gid), p.dir)
  }

  /** The object built by enumerating `entries` in order, one store per entry. */
  function ListAccounts(entries: seq<Passwd>): (m: map<int, Account>)
    ensures forall k | k in m :: m[k].uid == k
    ensures |m| <= |entries|
    decreases |entries|
  {
    if entries == [] then map[]
    else
      var n := |entries| - 1;
      var last := entries[n];
      ListAccounts(entries[..n])[Key(last) := AccountOf(last)]
  }

  /** Exactly the uids that occur are keys. */
  lemma {:induction false} AccountKeys(entries: seq<Passwd>)
    ensures forall i | 0 <= i < |entries| :: Key(entries[i]) in ListAccounts(entries)
    ensures forall k | k in ListAccounts(entries) :: exists i | 0 <= i < |entries| :: Key(entries[i]) == k
    decreases |entries|
  {
    if entries != [] {
      var n := |entries| - 1;
      var prefix := entries[..n];
      AccountKeys(prefix);
      var m := ListAccounts(entries);
      assert m == ListAccounts(prefix)[Key(entries[n]) := AccountOf(entries[n])];
      forall i | 0 <= i < |entries|
        ensures Key(entries[i]) in m
      {
        if i < n {
          assert prefix[i] == entries[i];
        }
      }
      forall k | k in m
        ensures exists i | 0 <= i < |entries| :: Key(entries[i]) == k
      {
        if k != Key(entries[n]) {
          var i :| 0 <= i < n && Key(prefix[i]) == k;
          assert entries[i] == prefix[i];
        }
      }
    }
  }

  /** Later entries win: the account stored under a uid is the one from the
      last entry carrying that uid. */
  lemma {:induction false} LastEntryWins(entries: seq<Passwd>, i: nat)
    requires i < |entries|
    requires forall j | i < j < |entries| :: Key(entries[j]) != Key(entries[i])
    ensures Key(entries[i]) in ListAccounts(entries)
    ensures ListAccounts(entries)[Key(entries[i])] == AccountOf(entries[i])
    decreases |entries|
  {
    var n := |entries| - 1;
    if i < n {
      var prefix := entries[..n];
      assert forall j | 0 <= j < n :: prefix[j] == entries[j];
      LastEntryWins(prefix, i);
    }
  }

  /** Nothing is lost when every uid is distinct: one account per entry. */
  lemma {:induction false} DistinctUidsKeepAll(entries: seq<Passwd>)
    requires forall i, j | 0 <= i < j < |entries| :: Key(entries[i]) != Key(entries[j])
    ensures |ListAccounts(entries)| == |entries|
    decreases |entries|
  {
    if entries != [] {
      var n := |entries| - 1;
      var prefix := entries[..n];
      assert forall j | 0 <= j < n :: prefix[j] == entries[j];
      DistinctUidsKeepAll(prefix);
      var before := ListAccounts(prefix);
      AccountKeys(prefix);
      assert Key(entries[n]) !in before;
      assert ListAccounts(entries) == before[Key(entries[n]) := AccountOf(entries[n])];
    }
  }
}
