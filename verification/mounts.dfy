/** The mount collector (`GetMountInfo`): sizes computed from block counts,
    and only mounts whose source names a device under "/dev/" are kept. */
module Mounts {
  import opened Wrappers
  import Selection

  const MNT_PREFIX: string := "/dev/"

  /** The fields of a `statfs` entry the collector reads. `mntFromName` holds
      the characters of `f_mntfromname` before its terminator. */
  datatype Statfs = Statfs(blocks: nat, bfree: nat, bsize: nat, mntFromName: string)

  /** The exact value `num / den` of which `pctFree` is the floating-point
      approximation; `den` is never zero. */
  datatype Fraction = Fraction(num: nat, den: nat)

  datatype Mount = Mount(name: string, size: nat, free: nat, pctFree: Fraction)

  /** `strncmp(a, b, n) == 0` on C strings whose characters before the
      terminator are `a` and `b`: at most `n` characters are compared, and
      the end of one string only matches the end of the other. */
  function StrnEq(a: string, b: string, n: nat): bool {
    if n == 0 then true
    else if a == [] || b == [] then a == [] && b == []
    else a[0] == b[0] && StrnEq(a[1..], b[1..], n - 1)
  }

  /** Comparing the whole of a terminator-free prefix is a prefix test. */
  lemma {:induction false} StrnEqIsPrefix(p: string, s: string)
    requires '\0' !in p
    ensures StrnEq(p, s, |p|) <==> p <= s
  {
    if p != [] && s != [] {
      StrnEqIsPrefix(p[1..], s[1..]);
      assert p <= s <==> p[0] == s[0] && p[1..] <= s[1..];
    }
  }

  predicate IsDeviceMount(m: Statfs) {
    StrnEq(MNT_PREFIX, m.mntFromName, |MNT_PREFIX|)
  }

  lemma DeviceMountIsPrefixed(m: Statfs)
    ensures IsDeviceMount(m) <==> MNT_PREFIX <= m.mntFromName
  {
    StrnEqIsPrefix(MNT_PREFIX, m.mntFromName);
  }

  /** `pct_free = btotal ? bfree / btotal : 0.0`, kept exact. */
  function FreeFraction(free: nat, total: nat): (q: Fraction)
    ensures q.den > 0
    ensures total > 0 ==> q.num * total == free * q.den
    ensures q.num == 0 <==> total == 0 || free == 0
  {
    if total == 0 then Fraction(0, 1) else Fraction(free, total)
  }

  function MountOf(m: Statfs): (r: Mount)
    ensures r.name == m.mntFromName
    ensures r.pctFree.num == 0 <==> r.size == 0 || r.free == 0
    ensures m.bfree <= m.blocks ==> r.free <= r.size
    ensures m.bsize > 0 ==> (r.size == 0 <==> m.blocks == 0)
  {
    var size := m.blocks * m.bsize;
    var free := m.bfree * m.bsize;
    Mount(m.mntFromName, size, free, FreeFraction(free, size))
  }

  function MountEntry(m: Statfs): Option<Mount> {
    if IsDeviceMount(m) then Some(MountOf(m)) else None
  }

  /** What a kept entry means: the entry names a device and the record is its own. */
  lemma MountEntryKept(m: Statfs)
    ensures MountEntry(m).Some? <==> MNT_PREFIX <= m.mntFromName
    ensures MountEntry(m).Some? ==> MountEntry(m).value == MountOf(m)
  {
    DeviceMountIsPrefixed(m);
  }

  function ListMounts(mounts: seq<Statfs>): (r: seq<Mount>)
    ensures |r| <= |mounts|
    ensures forall k | 0 <= k < |r| :: MNT_PREFIX <= r[k].name
    ensures forall i | 0 <= i < |mounts| && MNT_PREFIX <= mounts[i].mntFromName :: MountOf(mounts[i]) in r
  {
    CollectedMounts(mounts);
    Selection.Collect(mounts, MountEntry)
  }

  lemma CollectedMounts(mounts: seq<Statfs>)
    ensures var r := Selection.Collect(mounts, MountEntry);
      && (forall k | 0 <= k < |r| :: MNT_PREFIX <= r[k].name)
      && (forall i | 0 <= i < |mounts| && MNT_PREFIX <= mounts[i].mntFromName :: MountOf(mounts[i]) in r)
  {
    var r := Selection.Collect(mounts, MountEntry);
    var idx := ListMountsInOrder(mounts);
    forall i | 0 <= i < |mounts| && MNT_PREFIX <= mounts[i].mntFromName
      ensures MountOf(mounts[i]) in r
    {
      MountEntryKept(mounts[i]);
    }
  }

  /** The result is, in input order, one record per device mount and nothing else. */
  lemma ListMountsInOrder(mounts: seq<Statfs>) returns (idx: seq<nat>)
    ensures |idx| == |Selection.Collect(mounts, MountEntry)|
    ensures forall k | 0 <= k < |idx| ::
              idx[k] < |mounts| && MNT_PREFIX <= mounts[idx[k]].mntFromName
              && Selection.Collect(mounts, MountEntry)[k] == MountOf(mounts[idx[k]])
    ensures forall k, l | 0 <= k < l < |idx| :: idx[k] < idx[l]
    ensures forall i | 0 <= i < |mounts| && MNT_PREFIX <= mounts[i].mntFromName :: i in idx
  {
    idx := Selection.CollectIndices(mounts, MountEntry);
    var r := Selection.Collect(mounts, MountEntry);
    forall k | 0 <= k < |idx|
      ensures MNT_PREFIX <= mounts[idx[k]].mntFromName && r[k] == MountOf(mounts[idx[k]])
    {
      MountEntryKept(mounts[idx[k]]);
    }
    forall i | 0 <= i < |mounts| && MNT_PREFIX <= mounts[i].mntFromName
      ensures i in idx
    {
      MountEntryKept(mounts[i]);
    }
  }
}
