/** The walk every list collector performs: visit the kernel's entries in
    order, skip some, and append a record for each of the others. `f` returns
    `None` for an entry that is skipped and `Some(record)` otherwise. */
module Selection {
  import opened Wrappers

  /** The records for the entries `xs[from..]`, in entry order. */
  function CollectFrom<A, B>(xs: seq<A>, f: A --> Option<B>, from: nat): (ys: seq<B>)
    requires from <= |xs|
    requires forall i | 0 <= i < |xs| :: f.requires(xs[i])
    ensures |ys| <= |xs| - from
    ensures forall i | from <= i < |xs| && f(xs[i]).Some? :: f(xs[i]).value in ys
    ensures forall y | y in ys :: exists i | from <= i < |xs| :: f(xs[i]) == Some(y)
    decreases |xs| - from
  {
    if from == |xs| then []
    else
      var rest := CollectFrom(xs, f, from + 1);
      match f(xs[from])
      case None => rest
      case Some(y) => [y] + rest
  }

  function Collect<A, B>(xs: seq<A>, f: A --> Option<B>): (ys: seq<B>)
    requires forall i | 0 <= i < |xs| :: f.requires(xs[i])
    ensures |ys| <= |xs|
    ensures forall i | 0 <= i < |xs| && f(xs[i]).Some? :: f(xs[i]).value in ys
    ensures forall y | y in ys :: exists i | 0 <= i < |xs| :: f(xs[i]) == Some(y)
  {
    CollectFrom(xs, f, 0)
  }

  /** Order is preserved: the records of `xs[from..]` come from a strictly
      increasing choice of entries, and every entry not skipped is chosen. */
  lemma {:induction false} IndicesFrom<A, B>(xs: seq<A>, f: A --> Option<B>, from: nat) returns (idx: seq<nat>)
    requires from <= |xs|
    requires forall i | 0 <= i < |xs| :: f.requires(xs[i])
    ensures |idx| == |CollectFrom(xs, f, from)|
    ensures forall k | 0 <= k < |idx| :: from <= idx[k] < |xs| && f(xs[idx[k]]) == Some(CollectFrom(xs, f, from)[k])
    ensures forall k, l | 0 <= k < l < |idx| :: idx[k] < idx[l]
    ensures forall i | from <= i < |xs| && f(xs[i]).Some? :: i in idx
    decreases |xs| - from
  {
    if from == |xs| {
      idx := [];
    } else {
      var rest := IndicesFrom(xs, f, from + 1);
      var ys := CollectFrom(xs, f, from + 1);
      var all := CollectFrom(xs, f, from);
      match f(xs[from])
      case None =>
        assert all == ys;
        idx := rest;
      case Some(y) =>
        assert all == [y] + ys;
        idx := [from] + rest;
        PrependIndex(xs, f, from, y, ys, rest);
    }
  }

  /** The step of `IndicesFrom` where entry `from` is kept. */
  lemma PrependIndex<A, B>(xs: seq<A>, f: A --> Option<B>, from: nat, y: B, ys: seq<B>, rest: seq<nat>)
    requires from < |xs|
    requires forall i | 0 <= i < |xs| :: f.requires(xs[i])
    requires f(xs[from]) == Some(y)
    requires |rest| == |ys|
    requires forall k | 0 <= k < |rest| :: from + 1 <= rest[k] < |xs| && f(xs[rest[k]]) == Some(ys[k])
    requires forall k, l | 0 <= k < l < |rest| :: rest[k] < rest[l]
    requires forall i | from + 1 <= i < |xs| && f(xs[i]).Some? :: i in rest
    ensures var idx, all := [from] + rest, [y] + ys;
      && (forall k | 0 <= k < |idx| :: from <= idx[k] < |xs| && f(xs[idx[k]]) == Some(all[k]))
      && (forall k, l | 0 <= k < l < |idx| :: idx[k] < idx[l])
      && (forall i | from <= i < |xs| && f(xs[i]).Some? :: i in idx)
  {
    var idx, all := [from] + rest, [y] + ys;
    forall k | 1 <= k < |idx|
      ensures idx[k] == rest[k - 1] && all[k] == ys[k - 1]
    {
    }
    forall i | from <= i < |xs| && f(xs[i]).Some?
      ensures i in idx
    {
      if i == from {
        assert idx[0] == i;
      } else {
        var k :| 0 <= k < |rest| && rest[k] == i;
        assert idx[k + 1] == i;
      }
    }
  }

  lemma CollectIndices<A, B>(xs: seq<A>, f: A --> Option<B>) returns (idx: seq<nat>)
    requires forall i | 0 <= i < |xs| :: f.requires(xs[i])
    ensures |idx| == |Collect(xs, f)|
    ensures forall k | 0 <= k < |idx| :: idx[k] < |xs| && f(xs[idx[k]]) == Some(Collect(xs, f)[k])
    ensures forall k, l | 0 <= k < l < |idx| :: idx[k] < idx[l]
    ensures forall i | 0 <= i < |xs| && f(xs[i]).Some? :: i in idx
  {
    idx := IndicesFrom(xs, f, 0);
  }
}
