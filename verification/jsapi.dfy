/** The JavaScript wrapper (`osx.js`): the type guard in front of the native
    `procArgs`, and `users()`, which reduces the sessions of `who()` to the
    distinct user names. */
module JsApi {
  import opened Wrappers
  import opened CNum
  import ProcArgs
  import Sessions

  /** The JavaScript values a caller can pass; numbers are integral here. */
  datatype JsValue = JsNumber(num: int) | JsString(str: string) | JsBoolean(b: bool) | JsUndefined | JsNull | JsObject

  const PID_ERROR: string := "pid must be a number"

  /** `procArgs(pid)`: anything but a number throws; a number goes unchanged
      to the native collector, which reads it with `Int32Value`. `fetched` is
      the kernel's answer for that 32-bit pid. */
  method ProcArgsJs(pid: JsValue, argsize: nat, fetched: Option<seq<byte>>)
    returns (nativePid: Option<int>, r: Result<seq<seq<byte>>, string>)
    requires fetched.Some? ==> ProcArgs.INT_SIZE <= |fetched.value| <= ProcArgs.ClampArgSize(argsize)
    ensures !pid.JsNumber? ==> nativePid.None? && r == Failure(PID_ERROR)
    ensures pid.JsNumber? ==> nativePid == Some(ToInt32(pid.num))
    ensures pid.JsNumber? && InInt32(pid.num) ==> nativePid == Some(pid.num)
    ensures pid.JsNumber? ==> (r.Failure? <==> fetched.None?)
    ensures pid.JsNumber? && r.Success? ==> r.value == ProcArgs.ArgVector(fetched.value)
  {
    if pid.JsNumber? {
      nativePid := Some(ToInt32(pid.num));
      r := ProcArgs.GetProcessArgs(argsize, fetched);
    } else {
      nativePid := None;
      r := Failure(PID_ERROR);
    }
  }

  predicate Distinct(s: seq<string>) {
    forall i, j | 0 <= i < j < |s| :: s[i] != s[j]
  }

  /** The one name an assignment to a plain object cannot make a key of:
      `uniq["__proto__"] = name` runs the setter inherited from
      `Object.prototype`, which ignores a string and adds no own property. */
  const PROTO_KEY: string := "__proto__"

  /** The keys of the `uniq` object after `uniq[x] = x` for every name, in
      order: one per distinct name, except `PROTO_KEY`. */
  function Dedupe(xs: seq<string>): (r: seq<string>)
    ensures Distinct(r)
    ensures forall x :: x in r <==> x in xs && x != PROTO_KEY
    ensures |r| <= |xs|
    decreases |xs|
  {
    if xs == [] then []
    else
      var n := |xs| - 1;
      var r := Dedupe(xs[..n]);
      assert forall x :: x in xs <==> x in xs[..n] || x == xs[n];
      if xs[n] in r || xs[n] == PROTO_KEY then r else r + [xs[n]]
  }

  function Names(who: seq<Sessions.Session>): (names: seq<string>)
    ensures |names| == |who|
    ensures forall i | 0 <= i < |who| :: names[i] == who[i].name
  {
    seq(|who|, i requires 0 <= i < |who| => who[i].name)
  }

  /** `users()` over the records `who()` returned. */
  function Users(who: seq<Sessions.Session>): (r: seq<string>)
    ensures Distinct(r)
    ensures forall x :: x in r <==> x != PROTO_KEY && exists i | 0 <= i < |who| :: who[i].name == x
    ensures |r| <= |who|
    ensures who == [] ==> r == []
  {
    var names := Names(who);
    assert forall x :: x in names <==> exists i | 0 <= i < |who| :: who[i].name == x;
    Dedupe(names)
  }

  lemma {:induction false} DistinctCard(s: seq<string>)
    requires Distinct(s)
    ensures |set x | x in s| == |s|
    decreases |s|
  {
    if s != [] {
      var n := |s| - 1;
      DistinctCard(s[..n]);
      assert (set x | x in s) == (set x | x in s[..n]) + {s[n]};
      assert s[n] !in s[..n];
    }
  }

  /** Exactly one entry per distinct name other than `PROTO_KEY`. */
  lemma UsersCount(who: seq<Sessions.Session>)
    ensures |Users(who)| == |(set i | 0 <= i < |who| :: who[i].name) - {PROTO_KEY}|
  {
    var r := Users(who);
    DistinctCard(r);
    assert (set x | x in r) == (set i | 0 <= i < |who| :: who[i].name) - {PROTO_KEY};
  }

  /** A session named `PROTO_KEY` never reaches the result, so `users()` can
      be one short of the distinct names. */
  lemma UsersDropProtoKey(who: seq<Sessions.Session>)
    requires exists i | 0 <= i < |who| :: who[i].name == PROTO_KEY
    ensures PROTO_KEY !in Users(who)
    ensures |Users(who)| == |set i | 0 <= i < |who| :: who[i].name| - 1
  {
    var names := set i | 0 <= i < |who| :: who[i].name;
    UsersCount(who);
    assert PROTO_KEY in names;
    assert |names - {PROTO_KEY}| == |names| - 1;
  }

  /** Composed with the session collector, `users()` never lists an empty name. */
  lemma UsersOfSessionsNamed(entries: seq<Sessions.Utmpx>)
    requires forall i | 0 <= i < |entries| :: Sessions.TypeDefined(entries[i])
    ensures forall x | x in Users(Sessions.ListSessions(entries)) :: x != []
  {
  }
}
