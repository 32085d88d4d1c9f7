/** The process-argument collector (`GetProcessArgs`): the buffer size is
    clamped, the kernel fills the buffer, and the decoder walks the packed
    NUL-terminated strings that follow the leading `int` argument count. */
module ProcArgs {
  import opened Wrappers
  import opened CNum

  /** Length of the stack buffer `proc_args`. */
  const ARGS_BUFFER_SIZE: nat := 8192
  /** `sizeof(int)`: the width of the leading argument count. */
  const INT_SIZE: nat := 4
  const NUL: byte := 0
  const FETCH_ERROR: string := "sysctl failed: invalid pid or no privileges"

  /** What the `size_t` `argsize` holds after the ARGMAX query. The query
      writes only `sizeof(int)` bytes, the low half on a little-endian LP64
      host, so the upper half keeps whatever `upper` the stack held. */
  function QueriedArgSize(argmax: int, upper: nat): (n: nat)
    requires InInt32(argmax) && upper < TWO_32
    ensures n < TWO_32 * TWO_32
    ensures (n - argmax) % TWO_32 == 0
    ensures upper == 0 && argmax >= 0 ==> n == argmax
    ensures upper > 0 ==> n >= TWO_32
  {
    argmax % TWO_32 + TWO_32 * upper
  }

  /** The buffer length handed to the argument fetch: whatever `argsize`
      holds after the query, cut down to the size of the buffer. */
  function ClampArgSize(argsize: nat): (n: nat)
    ensures n <= ARGS_BUFFER_SIZE && n <= argsize
    ensures n == argsize || n == ARGS_BUFFER_SIZE
  {
    if argsize > ARGS_BUFFER_SIZE then ARGS_BUFFER_SIZE else argsize
  }

  /** The clamp keeps the fetch inside the buffer whatever the query left in
      `argsize`: a clean upper half gives `min(ARGMAX, 8192)`, and any stale
      upper half gives the whole buffer. */
  lemma ClampAfterQuery(argmax: int, upper: nat)
    requires InInt32(argmax) && upper < TWO_32
    ensures ClampArgSize(QueriedArgSize(argmax, upper)) <= ARGS_BUFFER_SIZE
    ensures upper == 0 && argmax >= 0 ==>
              ClampArgSize(QueriedArgSize(argmax, upper)) == if argmax < ARGS_BUFFER_SIZE then argmax else ARGS_BUFFER_SIZE
    ensures upper > 0 ==> ClampArgSize(QueriedArgSize(argmax, upper)) == ARGS_BUFFER_SIZE
  {
  }

  predicate NulFree(s: seq<byte>) {
    forall i | 0 <= i < |s| :: s[i] != NUL
  }

  /** A byte string that ends at a string boundary: empty or NUL-terminated. */
  predicate Terminated(s: seq<byte>) {
    s == [] || s[|s| - 1] == NUL
  }

  function NulCount(s: seq<byte>): nat {
    if s == [] then 0 else (if s[0] == NUL then 1 else 0) + NulCount(s[1..])
  }

  /** Position of the first NUL in `s`, or `|s|` when there is none. */
  function NulIndex(s: seq<byte>): (i: nat)
    ensures i <= |s|
    ensures i < |s| ==> s[i] == NUL
    ensures NulFree(s[..i])
  {
    if s == [] then 0
    else if s[0] == NUL then 0
    else
      var j := NulIndex(s[1..]);
      assert s[..j + 1] == [s[0]] + s[1..][..j];
      j + 1
  }

  /** Reference meaning of a packed string area: every NUL ends one string
      (possibly empty), and bytes after the last NUL form no string. */
  function Fields(s: seq<byte>): seq<seq<byte>>
    decreases |s|
  {
    var i := NulIndex(s);
    if i == |s| then [] else [s[..i]] + Fields(s[i + 1..])
  }

  /** The first `n` elements of `xs`, or all of them when there are fewer;
      nothing when `n` is not positive. */
  function Take<T>(xs: seq<T>, n: int): (r: seq<T>)
    ensures n <= 0 ==> r == []
    ensures 0 <= n <= |xs| ==> r == xs[..n]
    ensures n >= |xs| ==> r == xs
  {
    if n <= 0 then [] else if n >= |xs| then xs else xs[..n]
  }

  /** Lays strings out the way the kernel packs them: each followed by a NUL. */
  function Pack(xs: seq<seq<byte>>): (s: seq<byte>)
    ensures Terminated(s)
  {
    if xs == [] then [] else xs[0] + [NUL] + Pack(xs[1..])
  }

  /** The argument count stored in the first four bytes of the buffer. */
  function ArgCount(buf: seq<byte>): (argc: int)
    requires |buf| >= INT_SIZE
    ensures InInt32(argc)
  {
    DecodeInt32LE(buf[0], buf[1], buf[2], buf[3])
  }

  /** Reference decoding of a fetched buffer: the first `argc` strings of
      the area after the count. */
  function ArgVector(buf: seq<byte>): seq<seq<byte>>
    requires |buf| >= INT_SIZE
  {
    Take(Fields(buf[INT_SIZE..]), ArgCount(buf))
  }

  lemma {:induction false} NulFreeNoNul(s: seq<byte>)
    requires NulFree(s)
    ensures NulIndex(s) == |s|
    ensures NulCount(s) == 0
  {
    if s != [] {
      NulFreeNoNul(s[1..]);
    }
  }

  lemma {:induction false} NulCountAppend(a: seq<byte>, b: seq<byte>)
    ensures NulCount(a + b) == NulCount(a) + NulCount(b)
  {
    if a != [] {
      var ab := a + b;
      assert ab[0] == a[0] && ab[1..] == a[1..] + b;
      NulCountAppend(a[1..], b);
      assert NulCount(ab) == (if a[0] == NUL then 1 else 0) + NulCount(a[1..] + b);
    } else {
      assert a + b == b;
    }
  }

  /** Each NUL yields exactly one string. */
  lemma {:induction false} FieldsCount(s: seq<byte>)
    ensures |Fields(s)| == NulCount(s)
    decreases |s|
  {
    var i := NulIndex(s);
    assert s == s[..i] + s[i..];
    NulFreeNoNul(s[..i]);
    NulCountAppend(s[..i], s[i..]);
    if i == |s| {
    } else {
      assert s[i..] == [NUL] + s[i + 1..];
      NulCountAppend([NUL], s[i + 1..]);
      FieldsCount(s[i + 1..]);
    }
  }

  /** No string produced contains a NUL. */
  lemma {:induction false} FieldsNulFree(s: seq<byte>)
    ensures forall k | 0 <= k < |Fields(s)| :: NulFree(Fields(s)[k])
    decreases |s|
  {
    var i := NulIndex(s);
    if i < |s| {
      FieldsNulFree(s[i + 1..]);
      var fs := Fields(s);
      assert fs == [s[..i]] + Fields(s[i + 1..]);
      forall k | 1 <= k < |fs|
        ensures fs[k] == Fields(s[i + 1..])[k - 1]
      {
      }
    }
  }

  /** The first NUL is where the prefix before it has none. */
  lemma {:induction false} NulIndexAt(s: seq<byte>, j: nat)
    requires j < |s| && s[j] == NUL
    requires NulFree(s[..j])
    ensures NulIndex(s) == j
    decreases j
  {
    if j > 0 {
      assert s[0] == s[..j][0];
      assert s[1..][..j - 1] == s[..j][1..];
      NulIndexAt(s[1..], j - 1);
    }
  }

  lemma ConsAppend<T>(x: T, p: seq<T>, q: seq<T>)
    ensures [x] + (p + q) == ([x] + p) + q
  {
  }

  /** Splitting at a string boundary splits the strings. */
  lemma {:induction false} FieldsAppend(a: seq<byte>, b: seq<byte>)
    requires Terminated(a)
    ensures Fields(a + b) == Fields(a) + Fields(b)
    decreases |a|
  {
    if a != [] {
      var i := NulIndex(a);
      assert a[..|a|][|a| - 1] == NUL;
      assert i < |a|;
      var ab := a + b;
      assert ab[i] == NUL && ab[..i] == a[..i];
      NulIndexAt(ab, i);
      var a', ab' := a[i + 1..], ab[i + 1..];
      assert ab' == a' + b;
      assert a' == [] || a'[|a'| - 1] == a[|a| - 1];
      FieldsAppend(a', b);
      calc {
        Fields(ab);
        [a[..i]] + Fields(a' + b);
        [a[..i]] + (Fields(a') + Fields(b));
        { ConsAppend(a[..i], Fields(a'), Fields(b)); }
        ([a[..i]] + Fields(a')) + Fields(b);
        Fields(a) + Fields(b);
      }
    } else {
      assert a + b == b;
    }
  }

  /** One NUL-free string followed by its terminator decodes to itself. */
  lemma FieldsOfOne(b: seq<byte>)
    requires NulFree(b)
    ensures Fields(b + [NUL]) == [b]
  {
    var s := b + [NUL];
    assert s[..|b|] == b;
    NulIndexAt(s, |b|);
    assert s[|b| + 1..] == [];
  }

  /** Round trip: packing NUL-free strings and splitting the result gives
      the strings back, whatever unterminated bytes follow. */
  lemma {:induction false} FieldsPack(xs: seq<seq<byte>>, tail: seq<byte>)
    requires forall k | 0 <= k < |xs| :: NulFree(xs[k])
    requires NulFree(tail)
    ensures Fields(Pack(xs) + tail) == xs
    decreases |xs|
  {
    if xs == [] {
      NulFreeNoNul(tail);
    } else {
      var head := xs[0] + [NUL];
      assert Pack(xs) + tail == head + (Pack(xs[1..]) + tail);
      FieldsAppend(head, Pack(xs[1..]) + tail);
      FieldsOfOne(xs[0]);
      FieldsPack(xs[1..], tail);
    }
  }

  lemma ArgCountHeader(n: int, rest: seq<byte>)
    requires InInt32(n)
    ensures ArgCount(EncodeInt32LE(n) + rest) == n
    ensures (EncodeInt32LE(n) + rest)[INT_SIZE..] == rest
  {
    var hdr := EncodeInt32LE(n);
    var buf := hdr + rest;
    assert buf[0] == hdr[0] && buf[1] == hdr[1] && buf[2] == hdr[2] && buf[3] == hdr[3];
    DecodeEncodeInt32(n);
  }

  /** Encoding `argc = |xs|` and the packed strings, followed by any bytes at
      all (padding, further NULs), decodes to exactly `xs`: the count stops
      the walk at the last real string. */
  lemma ArgVectorRoundTrip(xs: seq<seq<byte>>, padding: seq<byte>)
    requires |xs| <= INT32_MAX
    requires forall k | 0 <= k < |xs| :: NulFree(xs[k])
    ensures ArgVector(EncodeInt32LE(|xs|) + (Pack(xs) + padding)) == xs
  {
    ArgCountHeader(|xs|, Pack(xs) + padding);
    PackedPrefix(xs, padding);
  }

  /** The strings of a packed area come first in its decoding, whatever follows. */
  lemma PackedPrefix(xs: seq<seq<byte>>, padding: seq<byte>)
    requires forall k | 0 <= k < |xs| :: NulFree(xs[k])
    ensures Take(Fields(Pack(xs) + padding), |xs|) == xs
  {
    FieldsAppend(Pack(xs), padding);
    FieldsPack(xs, []);
    assert Pack(xs) + [] == Pack(xs);
    var fs := Fields(Pack(xs) + padding);
    assert fs == xs + Fields(padding);
    assert fs[..|xs|] == xs;
  }

  /** The decoding loop of `GetProcessArgs`, walking the payload byte by
      byte from just after the count. It stops when the count is used up or
      the fetched bytes are exhausted, whichever comes first. */
  method DecodeArgs(buf: seq<byte>) returns (argv: seq<seq<byte>>)
    requires |buf| >= INT_SIZE
    ensures argv == ArgVector(buf)
    ensures ArgCount(buf) <= 0 ==> argv == []
    ensures ArgCount(buf) > 0 ==>
              |argv| == if ArgCount(buf) < NulCount(buf[INT_SIZE..]) then ArgCount(buf) else NulCount(buf[INT_SIZE..])
    ensures forall k | 0 <= k < |argv| :: NulFree(argv[k])
  {
    var payload := buf[INT_SIZE..];
    var argc := ArgCount(buf);
    argv := [];
    var s, ps := 0, 0;
    while argc > 0 && s < |payload|
      invariant ps <= s <= |payload|
      invariant Terminated(payload[..ps])
      invariant NulFree(payload[ps..s])
      invariant argv == Fields(payload[..ps])
      invariant argc == ArgCount(buf) - |argv|
      invariant ArgCount(buf) > 0 ==> argc >= 0
      invariant ArgCount(buf) <= 0 ==> argv == []
      decreases |payload| - s
    {
      WalkStep(payload, ps, s);
      if payload[s] == NUL {
        argv := argv + [payload[ps..s]];
        ps := s + 1;
        argc := argc - 1;
      }
      s := s + 1;
    }
    assert s == |payload| ==> payload[ps..s] == payload[ps..];
    StopCondition(payload, ps, ArgCount(buf), argv);
  }

  /** One byte of the walk: a NUL completes the string that began at `ps`,
      any other byte extends it. */
  lemma WalkStep(payload: seq<byte>, ps: nat, s: nat)
    requires ps <= s < |payload|
    requires Terminated(payload[..ps])
    requires NulFree(payload[ps..s])
    ensures payload[s] == NUL ==>
              && Terminated(payload[..s + 1])
              && Fields(payload[..s + 1]) == Fields(payload[..ps]) + [payload[ps..s]]
              && NulFree(payload[s + 1..s + 1])
    ensures payload[s] != NUL ==> NulFree(payload[ps..s + 1])
  {
    if payload[s] == NUL {
      assert payload[..s + 1] == payload[..ps] + (payload[ps..s] + [NUL]);
      FieldsAppend(payload[..ps], payload[ps..s] + [NUL]);
      FieldsOfOne(payload[ps..s]);
    } else {
      assert payload[ps..s + 1] == payload[ps..s] + [payload[s]];
    }
  }

  /** Why either stop condition of the walk yields the reference decoding:
      the strings emitted so far are those of a terminated prefix, and
      either the count is used up or no NUL remains after that prefix. */
  lemma StopCondition(payload: seq<byte>, ps: nat, argc: int, argv: seq<seq<byte>>)
    requires ps <= |payload|
    requires Terminated(payload[..ps])
    requires argv == Fields(payload[..ps])
    requires (argc <= 0 && argv == []) || (argc > 0 && |argv| == argc) || (|argv| <= argc && NulFree(payload[ps..]))
    ensures argv == Take(Fields(payload), argc)
    ensures argc > 0 ==> |argv| == if argc < NulCount(payload) then argc else NulCount(payload)
    ensures forall k | 0 <= k < |argv| :: NulFree(argv[k])
  {
    assert payload == payload[..ps] + payload[ps..];
    FieldsAppend(payload[..ps], payload[ps..]);
    if NulFree(payload[ps..]) {
      NulFreeNoNul(payload[ps..]);
      assert Fields(payload[ps..]) == [];
    }
    FieldsCount(payload);
    FieldsNulFree(payload);
    var fs := Fields(payload);
    assert forall k | 0 <= k < |argv| :: argv[k] == fs[k];
  }

  /** `GetProcessArgs` after the ARGMAX query: `fetched` is what the kernel
      wrote into the clamped buffer, or `None` when the fetch failed. */
  method GetProcessArgs(argsize: nat, fetched: Option<seq<byte>>) returns (r: Result<seq<seq<byte>>, string>)
    requires fetched.Some? ==> INT_SIZE <= |fetched.value| <= ClampArgSize(argsize)
    ensures fetched.None? <==> r.Failure?
    ensures r.Failure? ==> r.error == FETCH_ERROR
    ensures r.Success? ==> r.value == ArgVector(fetched.value)
  {
    match fetched
    case None =>
      r := Failure(FETCH_ERROR);
    case Some(buf) =>
      var argv := DecodeArgs(buf);
      r := Success(argv);
  }
}
