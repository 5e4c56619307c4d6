/** The in-order stream of the ONNX Loop drivers: what the host enqueues, what the device
    makes of it later, and the reference semantics of Loop. */
module LoopStream {
  /** What a loop body computes: from the iteration number and the condition it reads and
      the carried state, the condition it writes and the new carried state. */
  type Body<!M> = (int, bool, M) -> (bool, M)

  datatype Command<!M> =
    | CopyIter(buf: nat, index: nat)       // async copy of one pinned entry into iter_dev
    | Kernel(i: nat, body: Body<M>)        // the body enqueued for iteration i

  /** `*iter_dev`, the host-mapped condition byte, the carried buffers. */
  datatype Device<M> = Device(iter: int, cond: bool, mem: M)

  /** Pinned host buffers by identity. */
  type Pinned = map<nat, seq<int>>

  ghost predicate Readable(host: Pinned, buf: nat, index: nat) {
    buf in host && index < |host[buf]| && host[buf][index] == index
  }

  function Execute<M>(host: Pinned, d: Device<M>, c: Command<M>): Device<M> {
    match c
    case CopyIter(b, k) => d.(iter := if b in host && k < |host[b]| then host[b][k] else -1)
    case Kernel(_, f) => var r := f(d.iter, d.cond, d.mem); d.(cond := r.0, mem := r.1)
  }

  /** The device once everything enqueued has run. */
  ghost function Drain<M>(host: Pinned, d: Device<M>, q: seq<Command<M>>): Device<M>
    decreases |q|
  {
    if q == [] then d else Drain(host, Execute(host, d, q[0]), q[1..])
  }

  /** Every pending copy will read an allocated pinned entry that holds its own index. */
  ghost predicate CopiesReadable<M>(host: Pinned, q: seq<Command<M>>) {
    forall k | 0 <= k < |q| && q[k].CopyIter? :: Readable(host, q[k].buf, q[k].index)
  }

  /** The iteration number in the device slot after the queue has run. */
  ghost function FinalIter<M>(iter: int, q: seq<Command<M>>): int
    decreases |q|
  {
    if q == [] then iter
    else FinalIter(if q[0].CopyIter? then q[0].index else iter, q[1..])
  }

  /** Every pending body will read its own iteration number. */
  ghost predicate SeesOwn<M>(iter: int, q: seq<Command<M>>)
    decreases |q|
  {
    q == [] ||
    if q[0].CopyIter? then SeesOwn(q[0].index, q[1..])
    else iter == q[0].i && SeesOwn(iter, q[1..])
  }

  ghost function Kernels<M>(q: seq<Command<M>>): nat {
    if q == [] then 0 else (if q[0].Kernel? then 1 else 0) + Kernels(q[1..])
  }

  lemma {:induction false} FinalIterAppend<M>(iter: int, q: seq<Command<M>>, c: Command<M>)
    ensures FinalIter(iter, q + [c]) == if c.CopyIter? then c.index else FinalIter(iter, q)
    ensures SeesOwn(iter, q) && (c.CopyIter? || FinalIter(iter, q) == c.i) ==> SeesOwn(iter, q + [c])
    decreases |q|
  {
    if q == [] {
      assert q + [c] == [c] && [c][1..] == [];
    } else {
      assert (q + [c])[1..] == q[1..] + [c] && (q + [c])[0] == q[0];
      FinalIterAppend(if q[0].CopyIter? then q[0].index else iter, q[1..], c);
    }
  }

  lemma {:induction false} Enqueued<M>(host: Pinned, d: Device<M>, q: seq<Command<M>>, c: Command<M>)
    ensures Drain(host, d, q + [c]) == Execute(host, Drain(host, d, q), c)
    ensures FinalIter(d.iter, q + [c]) == if c.CopyIter? then c.index else FinalIter(d.iter, q)
    ensures SeesOwn(d.iter, q) && (c.CopyIter? || FinalIter(d.iter, q) == c.i) ==> SeesOwn(d.iter, q + [c])
    ensures Kernels(q + [c]) == Kernels(q) + if c.Kernel? then 1 else 0
    decreases |q|
  {
    FinalIterAppend(d.iter, q, c);
    if q == [] {
      assert q + [c] == [c] && [c][1..] == [];
    } else {
      assert (q + [c])[1..] == q[1..] + [c] && (q + [c])[0] == q[0];
      Enqueued(host, Execute(host, d, q[0]), q[1..], c);
    }
  }

  /** Only the buffers the pending copies read matter. */
  lemma {:induction false} DrainIgnoresOthers<M>(host: Pinned, host': Pinned, d: Device<M>, q: seq<Command<M>>)
    requires CopiesReadable(host, q)
    requires forall k | 0 <= k < |q| && q[k].CopyIter? :: q[k].buf in host' && host'[q[k].buf] == host[q[k].buf]
    ensures Drain(host', d, q) == Drain(host, d, q) && CopiesReadable(host', q)
    decreases |q|
  {
    if q != [] {
      assert q[0].CopyIter? ==> Readable(host, q[0].buf, q[0].index);
      assert forall k | 0 <= k < |q[1..]| :: q[1..][k] == q[k + 1];
      DrainIgnoresOthers(host, host', Execute(host, d, q[0]), q[1..]);
      assert forall k | 0 < k < |q| :: q[k] == q[1..][k - 1];
    }
  }

  /** A body that, told to go on, says to go on. */
  ghost predicate KeepsTrue<M(!new)>(f: Body<M>) {
    forall i: nat, m :: f(i, true, m).0
  }

  /** No unfinished body can turn the condition false: those enqueued keep it true, and if
      there is one, it is true now. */
  ghost predicate CondQuiet<M(!new)>(d: Device<M>, q: seq<Command<M>>) {
    (forall k | 0 <= k < |q| && q[k].Kernel? :: KeepsTrue(q[k].body) && d.cond)
  }

  lemma Idle<M(!new)>(host: Pinned, d: Device<M>)
    ensures var none: seq<Command<M>> := [];
            Drain(host, d, none) == d && SeesOwn(d.iter, none) && Kernels(none) == 0 && CondQuiet(d, none)
  {
  }

  // ---- the condition byte ----

  /** A queue as the driver leaves it: copies read what they should, bodies see their number. */
  ghost predicate Driven<M>(host: Pinned, d: Device<M>, q: seq<Command<M>>) {
    CopiesReadable(host, q) && SeesOwn(d.iter, q)
  }

  lemma DrivenStep<M>(host: Pinned, d: Device<M>, q: seq<Command<M>>)
    requires Driven(host, d, q) && q != []
    ensures Driven(host, Execute(host, d, q[0]), q[1..]) && (q[0].Kernel? ==> d.iter == q[0].i)
    ensures forall k | 0 <= k < |q[1..]| :: q[1..][k] == q[k + 1]
  {
    if q[0].CopyIter? { assert Readable(host, q[0].buf, q[0].index); }
  }

  /** Then the host may store `true` into the byte at any moment without any body, pending
      or later, reading anything else. */
  lemma {:induction false} HostStoreIsHarmless<M(!new)>(host: Pinned, d: Device<M>, q: seq<Command<M>>)
    requires Driven(host, d, q) && CondQuiet(d, q)
    ensures Drain(host, d.(cond := true), q) == Drain(host, d, q).(cond := true)
    ensures CondQuiet(d.(cond := true), q)
    decreases |q|
  {
    if q != [] {
      DrivenStep(host, d, q);
      if q[0].Kernel? { assert KeepsTrue(q[0].body) && d.cond; }
      HostStoreIsHarmless(host, Execute(host, d, q[0]), q[1..]);
    }
  }

  lemma {:induction false} QuietCond<M(!new)>(host: Pinned, d: Device<M>, q: seq<Command<M>>)
    requires Driven(host, d, q) && CondQuiet(d, q)
    ensures Drain(host, d, q).cond == d.cond
    decreases |q|
  {
    if q != [] {
      DrivenStep(host, d, q);
      if q[0].Kernel? { assert KeepsTrue(q[0].body) && d.cond; }
      QuietCond(host, Execute(host, d, q[0]), q[1..]);
    }
  }

  /** Pending bodies are all those of one earlier loop. */
  ghost predicate LeftBy<M>(f: Body<M>, q: seq<Command<M>>) {
    forall k | 0 <= k < |q| && q[k].Kernel? :: q[k].body == f
  }

  /** The condition the next loop's first body finds, when the store comes now. */
  ghost function FoundCond<M>(host: Pinned, d: Device<M>, q: seq<Command<M>>): bool {
    Drain(host, d.(cond := true), q).cond
  }

  lemma {:induction false} KeptTrueIsFound<M(!new)>(f: Body<M>, host: Pinned, d: Device<M>, q: seq<Command<M>>)
    requires KeepsTrue(f) && Driven(host, d, q) && LeftBy(f, q) && d.cond
    ensures Drain(host, d, q).cond
    decreases |q|
  {
    if q != [] {
      DrivenStep(host, d, q);
      if q[0].Kernel? { assert q[0].body == f && f(d.iter, true, d.mem).0; }
      KeptTrueIsFound(f, host, Execute(host, d, q[0]), q[1..]);
    }
  }

  /** The copy and the body of one trip, left behind: if the body ends its loop, it undoes the store. */
  lemma StoreLost<M>(f: Body<M>, i: nat, m: M)
    requires !f(i, true, m).0
    ensures exists host: Pinned, d: Device<M>, q: seq<Command<M>> ::
              Driven(host, d, q) && LeftBy(f, q) && !FoundCond(host, d, q)
  {
    var host: Pinned := map[1 := seq(i + 1, k => k)];
    var d, q: seq<Command<M>> := Device(0, true, m), [CopyIter(1, i), Kernel(i, f)];
    assert Readable(host, 1, i) && q[1..] == [Kernel(i, f)] && q[1..][1..] == [];
    var d1 := Execute(host, d, q[0]);
    assert d1 == Device(i, true, m);
    assert Drain(host, d, q) == Drain(host, d1, q[1..]) == Drain(host, Execute(host, d1, q[1]), []);
    assert SeesOwn(i, q[1..]);
    assert Driven(host, d, q) && LeftBy(f, q) && !FoundCond(host, d, q);
  }

  /** A store that is not ordered against the stream reaches the next loop, whatever of the earlier
      loop with body `f` is still pending, exactly when `f` never ends its loop. */
  lemma StoreReachesNextLoopIff<M(!new)>(f: Body<M>)
    ensures KeepsTrue(f) <==> forall host: Pinned, d: Device<M>, q: seq<Command<M>> |
                                Driven(host, d, q) && LeftBy(f, q) :: FoundCond(host, d, q)
  {
    if KeepsTrue(f) {
      forall host: Pinned, d: Device<M>, q: seq<Command<M>> | Driven(host, d, q) && LeftBy(f, q)
        ensures FoundCond(host, d, q)
      {
        KeptTrueIsFound(f, host, d.(cond := true), q);
      }
    } else {
      var i: nat, m :| !f(i, true, m).0;
      StoreLost(f, i, m);
    }
  }

  // ---- ONNX Loop ----

  /** Reference semantics: run the body while the condition holds and trips are left. The
      first component counts the bodies. */
  ghost function OnnxLoop<M>(f: Body<M>, trips: nat, i: nat, cond: bool, mem: M): (r: (nat, bool, M))
    ensures r.0 <= if i <= trips then trips - i else 0
    decreases trips - i
  {
    if i >= trips || !cond then (0, cond, mem)
    else
      var s := f(i, cond, mem);
      var rest := OnnxLoop(f, trips, i + 1, s.0, s.1);
      (rest.0 + 1, rest.1, rest.2)
  }

  /** A loop whose first body is started whatever the condition says, as the driver does once the
      initial condition has been checked on the host. */
  ghost function LoopFrom<M>(f: Body<M>, trips: nat, cond: bool, mem: M): (nat, bool, M) {
    if trips == 0 then (0, cond, mem)
    else
      var s := f(0, cond, mem);
      var rest := OnnxLoop(f, trips, 1, s.0, s.1);
      (rest.0 + 1, rest.1, rest.2)
  }

  /** Started with the condition true, it is the ONNX loop. */
  lemma LoopFromTrue<M>(f: Body<M>, trips: nat, mem: M)
    ensures LoopFrom(f, trips, true, mem) == OnnxLoop(f, trips, 0, true, mem)
  {
  }

  /** The loop can be unrolled at the end: `n` bodies, then one more if it may go on. */
  ghost function Prefix<M>(f: Body<M>, n: nat, cond: bool, mem: M): (bool, M) {
    if n == 0 then (cond, mem)
    else var p := Prefix(f, n - 1, cond, mem); f(n - 1, p.0, p.1)
  }

  lemma {:induction false} LoopFromPrefix<M>(f: Body<M>, trips: nat, n: nat, cond: bool, mem: M)
    requires 0 < n <= trips && forall k | 0 < k < n :: Prefix(f, k, cond, mem).0
    ensures var p := Prefix(f, n, cond, mem); var r := OnnxLoop(f, trips, n, p.0, p.1);
            LoopFrom(f, trips, cond, mem) == (r.0 + n, r.1, r.2)
  {
    if n > 1 {
      LoopFromPrefix(f, trips, n - 1, cond, mem);
      assert Prefix(f, n - 1, cond, mem).0;
    } else {
      assert Prefix(f, 0, cond, mem) == (cond, mem);
    }
  }

  lemma {:induction false} KeptTruePrefix<M(!new)>(f: Body<M>, n: nat, mem: M)
    requires KeepsTrue(f)
    ensures Prefix(f, n, true, mem).0
  {
    if n > 0 { KeptTruePrefix(f, n - 1, mem); }
  }

  /** If every body keeps the condition true, the loop is `trips` bodies in a row: what the
      counted driver does is then what the dynamic one does. */
  lemma KeptTrueRunsAll<M(!new)>(f: Body<M>, trips: nat, mem: M)
    requires KeepsTrue(f)
    ensures OnnxLoop(f, trips, 0, true, mem) == (trips, true, Prefix(f, trips, true, mem).1)
  {
    forall k | 0 <= k <= trips ensures Prefix(f, k, true, mem).0 { KeptTruePrefix(f, k, mem); }
    if trips > 0 { LoopFromPrefix(f, trips, trips, true, mem); }
    LoopFromTrue(f, trips, mem);
  }

  /** Where the driver's loop stops, the reference loop stops. */
  lemma LoopIsPrefix<M>(f: Body<M>, trips: nat, i: nat, cond: bool, mem: M)
    requires i <= trips && forall k | 0 < k < i :: Prefix(f, k, cond, mem).0
    requires i == trips || (i > 0 && !Prefix(f, i, cond, mem).0)
    ensures LoopFrom(f, trips, cond, mem) == (i, Prefix(f, i, cond, mem).0, Prefix(f, i, cond, mem).1)
  {
    if i > 0 { LoopFromPrefix(f, trips, i, cond, mem); }
  }

  /** After `i` bodies, all but the last of which kept the condition, this is the carried state. */
  ghost predicate OnTrack<M>(f: Body<M>, i: nat, cond0: bool, mem0: M, cond: bool, mem: M) {
    Prefix(f, i, cond0, mem0) == (cond, mem) && forall k | 0 < k < i :: Prefix(f, k, cond0, mem0).0
  }

  lemma OnTrackStep<M>(f: Body<M>, i: nat, cond0: bool, mem0: M, cond: bool, mem: M)
    requires OnTrack(f, i, cond0, mem0, cond, mem) && (i == 0 || cond)
    ensures var r := f(i, cond, mem); OnTrack(f, i + 1, cond0, mem0, r.0, r.1)
  {
  }

  lemma OnTrackStarts<M>(f: Body<M>, cond0: bool, mem0: M)
    ensures OnTrack(f, 0, cond0, mem0, cond0, mem0)
  {
  }

  lemma OnTrackEnds<M>(f: Body<M>, trips: nat, i: nat, cond0: bool, mem0: M, cond: bool, mem: M)
    requires OnTrack(f, i, cond0, mem0, cond, mem) && i <= trips && (i == trips || (i > 0 && !cond))
    ensures LoopFrom(f, trips, cond0, mem0) == (i, cond, mem)
  {
    LoopIsPrefix(f, trips, i, cond0, mem0);
  }

  lemma FalseConditionRunsNothing<M>(f: Body<M>, trips: nat, mem: M)
    ensures OnnxLoop(f, trips, 0, false, mem) == (0, false, mem)
  {
  }
}
