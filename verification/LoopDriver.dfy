/** The ONNX Loop drivers: buffer setup, the counted and the dynamic loop, over one
    in-order stream that the device works off at its own pace. */
module LoopDriver {
  import opened Environment
  import opened MachineWord
  import opened LoopStream

  /** Bytes requested for the pinned staging array: `new_cap * sizeof(int64_t)` in `size_t`. */
  function StagingBytes(trips: nat): nat {
    trips * 8 % TWO64
  }

  /** Trip counts whose staging array really gets the size it needs. */
  const MAX_TRIPS: nat := TWO64 / 8 - 1

  /** The request has room for all entries exactly up to 2^61 - 1 trips; 2^61 asks for 0. */
  lemma StagingExact(trips: nat)
    ensures StagingBytes(trips) / 8 == trips <==> trips <= MAX_TRIPS
    ensures StagingBytes(trips) / 8 <= trips
    ensures trips <= MAX_TRIPS ==> StagingBytes(trips) == trips * 8
    ensures StagingBytes(MAX_TRIPS + 1) == 0
  {
    if trips > MAX_TRIPS {
      assert StagingBytes(trips) < TWO64 <= trips * 8;
    } else {
      assert StagingBytes(trips) == trips * 8;
    }
  }

  datatype LoopCall<!M> = LoopCall(dynamic: bool, body: Body<M>, codes: nat -> int, trips: int, condInit: bool)

  /** Driver calls that may be refused. */
  datatype DriverCall =
    | PinStaging(bytes: nat) | DeviceIter | PinCond | CondAddress | NewEvent
    | EnqueueCopy(i: nat) | RecordEvent | WaitEvent

  /** How a loop ends: its bodies were called in turn, each but the last without failing, and every driver
      call was granted, so that the last body's code is the result; or the last driver call was refused,
      after bodies that did not fail, and the result is -1. */
  ghost predicate Ended(called0: seq<int>, called: seq<int>, asks0: seq<Ask<DriverCall>>, asks: seq<Ask<DriverCall>>,
                        codes: nat -> int, rc: int)
  {
    && called0 <= called
    && var n := |called| - |called0|;
       && called == called0 + Numbers(n) && (forall k: nat | k < n - 1 :: codes(k) == 0)
       && if AllGranted(asks0, asks) then rc == if n == 0 then 0 else codes(n - 1)
          else LastRefused(asks0, asks) && rc == -1 && (n > 0 ==> codes(n - 1) == 0)
  }

  /** What one of several loop calls returns and does. */
  ghost predicate CallEnded<M>(c: LoopCall<M>, called0: seq<int>, called: seq<int>, asks0: seq<Ask<DriverCall>>,
                               asks: seq<Ask<DriverCall>>, rc: int)
  {
    if c.trips < 0 || !c.condInit then rc == (if c.trips < 0 then -1 else 0) && called == called0 && asks == asks0
    else Ended(called0, called, asks0, asks, c.codes, rc) && |called| <= |called0| + c.trips
  }

  class LoopRuntime<M(!new)> {
    // pinned host memory by identity, and what the session keeps of it
    var pinned: Pinned
    var cpuBuf: nat      // 0 is null
    var capacity: nat
    var iterDev: bool
    var condHost: bool
    var event: bool

    var dev: Device<M>
    var stream: seq<Command<M>>
    /** Each executed body's iteration and the number it found in the device slot. */
    ghost var seen: seq<(int, int)>
    /** What was asked of the driver so far, and the trips whose body function was called. */
    ghost var asks: seq<Ask<DriverCall>>
    ghost var called: seq<int>

    ghost predicate StagingOk()
      reads this`pinned, this`cpuBuf, this`capacity
    {
      && 0 !in pinned
      && (if cpuBuf == 0 then capacity == 0
          else cpuBuf in pinned && |pinned[cpuBuf]| >= capacity
               && forall j | 0 <= j < capacity :: pinned[cpuBuf][j] == j)
    }

    /** In every interleaving so far: bodies found their own number, and those still to come
        will, because every pending copy reads a live entry holding its index. */
    ghost predicate Valid()
      reads this`pinned, this`cpuBuf, this`capacity, this`dev, this`stream, this`seen
    {
      && StagingOk()
      && CopiesReadable(pinned, stream)
      && (forall k | 0 <= k < |stream| && stream[k].CopyIter? :: stream[k].buf == cpuBuf)
      && SeesOwn(dev.iter, stream)
      && forall k | 0 <= k < |seen| :: seen[k].0 == seen[k].1
    }

    ghost predicate Quiet()
      reads this`dev, this`stream
    {
      CondQuiet(dev, stream)
    }

    /** The device once it has caught up. */
    ghost function Settled(): Device<M>
      reads this`pinned, this`dev, this`stream
    {
      Drain(pinned, dev, stream)
    }

    /** Bodies run or enqueued so far. */
    ghost function Bodies(): nat
      reads this`stream, this`seen
    {
      |seen| + Kernels(stream)
    }

    constructor (mem: M)
      ensures Valid() && Quiet() && stream == [] && seen == [] && asks == [] && called == [] && Settled().mem == mem
    {
      pinned, cpuBuf, capacity := map[], 0, 0;
      iterDev, condHost, event := false, false, false;
      dev, stream, seen, asks, called := Device(0, false, mem), [], [], [], [];
    }

    // ---- device ----

    /** The device executes the oldest command. */
    method DeviceStep()
      requires Valid() && stream != []
      modifies this`dev, this`stream, this`seen
      ensures Valid() && stream == old(stream)[1..]
      ensures Settled() == old(Settled()) && Bodies() == old(Bodies())
      ensures old(Quiet()) ==> Quiet()
      ensures FinalIter(dev.iter, stream) == old(FinalIter(dev.iter, stream))
    {
      var c := stream[0];
      assert c.CopyIter? ==> Readable(pinned, c.buf, c.index);
      if c.Kernel? { seen := seen + [(c.i, dev.iter)]; }
      assert c.Kernel? && Quiet() ==> KeepsTrue(c.body);
      dev := Execute(pinned, dev, c);
      stream := stream[1..];
      assert forall k | 0 <= k < |stream| :: stream[k] == old(stream)[k + 1];
    }

    /** Between any two host actions the device may get any distance. */
    method DeviceRuns()
      requires Valid()
      modifies this`dev, this`stream, this`seen
      ensures Valid() && Settled() == old(Settled()) && Bodies() == old(Bodies())
      ensures old(Quiet()) ==> Quiet()
      ensures FinalIter(dev.iter, stream) == old(FinalIter(dev.iter, stream))
    {
      while stream != []
        invariant Valid() && Settled() == old(Settled()) && Bodies() == old(Bodies())
        invariant old(Quiet()) ==> Quiet()
        invariant FinalIter(dev.iter, stream) == old(FinalIter(dev.iter, stream))
        decreases |stream|
      {
        if * { break; }
        DeviceStep();
      }
    }

    /** A synchronisation returns when everything enqueued has run. */
    method StreamSynchronize()
      requires Valid()
      modifies this`dev, this`stream, this`seen
      ensures Valid() && stream == [] && dev == Settled() == old(Settled()) && Bodies() == old(Bodies())
      ensures Quiet()
    {
      while stream != []
        invariant Valid() && Settled() == old(Settled()) && Bodies() == old(Bodies())
        decreases |stream|
      {
        DeviceStep();
      }
    }

    method Enqueue(c: Command<M>)
      requires Valid()
      requires if c.CopyIter? then c.buf == cpuBuf && Readable(pinned, c.buf, c.index) else FinalIter(dev.iter, stream) == c.i
      modifies this`stream
      ensures Valid() && stream == old(stream) + [c]
      ensures Settled() == Execute(pinned, old(Settled()), c)
      ensures FinalIter(dev.iter, stream) == if c.CopyIter? then c.index else c.i
      ensures Bodies() == old(Bodies()) + if c.Kernel? then 1 else 0
      ensures old(Quiet()) && (c.Kernel? ==> KeepsTrue(c.body) && dev.cond) ==> Quiet()
    {
      Enqueued(pinned, dev, stream, c);
      stream := stream + [c];
    }

    // ---- setup ----

    static lemma {:induction false} FreshBuffer(used: set<nat>) returns (b: nat)
      ensures b != 0 && forall u | u in used :: u < b
    {
      if used == {} {
        b := 1;
      } else {
        var u :| u in used;
        assert used == (used - {u}) + {u};
        var c := FreshBuffer(used - {u});
        b := if u < c then c else u + 1;
      }
    }

    /** A call whose answer is all that matters. */
    method AskFor(call: DriverCall) returns (granted: bool)
      modifies this`asks
      ensures asks == old(asks) + [Ask(call, granted)]
      ensures Worked([call], old(asks), asks) && (Refused(old(asks), asks) <==> !granted)
    {
      granted := *;
      WorkedOne(asks, Ask(call, granted));
      asks := asks + [Ask(call, granted)];
    }

    /** `hipHostMalloc` of the staging array: refuses, or pins fresh memory of `bytes`. */
    method PinHost(bytes: nat) returns (buf: nat)
      requires Valid()
      modifies this`pinned, this`asks
      ensures Worked([PinStaging(bytes)], old(asks), asks) && (Refused(old(asks), asks) <==> buf == 0)
      ensures buf == 0 ==> pinned == old(pinned)
      ensures buf != 0 ==> buf !in old(pinned) && pinned.Keys == old(pinned).Keys + {buf} && |pinned[buf]| == bytes / 8
      ensures forall b | b in old(pinned) :: b in pinned && pinned[b] == old(pinned)[b]
      ensures Valid() && Settled() == old(Settled())
    {
      var granted := AskFor(PinStaging(bytes));
      if !granted { return 0; }
      ghost var unused := FreshBuffer(pinned.Keys);
      assert unused != 0 && unused !in pinned;
      buf :| buf != 0 && buf !in pinned;
      var garbage: seq<int> :| |garbage| == bytes / 8 by { assert |seq(bytes / 8, _ => 0)| == bytes / 8; }
      DrainIgnoresOthers(pinned, pinned[buf := garbage], dev, stream);
      pinned := pinned[buf := garbage];
    }

    /** Copies the entries already there and numbers the rest: `new_arr[i] = i`. */
    method FillStaging(buf: nat, oldCap: nat, newCap: nat)
      requires Valid() && buf in pinned && buf != cpuBuf && oldCap == capacity <= newCap
      requires |pinned[buf]| == newCap
      modifies this`pinned
      ensures Valid() && Settled() == old(Settled())
      ensures buf in pinned && |pinned[buf]| == newCap && forall j | 0 <= j < newCap :: pinned[buf][j] == j
    {
      var entries := pinned[buf];
      if cpuBuf != 0 && oldCap > 0 {
        entries := pinned[cpuBuf][..oldCap] + entries[oldCap..];
      }
      for i := oldCap to newCap
        invariant |entries| == newCap && forall j | 0 <= j < i :: entries[j] == j
      {
        entries := entries[i := i];
      }
      DrainIgnoresOthers(pinned, pinned[buf := entries], dev, stream);
      pinned := pinned[buf := entries];
    }

    lemma NoCopyWithoutStaging()
      requires Valid() && cpuBuf == 0
      ensures forall k | 0 <= k < |stream| :: !stream[k].CopyIter?
    {
    }

    /** Waits for the copies that still read the old array, frees it and takes the new one. */
    method SwapStaging(newBuf: nat, trips: nat)
      requires Valid() && newBuf != 0 && newBuf != cpuBuf && newBuf in pinned && |pinned[newBuf]| == trips
      requires forall j | 0 <= j < trips :: pinned[newBuf][j] == j
      modifies this`pinned, this`cpuBuf, this`capacity, this`dev, this`stream, this`seen
      ensures Valid() && Settled() == old(Settled()) && Bodies() == old(Bodies())
      ensures old(Quiet()) ==> Quiet()
      ensures capacity == trips && cpuBuf == newBuf
    {
      hide Drain, SeesOwn, FinalIter, Kernels, CondQuiet;
      if cpuBuf != 0 {
        StreamSynchronize();
        pinned := pinned - {cpuBuf};
        Idle(pinned, dev);
      } else {
        NoCopyWithoutStaging();
        DrainIgnoresOthers(pinned, pinned, dev, stream);
      }
      cpuBuf, capacity := newBuf, trips;
    }

    /** Grows the staging array: pin, fill, wait for the copies that still read the old one,
        free it. A refusal keeps the old array. */
    method GrowStaging(trips: nat) returns (ok: bool)
      requires Valid() && capacity < trips <= MAX_TRIPS
      modifies this
      ensures Valid() && Settled() == old(Settled()) && Bodies() == old(Bodies())
      ensures old(Quiet()) ==> Quiet()
      ensures if ok then capacity == trips && cpuBuf != 0 else capacity == old(capacity) && cpuBuf == old(cpuBuf)
      ensures Worked([PinStaging(trips * 8)], old(asks), asks) && (Refused(old(asks), asks) <==> !ok) && called == old(called)
      ensures iterDev == old(iterDev) && condHost == old(condHost) && event == old(event)
    {
      hide Drain, SeesOwn, FinalIter, Kernels, CondQuiet, StagingBytes, Worked, Refused;
      StagingExact(trips);
      var newBuf := PinHost(StagingBytes(trips));
      if newBuf == 0 { return false; }
      DeviceRuns();
      FillStaging(newBuf, capacity, trips);
      DeviceRuns();
      SwapStaging(newBuf, trips);
      return true;
    }

    ghost function GrowCalls(trips: int): seq<DriverCall>
      reads this`capacity
    {
      if trips > capacity then [PinStaging(trips * 8)] else []
    }

    ghost function CondCalls(): seq<DriverCall>
      reads this`condHost
    {
      if condHost then [] else [PinCond, CondAddress]
    }

    /** The calls of a setup that nobody refuses. */
    ghost function SetupCalls(trips: int): seq<DriverCall>
      reads this`capacity, this`iterDev, this`condHost, this`event
    {
      GrowCalls(trips) + (if iterDev then [] else [DeviceIter]) + CondCalls() + (if event then [] else [NewEvent])
    }

    /** The condition byte is unpinned again when the device has no address for it. */
    method EnsureCond() returns (ok: bool)
      modifies this`condHost, this`asks
      ensures Worked(old(CondCalls()), old(asks), asks) && (Refused(old(asks), asks) <==> !ok)
      ensures ok == condHost && (old(condHost) ==> ok)
    {
      hide Worked, Refused;
      WorkedNone(asks);
      if !condHost {
        condHost := AskFor(PinCond);
        ghost var asked := asks;
        if condHost { condHost := AskFor(CondAddress); }
        WorkedMore([PinCond], [CondAddress], old(asks), asked, asks);
        assert [PinCond] + [CondAddress] == [PinCond, CondAddress];
      }
      ok := condHost;
    }

    /** The iteration number, the condition byte and the event, each asked for when it is missing. */
    method EnsureRest() returns (ok: bool)
      modifies this`iterDev, this`condHost, this`event, this`asks
      ensures Worked(old((if iterDev then [] else [DeviceIter]) + CondCalls() + (if event then [] else [NewEvent])),
                     old(asks), asks)
      ensures (Refused(old(asks), asks) <==> !ok) && ok == (iterDev && condHost && event)
      ensures (old(iterDev) ==> iterDev) && (old(condHost) ==> condHost) && (old(event) ==> event)
    {
      hide Worked, Refused;
      ghost var iterCalls: seq<DriverCall>, eventCalls: seq<DriverCall> := [], [];
      ghost var condCalls := CondCalls();
      WorkedNone(asks);
      if !iterDev { iterDev := AskFor(DeviceIter); iterCalls := [DeviceIter]; }
      ghost var asked := asks;
      WorkedNone(asked);
      ok := iterDev;
      if ok { ok := EnsureCond(); }
      WorkedMore(iterCalls, condCalls, old(asks), asked, asks);
      ghost var asked' := asks;
      WorkedNone(asked');
      if !event { eventCalls := [NewEvent]; }
      if ok && !event {
        event := AskFor(NewEvent);
        ok := event;
      }
      WorkedMore(iterCalls + condCalls, eventCalls, old(asks), asked', asks);
    }

    lemma SetupSplits(trips: int)
      ensures SetupCalls(trips)
           == GrowCalls(trips) + ((if iterDev then [] else [DeviceIter]) + CondCalls() + (if event then [] else [NewEvent]))
    {
    }

    /** `ensureLoopBuffers`. It makes the calls for what is missing, in order, up to the first refusal;
        whatever fails, the invariant holds on return and what was there or granted stays. */
    method EnsureLoopBuffers(trips: int) returns (rc: int)
      requires Valid() && trips <= MAX_TRIPS
      modifies this
      ensures Valid() && Settled() == old(Settled()) && Bodies() == old(Bodies()) && called == old(called)
      ensures old(Quiet()) ==> Quiet()
      ensures Worked(old(SetupCalls(trips)), old(asks), asks) && rc == if Refused(old(asks), asks) then -1 else 0
      ensures trips <= old(capacity) && old(iterDev) && old(condHost) && old(event) ==>
        rc == 0 && asks == old(asks) && capacity == old(capacity) && cpuBuf == old(cpuBuf) && pinned == old(pinned)
      ensures rc == 0 ==> iterDev && condHost && event && capacity == if trips > old(capacity) then trips else old(capacity)
      ensures (old(iterDev) ==> iterDev) && (old(condHost) ==> condHost) && (old(event) ==> event)
      ensures capacity == old(capacity) || capacity == trips > old(capacity)
    {
      hide Drain, SeesOwn, FinalIter, Kernels, CondQuiet, Worked, Refused;
      ghost var growCalls, restCalls := GrowCalls(trips), (if iterDev then [] else [DeviceIter]) + CondCalls()
                                                          + (if event then [] else [NewEvent]);
      SetupSplits(trips);
      WorkedNone(asks);
      var ok := true;
      if trips > 0 && trips > capacity { ok := GrowStaging(trips); }
      ghost var asked := asks;
      WorkedNone(asked);
      DeviceRuns();
      if ok { ok := EnsureRest(); }
      WorkedMore(growCalls, restCalls, old(asks), asked, asks);
      rc := if ok then 0 else -1;
    }

    // ---- the loop ----

    /** One trip up to the return of the body function: copy the iteration number, enqueue
        the body. A body that fails may or may not have enqueued its kernel. */
    method Trip(i: nat, body: Body<M>, code: int) returns (rc: int)
      requires Valid() && i < capacity && cpuBuf != 0
      modifies this`dev, this`stream, this`seen, this`asks, this`called
      ensures Valid()
      ensures asks == old(asks) + [Ask(EnqueueCopy(i), called != old(called))]
      ensures called == old(called) + if called == old(called) then [] else [i]
      ensures rc == if called == old(called) then -1 else code
      ensures called != old(called) && code == 0 ==>
        && Bodies() == old(Bodies()) + 1
        && var d := old(Settled()); var r := body(i, d.cond, d.mem);
           Settled() == Device(i, r.0, r.1)
      ensures old(Quiet()) && KeepsTrue(body) && old(Settled()).cond ==> Quiet()
    {
      hide Drain, SeesOwn, FinalIter, Kernels, Worked, Refused;
      var copied := AskFor(EnqueueCopy(i));
      if !copied { return -1; }
      Enqueue(CopyIter(cpuBuf, i));
      DeviceRuns();
      if Quiet() { QuietCond(pinned, dev, stream); }
      called := called + [i];
      var enqueued := *;
      if code == 0 || enqueued {
        Enqueue(Kernel(i, body));
        DeviceRuns();
      }
      return code;
    }

    /** `checkCond` of the dynamic policy: record and wait for the event, read the byte. */
    method CheckCond() returns (ok: bool, keepGoing: bool)
      requires Valid()
      modifies this`dev, this`stream, this`seen, this`asks
      ensures Valid() && Settled() == old(Settled()) && Bodies() == old(Bodies())
      ensures Worked([RecordEvent, WaitEvent], old(asks), asks) && (Refused(old(asks), asks) <==> !ok)
      ensures old(Quiet()) ==> Quiet()
      ensures ok ==> stream == [] && Quiet() && keepGoing == Settled().cond
    {
      hide Worked, Refused;
      ok := AskFor(RecordEvent);
      ghost var asked := asks;
      if ok { ok := AskFor(WaitEvent); }
      WorkedMore([RecordEvent], [WaitEvent], old(asks), asked, asks);
      assert [RecordEvent] + [WaitEvent] == [RecordEvent, WaitEvent];
      if !ok { return false, false; }
      StreamSynchronize();
      return true, dev.cond;
    }

    /** A trip and, in the dynamic driver, the look at the condition behind it. */
    method TripAndCheck(dynamic: bool, i: nat, body: Body<M>, code: int) returns (rc: int, keepGoing: bool)
      requires Valid() && i < capacity && cpuBuf != 0
      modifies this`dev, this`stream, this`seen, this`asks, this`called
      ensures Valid() && (called == old(called) || called == old(called) + [i])
      ensures AllGranted(old(asks), asks) || LastRefused(old(asks), asks)
      ensures LastRefused(old(asks), asks) ==> rc == -1 && (called != old(called) ==> code == 0)
      ensures AllGranted(old(asks), asks) ==> rc == code && called == old(called) + [i]
      ensures rc == 0 ==>
        && AllGranted(old(asks), asks) && Bodies() == old(Bodies()) + 1 && (dynamic ==> Quiet() && keepGoing == Settled().cond)
        && var d := old(Settled()); var r := body(i, d.cond, d.mem);
           Settled() == Device(i, r.0, r.1)
      ensures !dynamic ==> keepGoing
      ensures old(Quiet()) && KeepsTrue(body) && old(Settled()).cond ==> Quiet()
    {
      hide Drain, SeesOwn, FinalIter, Kernels, CondQuiet, Refused, Worked, AllGranted, LastRefused;
      keepGoing := true;
      NothingAsked(asks);
      rc := Trip(i, body, code);
      NextAsk(old(asks), old(asks), asks[|old(asks)|]);
      RefusedIsNotGranted(old(asks), asks);
      if rc != 0 || !dynamic { return; }
      ghost var asked := asks;
      var ok;
      ok, keepGoing := CheckCond();
      NextAsks([RecordEvent, WaitEvent], old(asks), asked, asks);
      RefusedIsNotGranted(old(asks), asks);
      if !ok { rc := -1; }
    }

    /** The iterations, once the buffers exist and the condition has been stored. */
    method RunTrips(dynamic: bool, body: Body<M>, codes: nat -> int, trips: nat, ghost calledBefore: seq<int>,
                    ghost asksBefore: seq<Ask<DriverCall>>)
      returns (rc: int)
      requires Valid() && trips <= capacity && (!dynamic ==> KeepsTrue(body)) && (Quiet() ==> Settled().cond)
      requires calledBefore == called && AllGranted(asksBefore, asks)
      modifies this`dev, this`stream, this`seen, this`asks, this`called
      ensures Valid() && Ended(calledBefore, called, asksBefore, asks, codes, rc)
      ensures |called| <= |old(called)| + trips
      ensures rc == 0 && (dynamic || old(Settled()).cond) ==>
        var r := LoopFrom(body, trips, old(Settled()).cond, old(Settled()).mem);
        Settled().mem == r.2 && Bodies() == old(Bodies()) + r.0 && |called| == |old(called)| + r.0
      ensures rc == 0 && !dynamic ==> |called| == |old(called)| + trips
      ensures old(Quiet()) && (rc == 0 || !dynamic) ==> Quiet()
    {
      hide Drain, SeesOwn, FinalIter, Kernels, CondQuiet, OnnxLoop, LoopFrom, Prefix, OnTrack, Refused, Worked,
           AllGranted, LastRefused;
      ghost var start := Settled();
      OnTrackStarts(body, start.cond, start.mem);
      var keepGoing, i := true, 0;
      while i < trips && keepGoing
        invariant Valid() && 0 <= i <= trips <= capacity && (!dynamic ==> keepGoing)
        invariant called == calledBefore + Numbers(i) && AllGranted(asksBefore, asks)
        invariant forall k: nat | k < i :: codes(k) == 0
        invariant old(Quiet()) ==> Quiet()
        invariant !dynamic && start.cond ==> Settled().cond
        invariant dynamic || start.cond ==>
          && OnTrack(body, i, start.cond, start.mem, Settled().cond, Settled().mem) && Bodies() == old(Bodies()) + i
          && if i == 0 then keepGoing else Settled().cond == keepGoing
        decreases trips - i, keepGoing
      {
        ghost var d, asked := Settled(), asks;
        rc, keepGoing := TripAndCheck(dynamic, i, body, codes(i));
        GrantedThen(asksBefore, asked, asks);
        assert Numbers(i + 1) == Numbers(i) + [i];
        if rc != 0 { return; }
        if dynamic || start.cond { OnTrackStep(body, i, start.cond, start.mem, d.cond, d.mem); }
        i := i + 1;
      }
      if dynamic || start.cond {
        OnTrackEnds(body, trips, i, start.cond, start.mem, Settled().cond, Settled().mem);
      }
      return 0;
    }

    /** The host store of the condition byte, whatever the stream is doing. */
    method StoreCond()
      requires Valid()
      modifies this`dev
      ensures Valid() && (Quiet() ==> Settled().cond)
      ensures old(Quiet()) ==> Quiet() && Settled() == old(Settled()).(cond := true)
    {
      hide Drain, SeesOwn, FinalIter, Kernels, CondQuiet;
      if Quiet() { HostStoreIsHarmless(pinned, dev, stream); }
      dev := dev.(cond := true);
      if Quiet() { QuietCond(pinned, dev, stream); }
    }

    /** `hipdnn_ep_run_counted_loop` (`dynamic == false`) and `hipdnn_ep_run_loop`. Loops may
        follow each other without any synchronisation in between. `found` is what the first body will
        find, when work pending from earlier calls has run after the host's store of the condition.
        On success the carried state, once the device has caught up, is that of a loop started
        there: what ONNX Loop defines, when the stored condition reached it. */
    method RunLoop(dynamic: bool, body: Body<M>, codes: nat -> int, trips: int, condInit: bool)
      returns (rc: int, ghost found: Device<M>)
      requires Valid() && trips <= MAX_TRIPS && (!dynamic ==> KeepsTrue(body))
      modifies this
      ensures Valid()
      ensures trips < 0 ==> rc == -1
      ensures trips >= 0 && !condInit ==> rc == 0
      ensures trips < 0 || !condInit ==>
        stream == old(stream) && dev == old(dev) && seen == old(seen) && asks == old(asks) && called == old(called)
      ensures trips >= 0 ==> Ended(old(called), called, old(asks), asks, codes, rc) && |called| <= |old(called)| + trips
      ensures rc == 0 && condInit && !dynamic ==> |called| == |old(called)| + trips
      ensures Refused(old(asks), asks) ==> rc == -1
      ensures trips >= 0 && !Refused(old(asks), asks) ==>
        rc == if |called| == |old(called)| then 0 else codes(|called| - |old(called)| - 1)
      ensures rc == 0 && trips >= 0 && condInit && (dynamic || found.cond) ==>
        var r := LoopFrom(body, trips, found.cond, found.mem);
        Settled().mem == r.2 && Bodies() == old(Bodies()) + r.0 && |called| == |old(called)| + r.0
      ensures old(Quiet()) && rc == 0 && trips >= 0 ==>
        var r := OnnxLoop(body, trips, 0, condInit, old(Settled()).mem);
        && Settled().mem == r.2 && Bodies() == old(Bodies()) + r.0 && |called| == |old(called)| + r.0
        && (condInit ==> found.cond && found.mem == old(Settled()).mem)
      ensures old(Quiet()) && (rc == 0 || !dynamic) ==> Quiet()
    {
      hide Drain, SeesOwn, FinalIter, Kernels, CondQuiet, OnnxLoop, LoopFrom, Refused, Worked, AllGranted, LastRefused;
      NothingAsked(asks);
      found := Settled();
      if trips < 0 { return -1, found; }
      if !condInit {
        FalseConditionRunsNothing(body, trips, found.mem);
        return 0, found;
      }
      ghost var setup := SetupCalls(trips);
      rc := EnsureLoopBuffers(trips);
      NextAsks(setup, old(asks), old(asks), asks);
      RefusedIsNotGranted(old(asks), asks);
      if rc != 0 { return; }
      StoreCond();
      found := Settled();
      rc := RunTrips(dynamic, body, codes, trips, called, old(asks));
      RefusedTells(old(asks), asks);
      LoopFromTrue(body, trips, found.mem);
    }

    /** Two loop calls, step by step, on buffers that exist. The first enqueues its first trip with body
        `f` and returns -1 because its event cannot be recorded; the device has not started yet. The
        second stores the condition and enqueues its only trip with body `g`. Its carried state is
        what ONNX Loop defines exactly when `g` does not notice the condition that `f` left. */
    method LoopAfterFailedLoop(f: Body<M>, g: Body<M>)
      requires Valid() && stream == [] && capacity > 0 && cpuBuf != 0
      modifies this
      ensures Valid() && stream == [CopyIter(cpuBuf, 0), Kernel(0, f), CopyIter(cpuBuf, 0), Kernel(0, g)]
      ensures var left := f(0, true, old(dev.mem));
              && Settled().mem == g(0, left.0, left.1).1
              && OnnxLoop(g, 1, 0, true, left.1).2 == g(0, true, left.1).1
              && (Settled().mem == OnnxLoop(g, 1, 0, true, left.1).2
                  <==> g(0, left.0, left.1).1 == g(0, true, left.1).1)
    {
      assert Readable(pinned, cpuBuf, 0);
      dev := dev.(cond := true);
      assert Settled() == dev;
      Enqueue(CopyIter(cpuBuf, 0));
      Enqueue(Kernel(0, f));
      ghost var left := f(0, true, old(dev.mem));
      assert Settled() == Device(0, left.0, left.1);
      ghost var before := dev;
      dev := dev.(cond := true);
      assert dev == before;
      Enqueue(CopyIter(cpuBuf, 0));
      Enqueue(Kernel(0, g));
    }

    /** Any sequence of loop calls, whatever each returns and with the device lagging behind
        by any amount, up to a final wait: every body found its own iteration number. `marks` and
        `answers` are the calls and answers so far before each loop and after the last. */
    method RunLoops(calls: seq<LoopCall<M>>)
      returns (rcs: seq<int>, ghost marks: seq<seq<int>>, ghost answers: seq<seq<Ask<DriverCall>>>)
      requires Valid()
      requires forall c | c in calls :: c.trips <= MAX_TRIPS && (!c.dynamic ==> KeepsTrue(c.body))
      modifies this
      ensures Valid() && stream == []
      ensures forall k | 0 <= k < |seen| :: seen[k].0 == seen[k].1
      ensures |rcs| == |calls| && |marks| == |answers| == |calls| + 1
      ensures marks[0] == old(called) && answers[0] == old(asks) && marks[|calls|] == called && answers[|calls|] == asks
      ensures forall n | 0 <= n < |calls| ::
                CallEnded(calls[n], marks[n], marks[n + 1], answers[n], answers[n + 1], rcs[n])
    {
      hide Ended, Drain, SeesOwn, FinalIter, Kernels, CondQuiet, OnnxLoop, LoopFrom;
      rcs, marks, answers := [], [called], [asks];
      for n := 0 to |calls|
        invariant Valid() && |rcs| == n && |marks| == |answers| == n + 1
        invariant marks[0] == old(called) && answers[0] == old(asks) && marks[n] == called && answers[n] == asks
        invariant forall k | 0 <= k < n ::
                    CallEnded(calls[k], marks[k], marks[k + 1], answers[k], answers[k + 1], rcs[k])
      {
        var c := calls[n];
        assert c in calls;
        var rc, _ := RunLoop(c.dynamic, c.body, c.codes, c.trips, c.condInit);
        assert CallEnded(c, marks[n], called, answers[n], asks, rc);
        rcs, marks, answers := rcs + [rc], marks + [called], answers + [asks];
        DeviceRuns();
      }
      StreamSynchronize();
    }
  }

  /** A body that ends its loop at once, and one that counts while it is told to go on. */
  function Ending(i: int, cond: bool, n: int): (bool, int) {
    (false, n)
  }

  function Counting(i: int, cond: bool, n: int): (bool, int) {
    (cond, if cond then n + 1 else n)
  }

  /** With these two bodies the second loop does not count its one trip, which ONNX Loop does. */
  method CountingAfterFailedLoop(rt: LoopRuntime<int>)
    requires rt.Valid() && rt.stream == [] && rt.capacity > 0 && rt.cpuBuf != 0
    modifies rt
    ensures rt.Valid() && rt.Settled().mem == old(rt.dev.mem)
    ensures OnnxLoop(Counting, 1, 0, true, old(rt.dev.mem)).2 == old(rt.dev.mem) + 1
  {
    rt.LoopAfterFailedLoop(Ending, Counting);
  }
}
