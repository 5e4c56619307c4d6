/** What the host asked of the driver and the operating system, and what they answered. */
module Environment {
  /** The first `n` trips of a loop. */
  function Numbers(n: nat): seq<int> {
    seq(n, i => i)
  }

  datatype Ask<C> = Ask(call: C, granted: bool)

  /** Since `before`, some call was refused. */
  ghost predicate Refused<C>(before: seq<Ask<C>>, now: seq<Ask<C>>) {
    exists k :: |before| <= k < |now| && !now[k].granted
  }

  lemma RefusedEither<C>(before: seq<Ask<C>>, mid: seq<Ask<C>>, now: seq<Ask<C>>)
    requires before <= mid <= now
    ensures before <= now
    ensures Refused(before, now) <==> Refused(before, mid) || Refused(mid, now)
  {
    if Refused(before, now) {
      var k :| |before| <= k < |now| && !now[k].granted;
      if k < |mid| { assert !mid[k].granted; }
    }
    if Refused(before, mid) {
      var k :| |before| <= k < |mid| && !mid[k].granted;
      assert !now[k].granted;
    }
  }

  lemma OneAsk<C>(before: seq<Ask<C>>, a: Ask<C>)
    ensures before <= before + [a] && (Refused(before, before + [a]) <==> !a.granted)
  {
    assert (before + [a])[|before|] == a;
  }

  lemma NoAsk<C>(before: seq<Ask<C>>)
    ensures !Refused(before, before)
  {
  }

  /** Since `before`, these calls were made in order, up to the first that was refused. */
  ghost predicate Worked<C>(calls: seq<C>, before: seq<Ask<C>>, now: seq<Ask<C>>) {
    && before <= now && |now| - |before| <= |calls|
    && (forall k | |before| <= k < |now| :: now[k].call == calls[k - |before|])
    && (forall k | |before| <= k < |now| - 1 :: now[k].granted)
    && (|now| - |before| < |calls| ==> before != now && !now[|now| - 1].granted)
  }

  lemma WorkedOne<C>(before: seq<Ask<C>>, a: Ask<C>)
    ensures Worked([a.call], before, before + [a]) && (Refused(before, before + [a]) <==> !a.granted)
  {
    OneAsk(before, a);
  }

  lemma WorkedNone<C>(before: seq<Ask<C>>)
    ensures Worked([], before, before) && !Refused(before, before)
  {
  }

  lemma WorkedMore<C>(first: seq<C>, next: seq<C>, before: seq<Ask<C>>, mid: seq<Ask<C>>, now: seq<Ask<C>>)
    requires Worked(first, before, mid) && if Refused(before, mid) then now == mid else Worked(next, mid, now)
    ensures Worked(first + next, before, now)
    ensures Refused(before, now) <==> Refused(before, mid) || Refused(mid, now)
  {
    RefusedEither(before, mid, now);
    if Refused(before, mid) {
      var k :| |before| <= k < |mid| && !mid[k].granted;
      assert k == |mid| - 1;
    } else {
      forall k | |before| <= k < |now| ensures now[k].call == (first + next)[k - |before|] {
        if k < |mid| { assert now[k] == mid[k]; }
      }
      forall k | |before| <= k < |now| - 1 ensures now[k].granted {
        if k < |mid| { assert now[k] == mid[k]; }
      }
    }
  }

  ghost predicate AllGranted<C>(before: seq<Ask<C>>, now: seq<Ask<C>>) {
    before <= now && forall k | |before| <= k < |now| :: now[k].granted
  }

  /** The last call was refused, and no other. */
  ghost predicate LastRefused<C>(before: seq<Ask<C>>, now: seq<Ask<C>>) {
    before < now && !now[|now| - 1].granted && forall k | |before| <= k < |now| - 1 :: now[k].granted
  }

  lemma NextAsk<C>(before: seq<Ask<C>>, mid: seq<Ask<C>>, a: Ask<C>)
    requires AllGranted(before, mid)
    ensures if a.granted then AllGranted(before, mid + [a]) else LastRefused(before, mid + [a])
  {
  }

  lemma NextAsks<C>(calls: seq<C>, before: seq<Ask<C>>, mid: seq<Ask<C>>, now: seq<Ask<C>>)
    requires AllGranted(before, mid) && Worked(calls, mid, now)
    ensures if Refused(mid, now) then LastRefused(before, now) else AllGranted(before, now)
  {
    assert forall k | |before| <= k < |mid| :: now[k] == mid[k];
  }

  lemma GrantedThen<C>(before: seq<Ask<C>>, mid: seq<Ask<C>>, now: seq<Ask<C>>)
    requires AllGranted(before, mid)
    ensures AllGranted(mid, now) ==> AllGranted(before, now)
    ensures LastRefused(mid, now) ==> LastRefused(before, now) && !AllGranted(before, now)
  {
    if mid <= now { assert forall k | |before| <= k < |mid| :: now[k] == mid[k]; }
  }

  lemma RefusedIsNotGranted<C>(before: seq<Ask<C>>, now: seq<Ask<C>>)
    ensures LastRefused(before, now) ==> !AllGranted(before, now) && Refused(before, now)
  {
  }

  lemma NothingAsked<C>(before: seq<Ask<C>>)
    ensures AllGranted(before, before) && !Refused(before, before)
  {
  }

  lemma RefusedTells<C>(before: seq<Ask<C>>, now: seq<Ask<C>>)
    ensures AllGranted(before, now) ==> !Refused(before, now)
    ensures LastRefused(before, now) ==> Refused(before, now)
  {
  }
}
