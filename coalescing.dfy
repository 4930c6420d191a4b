/** Properties of sequences of tracker steps: bursts of mutations, the write that
    ends them, and reading the file back on the next start. */
module Coalescing {
  import opened UsageSpec

  /** A call of `addMoreData` or `reset` whose write task the scheduler accepts. */
  datatype Mutation = Add(moreBytes: Long) | Clear

  /** A mutation that changes the tracker: `addMoreData` ignores deltas below 1. */
  predicate Effective(m: Mutation)
  {
    m.Clear? || m.moreBytes >= 1
  }

  /** One mutation of a burst. */
  function Apply(s: Tracker, m: Mutation): (r: Tracker)
  {
    match m
    case Add(d) => AddMoreData(s, d, true)
    case Clear => Reset(s, true)
  }

  /** The mutations `ms`, in order, with no scheduled task running in between. */
  function Burst(s: Tracker, ms: seq<Mutation>): (r: Tracker)
    decreases |ms|
    ensures r.disk == s.disk && r.written == s.written
    ensures s.cancelled <= r.cancelled && s.nextId <= r.nextId
    ensures Valid(s) ==> Valid(r)
  {
    if ms == [] then s else Apply(Burst(s, ms[..|ms| - 1]), ms[|ms| - 1])
  }

  /** The sum of the deltas `addMoreData` accepts, the reference for the count. */
  function Added(ms: seq<Mutation>): (n: int)
    ensures n >= 0
  {
    if ms == [] then 0
    else
      var m := ms[|ms| - 1];
      Added(ms[..|ms| - 1]) + (if m.Add? && m.moreBytes >= 1 then m.moreBytes as int else 0)
  }

  predicate AllAdds(ms: seq<Mutation>)
  {
    forall i :: 0 <= i < |ms| ==> ms[i].Add?
  }

  /** A burst of ignored deltas changes nothing at all. */
  lemma {:induction false} IneffectiveBurstIsNoop(s: Tracker, ms: seq<Mutation>)
    requires forall i :: 0 <= i < |ms| ==> !Effective(ms[i])
    ensures Burst(s, ms) == s
  {
    if ms != [] {
      IneffectiveBurstIsNoop(s, ms[..|ms| - 1]);
    }
  }

  /** Running two bursts one after the other is running their concatenation. */
  lemma {:induction false} BurstAppend(s: Tracker, a: seq<Mutation>, b: seq<Mutation>)
    ensures Burst(s, a + b) == Burst(Burst(s, a), b)
    decreases |b|
  {
    if b == [] {
      assert a + b == a;
    } else {
      assert (a + b)[..|a + b| - 1] == a + b[..|b| - 1];
      BurstAppend(s, a, b[..|b| - 1]);
    }
  }

  /** Additivity: while the count does not overflow, a burst of `addMoreData` calls
      leaves the count at its initial value plus the deltas of at least 1. */
  lemma {:induction false} AddsAccumulate(s: Tracker, ms: seq<Mutation>)
    requires AllAdds(ms)
    requires s.bytesSent as int + Added(ms) <= MaxLong
    ensures Burst(s, ms).bytesSent as int == s.bytesSent as int + Added(ms)
  {
    if ms != [] {
      var init := ms[..|ms| - 1];
      AddsAccumulate(s, init);
    }
  }

  /** After a `reset`, the count is the sum of the deltas added since. */
  lemma ResetThenAdds(s: Tracker, ms: seq<Mutation>, adds: seq<Mutation>)
    requires AllAdds(adds)
    requires Added(adds) <= MaxLong
    ensures Burst(s, ms + [Clear] + adds).bytesSent as int == Added(adds)
  {
    BurstAppend(s, ms + [Clear], adds);
    assert (ms + [Clear])[..|ms + [Clear]| - 1] == ms;
    AddsAccumulate(Burst(s, ms + [Clear]), adds);
  }

  /** Coalescing: after a burst that changed the tracker, exactly one write is
      waiting, it is the last one scheduled and it carries the final count; every
      other task scheduled during the burst was cancelled and will never write. */
  lemma {:induction false} BurstCoalesces(s: Tracker, ms: seq<Mutation>)
    requires Valid(s)
    requires exists i :: 0 <= i < |ms| && Effective(ms[i])
    ensures Synced(Burst(s, ms))
    ensures Burst(s, ms).pending.value.id == Burst(s, ms).nextId - 1
    ensures forall id :: s.nextId <= id < Burst(s, ms).nextId - 1 ==> id in Burst(s, ms).cancelled
  {
    var init, last := ms[..|ms| - 1], ms[|ms| - 1];
    var p := Burst(s, init);
    var hasEarlier := exists i :: 0 <= i < |init| && Effective(init[i]);
    if !Effective(last) {
      var i :| 0 <= i < |ms| && Effective(ms[i]);
      assert init[i] == ms[i];
      BurstCoalesces(s, init);
    } else if hasEarlier {
      BurstCoalesces(s, init);
      assert p.pending.value.id in p.queue;
    } else {
      forall i | 0 <= i < |init| ensures !Effective(init[i]) {
        assert !(0 <= i < |init| && Effective(init[i]));
      }
      IneffectiveBurstIsNoop(s, init);
    }
  }

  /** Eventual durability and last-value-wins: running the waiting task after a
      burst writes the final count, with no other write since the burst began, and
      running any earlier task of the burst does nothing. */
  lemma {:induction false} BurstThenRunWritesLastValue(s: Tracker, ms: seq<Mutation>)
    requires Valid(s)
    requires exists i :: 0 <= i < |ms| && Effective(ms[i])
    ensures var b := Burst(s, ms);
            b.pending.Some? &&
            var r := RunTask(b, b.pending.value.id, None);
            r.disk == Some(Usage(b.bytesSent)) && r.written == s.written + [b.bytesSent] &&
            r.pending == None && r.queue == map[]
    ensures var b := Burst(s, ms);
            forall id, fault :: s.nextId <= id < b.nextId - 1 ==> RunTask(b, id, fault) == b
  {
    BurstCoalesces(s, ms);
  }

  /** Round trip: once the waiting write has run, a restarted tracker reads back
      the count that was written. */
  lemma RunThenRestartReadsBack(s: Tracker, writeFault: Option<Fault>)
    requires Valid(s) && Synced(s)
    ensures var r := RunTask(s, s.pending.value.id, None);
            var restarted := Start(Initial(r.disk), writeFault, None);
            restarted.0.bytesSent == s.bytesSent && restarted.1 == None
  {
  }

  /** Start on a fresh tracker never leaves a count that is not in the file: a read
      or parse failure, a missing file or a missing field all give zero. */
  lemma StartFallsBackToZero(disk: Option<Document>, writeFault: Option<Fault>, readFault: Option<Fault>)
    ensures var r := Start(Initial(disk), writeFault, readFault);
            r.0.bytesSent == if readFault == None && disk.Some? && disk.value.Usage? then disk.value.usage else 0
  {
  }

  /** A concrete run: no file at start; three deltas of 100; the waiting task runs;
      then a reset and its task. */
  lemma {:induction false} ThreeAddsThenReset()
    ensures var s0 := Start(Initial(None), None, None).0;
            s0.bytesSent == 0 && s0.disk == Some(Usage(0)) && s0.written == [0] &&
            var s1 := Burst(s0, [Add(100), Add(100), Add(100)]);
            s1.bytesSent == 300 && s1.pending.Some? &&
            var s2 := RunTask(s1, s1.pending.value.id, None);
            s2.disk == Some(Usage(300)) && s2.written == [0, 300] &&
            var s3 := Reset(s2, true);
            s3.pending.Some? &&
            var s4 := RunTask(s3, s3.pending.value.id, None);
            s4.disk == Some(Usage(0)) && s4.written == [0, 300, 0]
  {
    var s0 := Start(Initial(None), None, None).0;
    var ms := [Add(100), Add(100), Add(100)];
    assert Effective(ms[0]);
    assert Added(ms) == 300 by {
      assert ms[..2] == [Add(100), Add(100)];
      assert ms[..2][..1] == [Add(100)];
      assert [Add(100)][..0] == [];
    }
    AddsAccumulate(s0, ms);
    BurstThenRunWritesLastValue(s0, ms);
    var s1 := Burst(s0, ms);
    var s2 := RunTask(s1, s1.pending.value.id, None);
    var s3 := Reset(s2, true);
  }
}
