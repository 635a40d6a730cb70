/**
 * The Snowflake identifier generator: the decision `next_id` takes from the
 * previously issued sequence and the clock, the wait for the next
 * millisecond, and the generator object that keeps the last issued sequence.
 *
 * The wall clock is a list of integer millisecond readings. `next_id` takes
 * the first one; when the millisecond's sequence space is exhausted, the wait
 * loop takes further readings until one differs from the first.
 */
module IdGenerator {
  import opened Bits
  import opened Results
  import opened Packing
  import opened Tokens

  /**
   * What `next_id` raises. ClockMovesBackward is the 'clock moves backward'
   * exception; MissingArgument is the TypeError that the call
   * `wait_next_timestamp()` without its timestamp raises in the code as
   * written (only NextAsWritten produces it).
   */
  datatype IssueError = ClockMovesBackward | MissingArgument

  /** A newly issued sequence and the number of clock readings taken to issue it. */
  datatype Issue = Issue(next: Sequence, used: nat)

  /** Some reading differs from timestamp, so the wait loop ends. */
  predicate Advances(clock: seq<int>, timestamp: int)
  {
    exists i :: 0 <= i < |clock| && clock[i] != timestamp
  }

  /** The clock never goes back. */
  predicate NonDecreasing(clock: seq<int>)
  {
    forall i, j :: 0 <= i <= j < |clock| ==> clock[i] <= clock[j]
  }

  /** The index of the first reading that differs from timestamp: where the wait loop stops. */
  function FirstChange(clock: seq<int>, timestamp: int): (k: nat)
    requires Advances(clock, timestamp)
    ensures k < |clock| && clock[k] != timestamp
    ensures forall i :: 0 <= i < k ==> clock[i] == timestamp
  {
    if clock[0] != timestamp then 0
    else
      assert Advances(clock[1..], timestamp) by {
        var i :| 0 <= i < |clock| && clock[i] != timestamp;
        assert clock[1..][i - 1] == clock[i];
      }
      FirstChange(clock[1..], timestamp) + 1
  }

  /** The millisecond's sequence space is used up: `next_value` wraps to 0 and `next_id` must wait. */
  predicate Exhausted(l: Layout, cur: Option<Sequence>, now: int)
  {
    cur.Some? && cur.value.timestamp == now && BitAnd(cur.value.value + 1, l.SequenceMask()) == 0
  }

  /**
   * The state transition of `next_id`, with the call on the exhaustion path
   * given the timestamp it evidently should wait on. `clock[0]` is the
   * reading `next_id` takes; the rest feeds the wait loop.
   */
  function Next(l: Layout, cur: Option<Sequence>, clock: seq<int>): (r: Result<Issue, IssueError>)
    requires |clock| >= 1
    requires Exhausted(l, cur, clock[0]) ==> Advances(clock[1..], clock[0])
    ensures r.Err? <==> cur.Some? && clock[0] < cur.value.timestamp
    ensures r.Err? ==> r.error == ClockMovesBackward
    ensures r.Ok? ==> r.value.next.value <= l.SequenceMask()
    ensures r.Ok? ==> 1 <= r.value.used <= |clock| && r.value.next.timestamp == clock[r.value.used - 1]
  {
    var now := clock[0];
    if cur.None? || cur.value.timestamp < now then
      Ok(Issue(Sequence(0, now), 1))
    else if cur.value.timestamp == now then
      var nextValue := BitAnd(cur.value.value + 1, l.SequenceMask());
      AndLowMask(cur.value.value + 1, l.sequenceBits);
      if nextValue == 0 then
        var k := FirstChange(clock[1..], now);
        Ok(Issue(Sequence(nextValue, clock[k + 1]), k + 2))
      else
        Ok(Issue(Sequence(nextValue, now), 1))
    else
      Err(ClockMovesBackward)
  }

  /**
   * `next_id` as written: the exhaustion path calls `wait_next_timestamp()`
   * without its required argument and raises TypeError.
   */
  function NextAsWritten(l: Layout, cur: Option<Sequence>, now: int): (r: Result<Sequence, IssueError>)
    ensures r.Err? <==> (cur.Some? && now < cur.value.timestamp) || Exhausted(l, cur, now)
    ensures r.Err? ==> (r.error == MissingArgument <==> Exhausted(l, cur, now))
    ensures r.Ok? ==> r.value.timestamp == now && r.value.value <= l.SequenceMask()
  {
    AndLowMask(if cur.Some? then cur.value.value + 1 else 0, l.sequenceBits);
    if cur.None? || cur.value.timestamp < now then
      Ok(Sequence(0, now))
    else if cur.value.timestamp == now then
      var nextValue := BitAnd(cur.value.value + 1, l.SequenceMask());
      if nextValue == 0 then Err(MissingArgument)
      else Ok(Sequence(nextValue, now))
    else
      Err(ClockMovesBackward)
  }

  /** For a value within the mask, the sequence space is exhausted exactly when the value is the mask. */
  lemma ExhaustedAtMask(l: Layout, cur: Option<Sequence>, now: int)
    requires cur.Some? ==> cur.value.value <= l.SequenceMask()
    ensures Exhausted(l, cur, now) <==>
            cur.Some? && cur.value.timestamp == now && cur.value.value == l.SequenceMask()
  {
    if cur.Some? {
      AndLowMask(cur.value.value + 1, l.sequenceBits);
      if cur.value.value < l.SequenceMask() {
        DivModUnique(cur.value.value + 1, Pow2(l.sequenceBits), 0, cur.value.value + 1);
      } else {
        DivModUnique(cur.value.value + 1, Pow2(l.sequenceBits), 1, 0);
      }
    }
  }

  /** First call, or a later millisecond: the sequence restarts at 0 on the new millisecond. */
  lemma NextNewMillisecond(l: Layout, cur: Option<Sequence>, clock: seq<int>)
    requires |clock| >= 1 && (cur.None? || cur.value.timestamp < clock[0])
    ensures Next(l, cur, clock) == Ok(Issue(Sequence(0, clock[0]), 1))
  {
  }

  /** Same millisecond with room left: the value goes up by one and the timestamp stays. */
  lemma NextSameMillisecond(l: Layout, s: Sequence, clock: seq<int>)
    requires |clock| >= 1 && s.timestamp == clock[0] && s.value < l.SequenceMask()
    ensures !Exhausted(l, Some(s), clock[0])
    ensures Next(l, Some(s), clock) == Ok(Issue(Sequence(s.value + 1, s.timestamp), 1))
  {
    ExhaustedAtMask(l, Some(s), clock[0]);
    AndLowMask(s.value + 1, l.sequenceBits);
    DivModUnique(s.value + 1, Pow2(l.sequenceBits), 0, s.value + 1);
  }

  /**
   * Same millisecond with the value at the mask: the value wraps to 0 and the
   * timestamp is the first later reading that differs; under a clock that
   * never goes back it is strictly later.
   */
  lemma NextExhausted(l: Layout, s: Sequence, clock: seq<int>)
    requires |clock| >= 1 && s.timestamp == clock[0] && s.value == l.SequenceMask()
    requires Advances(clock[1..], clock[0])
    ensures Next(l, Some(s), clock).Ok?
    ensures Next(l, Some(s), clock).value.next.value == 0
    ensures Next(l, Some(s), clock).value.next.timestamp != s.timestamp
    ensures NonDecreasing(clock) ==> Next(l, Some(s), clock).value.next.timestamp > s.timestamp
  {
    ExhaustedAtMask(l, Some(s), clock[0]);
    var k := FirstChange(clock[1..], clock[0]);
    assert clock[1..][k] == clock[k + 1];
  }

  /** An earlier reading: `next_id` raises and, as the result carries no new sequence, the state is kept. */
  lemma NextBackward(l: Layout, s: Sequence, clock: seq<int>)
    requires |clock| >= 1 && clock[0] < s.timestamp
    ensures Next(l, Some(s), clock) == Err(ClockMovesBackward)
  {
  }

  /** Under a clock that never goes back, every issued sequence comes after the previous one. */
  lemma NextAdvances(l: Layout, s: Sequence, clock: seq<int>)
    requires |clock| >= 1 && s.timestamp <= clock[0] && s.value <= l.SequenceMask()
    requires NonDecreasing(clock)
    requires Exhausted(l, Some(s), clock[0]) ==> Advances(clock[1..], clock[0])
    ensures Next(l, Some(s), clock).Ok?
    ensures Before(s, Next(l, Some(s), clock).value.next)
  {
    ExhaustedAtMask(l, Some(s), clock[0]);
    if s.timestamp == clock[0] {
      if s.value < l.SequenceMask() {
        NextSameMillisecond(l, s, clock);
      } else {
        NextExhausted(l, s, clock);
      }
    }
  }

  /** The code as written agrees with the intended transition except on the exhaustion path, where it raises TypeError. */
  lemma AsWrittenDiffersOnlyWhenExhausted(l: Layout, cur: Option<Sequence>, clock: seq<int>)
    requires |clock| >= 1
    requires Exhausted(l, cur, clock[0]) ==> Advances(clock[1..], clock[0])
    ensures Exhausted(l, cur, clock[0]) ==> NextAsWritten(l, cur, clock[0]) == Err(MissingArgument)
    ensures !Exhausted(l, cur, clock[0]) ==>
              match Next(l, cur, clock)
              case Ok(issue) => NextAsWritten(l, cur, clock[0]) == Ok(issue.next)
              case Err(e) => NextAsWritten(l, cur, clock[0]) == Err(e)
  {
  }

  /**
   * With one sequence bit, the second id of a millisecond exhausts the space:
   * as written the call raises TypeError, where the intended code waits and
   * issues value 0 at the next millisecond.
   */
  lemma MissingArgumentWitness()
    ensures Advances([100, 101][1..], 100)
    ensures NextAsWritten(Layout(0, 0, 1, 1), Some(Sequence(1, 100)), 100) == Err(MissingArgument)
    ensures Next(Layout(0, 0, 1, 1), Some(Sequence(1, 100)), [100, 101]) == Ok(Issue(Sequence(0, 101), 2))
  {
    var l := Layout(0, 0, 1, 1);
    assert [100, 101][1..][0] == 101;
    assert l.SequenceMask() == 1;
    assert BitAnd(2, 1) == 0;
    assert FirstChange([100, 101][1..], 100) == 0;
  }

  /**
   * `wait_next_timestamp` stops at the first reading that merely differs:
   * a reading earlier than the timestamp ends the wait and is returned.
   */
  lemma WaitStopsOnEarlierReading(clock: seq<int>, timestamp: int)
    requires |clock| >= 1 && clock[0] < timestamp
    ensures Advances(clock, timestamp)
    ensures FirstChange(clock, timestamp) == 0 && clock[FirstChange(clock, timestamp)] < timestamp
  {
  }

  /** Under a clock that never goes back and starts at the timestamp, the wait returns a strictly later millisecond. */
  lemma WaitAdvances(clock: seq<int>, timestamp: int)
    requires Advances(clock, timestamp) && NonDecreasing(clock) && timestamp <= clock[0]
    ensures clock[FirstChange(clock, timestamp)] > timestamp
  {
  }

  /**
   * Successive `next_id` calls over one clock: each call takes its readings
   * from where the previous one stopped. The run ends when the clock runs
   * out, when a call would wait forever, or when a call raises.
   */
  function Run(l: Layout, cur: Option<Sequence>, clock: seq<int>): (issued: seq<Sequence>)
    ensures forall i :: 0 <= i < |issued| ==> issued[i].value <= l.SequenceMask()
    ensures forall i :: 0 <= i < |issued| ==> issued[i].timestamp in clock
    decreases |clock|
  {
    if |clock| == 0 || (Exhausted(l, cur, clock[0]) && !Advances(clock[1..], clock[0])) then []
    else
      match Next(l, cur, clock)
      case Err(_) => []
      case Ok(issue) =>
        var rest := Run(l, Some(issue.next), clock[issue.used..]);
        assert forall i :: 0 <= i < |rest| ==> rest[i].timestamp in clock by {
          forall i | 0 <= i < |rest|
            ensures rest[i].timestamp in clock
          {
            var j :| 0 <= j < |clock[issue.used..]| && clock[issue.used..][j] == rest[i].timestamp;
            assert clock[issue.used + j] == rest[i].timestamp;
          }
        }
        [issue.next] + rest
  }

  /** Each sequence of ss was issued after the one before it. */
  predicate StrictlyOrdered(ss: seq<Sequence>)
  {
    forall i, j :: 0 <= i < j < |ss| ==> Before(ss[i], ss[j])
  }

  /** Every sequence of ss was issued after s. */
  predicate AllAfter(s: Sequence, ss: seq<Sequence>)
  {
    forall i :: 0 <= i < |ss| ==> Before(s, ss[i])
  }

  lemma OrderedCons(c: Option<Sequence>, x: Sequence, ss: seq<Sequence>)
    requires AllAfter(x, ss) && StrictlyOrdered(ss)
    requires c.Some? ==> Before(c.value, x)
    ensures StrictlyOrdered([x] + ss)
    ensures c.Some? ==> AllAfter(c.value, [x] + ss)
  {
    var xs := [x] + ss;
    forall i, j | 0 <= i < j < |xs|
      ensures Before(xs[i], xs[j])
    {
      assert xs[j] == ss[j - 1];
      if i > 0 {
        assert xs[i] == ss[i - 1];
      }
    }
    if c.Some? {
      forall i | 0 <= i < |xs|
        ensures Before(c.value, xs[i])
      {
        if i > 0 {
          assert xs[i] == ss[i - 1];
        }
      }
    }
  }

  /** Under a clock that never goes back, the sequences of a run are issued in strictly increasing order. */
  lemma {:induction false} RunOrdered(l: Layout, cur: Option<Sequence>, clock: seq<int>)
    requires NonDecreasing(clock)
    requires cur.Some? ==> cur.value.value <= l.SequenceMask()
    requires cur.Some? && |clock| >= 1 ==> cur.value.timestamp <= clock[0]
    ensures StrictlyOrdered(Run(l, cur, clock))
    ensures cur.Some? ==> AllAfter(cur.value, Run(l, cur, clock))
    decreases |clock|
  {
    if |clock| == 0 || (Exhausted(l, cur, clock[0]) && !Advances(clock[1..], clock[0])) {
      assert Run(l, cur, clock) == [];
    } else {
      var issue := Next(l, cur, clock).value;
      var rest := clock[issue.used..];
      assert NonDecreasing(rest) by {
        forall i, j | 0 <= i <= j < |rest|
          ensures rest[i] <= rest[j]
        {
          assert rest[i] == clock[issue.used + i] && rest[j] == clock[issue.used + j];
        }
      }
      if |rest| >= 1 {
        assert rest[0] == clock[issue.used];
      }
      var tail := Run(l, Some(issue.next), rest);
      assert Run(l, cur, clock) == [issue.next] + tail;
      RunOrdered(l, Some(issue.next), rest);
      if cur.Some? {
        NextAdvances(l, cur.value, clock);
      }
      OrderedCons(cur, issue.next, tail);
    }
  }

  /**
   * Under a clock that never goes back, the ids of a run strictly increase,
   * so no two calls return the same id.
   */
  lemma RunIdsIncrease(l: Layout, cur: Option<Sequence>, clock: seq<int>)
    requires NonDecreasing(clock) && l.InstanceFits()
    requires forall i :: 0 <= i < |clock| ==> l.epoch <= clock[i]
    requires cur.Some? ==> cur.value.value <= l.SequenceMask()
    requires cur.Some? && |clock| >= 1 ==> cur.value.timestamp <= clock[0]
    ensures forall i, j :: 0 <= i < j < |Run(l, cur, clock)| ==>
              GetId(l, Run(l, cur, clock)[i]) < GetId(l, Run(l, cur, clock)[j])
  {
    var issued := Run(l, cur, clock);
    RunOrdered(l, cur, clock);
    forall i, j | 0 <= i < j < |issued|
      ensures GetId(l, issued[i]) < GetId(l, issued[j])
    {
      assert Before(issued[i], issued[j]);
      GetIdMonotone(l, issued[i], issued[j]);
    }
  }

  /**
   * When every reading fits the timestamp field and the three fields fit in
   * 64 bits, the tokens of a run are strictly increasing strings too.
   */
  lemma RunTokensIncrease(l: Layout, cur: Option<Sequence>, clock: seq<int>, timestampBits: nat)
    requires NonDecreasing(clock) && l.InstanceFits()
    requires l.TimestampShift() + timestampBits <= 64
    requires forall i :: 0 <= i < |clock| ==> l.epoch <= clock[i] < l.epoch + Pow2(timestampBits)
    requires cur.Some? ==> cur.value.value <= l.SequenceMask()
    requires cur.Some? && |clock| >= 1 ==> cur.value.timestamp <= clock[0]
    ensures forall i, j :: 0 <= i < j < |Run(l, cur, clock)| ==>
              LexLess(Token(GetId(l, Run(l, cur, clock)[i])), Token(GetId(l, Run(l, cur, clock)[j])))
  {
    var issued := Run(l, cur, clock);
    RunIdsIncrease(l, cur, clock);
    forall i, j | 0 <= i < j < |issued|
      ensures LexLess(Token(GetId(l, issued[i])), Token(GetId(l, issued[j])))
    {
      TokenBelowWindow(l, issued[i], timestampBits);
      TokenBelowWindow(l, issued[j], timestampBits);
      TokenOrder(GetId(l, issued[i]), GetId(l, issued[j]));
    }
  }

  /** An id whose fields fit in 64 bits lies inside the 65-bit token window. */
  lemma TokenBelowWindow(l: Layout, s: Sequence, timestampBits: nat)
    requires Fits(l, s) && l.TimestampShift() + timestampBits <= 64
    requires s.timestamp - l.epoch < Pow2(timestampBits)
    ensures GetId(l, s) < Pow2(65)
  {
    IdBound(l, s, timestampBits);
    Pow2Monotone(l.TimestampShift() + timestampBits, 65);
  }

  /**
   * The generator object. `current` is `current_sequence`: None until the
   * first id, then the last issued sequence. The layout is fixed at
   * construction.
   */
  class SnowflakeIdGenerator {
    const layout: Layout
    var current: Option<Sequence>

    /** The issued value never exceeds the sequence mask. */
    ghost predicate Valid()
      reads this
    {
      current.Some? ==> current.value.value <= layout.SequenceMask()
    }

    /** `__init__`: the shifts and the mask are the layout's derived values. */
    constructor (layout: Layout)
      ensures this.layout == layout && current == None && Valid()
    {
      this.layout := layout;
      current := None;
    }

    /** `wait_next_timestamp`: poll the clock until a reading differs from timestamp. */
    method WaitNextTimestamp(clock: seq<int>, timestamp: int) returns (now: int, used: nat)
      requires Advances(clock, timestamp)
      ensures 1 <= used <= |clock| && now == clock[used - 1] && now != timestamp
      ensures forall i :: 0 <= i < used - 1 ==> clock[i] == timestamp
      ensures used == FirstChange(clock, timestamp) + 1
    {
      now := clock[0];
      used := 1;
      while now == timestamp
        invariant 1 <= used <= |clock| && now == clock[used - 1]
        invariant forall i :: 0 <= i < used - 1 ==> clock[i] == timestamp
        decreases |clock| - used
      {
        now := clock[used];
        used := used + 1;
      }
    }

    /**
     * `next_id`: issue the next sequence from the first clock reading, store
     * it and return its packed id; on a backward clock raise and keep the
     * stored sequence.
     */
    method NextId(clock: seq<int>) returns (r: Result<nat, IssueError>, used: nat)
      requires Valid()
      requires |clock| >= 1 && (Exhausted(layout, current, clock[0]) ==> Advances(clock[1..], clock[0]))
      requires Next(layout, current, clock).Ok? ==> layout.epoch <= Next(layout, current, clock).value.next.timestamp
      modifies this
      ensures Valid()
      ensures Next(layout, old(current), clock).Ok? ==>
                current == Some(Next(layout, old(current), clock).value.next)
                && r == Ok(GetId(layout, current.value))
                && used == Next(layout, old(current), clock).value.used
      ensures Next(layout, old(current), clock).Err? ==>
                current == old(current) && r == Err(ClockMovesBackward) && used == 1
    {
      var currentTimestamp := clock[0];
      used := 1;
      var nextSequence;
      if current.None? || current.value.timestamp < currentTimestamp {
        nextSequence := Sequence(0, currentTimestamp);
      } else if current.value.timestamp == currentTimestamp {
        var nextValue := BitAnd(current.value.value + 1, layout.SequenceMask());
        AndLowMask(current.value.value + 1, layout.sequenceBits);
        if nextValue == 0 {
          // The source calls wait_next_timestamp() here without the timestamp
          // argument it requires; this is the evident intent.
          var waited;
          waited, used := WaitNextTimestamp(clock[1..], currentTimestamp);
          assert waited == clock[used];
          currentTimestamp := waited;
          used := used + 1;
        }
        nextSequence := Sequence(nextValue, currentTimestamp);
      } else {
        return Err(ClockMovesBackward), 1;
      }
      current := Some(nextSequence);
      r := Ok(GetId(layout, nextSequence));
    }

    /** `next_str`: issue the next id and render it as its 13-character token. */
    method NextStr(clock: seq<int>) returns (r: Result<string, IssueError>, used: nat)
      requires Valid()
      requires |clock| >= 1 && (Exhausted(layout, current, clock[0]) ==> Advances(clock[1..], clock[0]))
      requires Next(layout, current, clock).Ok? ==> layout.epoch <= Next(layout, current, clock).value.next.timestamp
      modifies this
      ensures Valid()
      ensures Next(layout, old(current), clock).Ok? ==>
                current == Some(Next(layout, old(current), clock).value.next)
                && r == Ok(Token(GetId(layout, current.value)))
                && used == Next(layout, old(current), clock).value.used
      ensures Next(layout, old(current), clock).Err? ==>
                current == old(current) && r == Err(ClockMovesBackward) && used == 1
    {
      var id;
      id, used := NextId(clock);
      match id
      case Err(e) =>
        r := Err(e);
      case Ok(n) =>
        var s := EncodeId(n);
        r := Ok(s);
    }
  }
}
