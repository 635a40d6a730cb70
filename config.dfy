/**
 * The configuration check that runs when the configuration is loaded: a
 * chain of guards over the bit widths and the instance id, each raising its
 * own error, the first failing one winning. The values are parameters; where
 * they come from (an ini file with fallbacks) is not part of this model.
 */
module Configuration {
  import opened Bits
  import opened Packing

  /** The configuration values the generator is built from. */
  datatype Config = Config(signBits: int, timestampBits: int, instanceBits: int, sequenceBits: int,
                           timestampEpoch: int, instanceId: int)

  /** One error per guard, in the order the guards run. */
  datatype ConfigError =
    | SequenceBitsNotPositive
    | InstanceBitsNotPositive
    | TimestampBitsNotPositive
    | SignBitsNotPositive
    | InstanceIdOutOfRange
    | TimestampBitsNegative
    | BitsNotSixtyFour

  datatype Outcome = Accepted | Rejected(error: ConfigError)

  /** The widths shipped as fallbacks: 1 sign bit, 41 timestamp bits, 10 instance bits, 12 sequence bits. */
  function Defaults(timestampEpoch: int, instanceId: int): (c: Config)
    ensures c.signBits > 0 && c.timestampBits > 0 && c.instanceBits > 0 && c.sequenceBits > 0
    ensures c.sequenceBits + c.instanceBits + c.timestampBits + c.signBits == 64
    ensures c.timestampEpoch == timestampEpoch && c.instanceId == instanceId
  {
    Config(1, 41, 10, 12, timestampEpoch, instanceId)
  }

  /** Position of each guard in the chain. */
  function Rank(e: ConfigError): nat
  {
    match e
    case SequenceBitsNotPositive => 0
    case InstanceBitsNotPositive => 1
    case TimestampBitsNotPositive => 2
    case SignBitsNotPositive => 3
    case InstanceIdOutOfRange => 4
    case TimestampBitsNegative => 5
    case BitsNotSixtyFour => 6
  }

  /**
   * The condition under which each guard raises, taken on its own. The
   * instance bound is Python's `2 ^ instanceBits`, an exclusive or; it is
   * only evaluated once instanceBits > 0, so a non-positive width counts as
   * passing here.
   */
  predicate Fails(c: Config, e: ConfigError)
  {
    match e
    case SequenceBitsNotPositive => c.sequenceBits <= 0
    case InstanceBitsNotPositive => c.instanceBits <= 0
    case TimestampBitsNotPositive => c.timestampBits <= 0
    case SignBitsNotPositive => c.signBits <= 0
    case InstanceIdOutOfRange =>
      c.instanceBits > 0 && (c.instanceId < 0 || c.instanceId >= BitXor(2, c.instanceBits))
    case TimestampBitsNegative => c.timestampBits < 0
    case BitsNotSixtyFour => c.sequenceBits + c.instanceBits + c.timestampBits + c.signBits != 64
  }

  /** The guards as written, in order; the first that fails decides the error. */
  function Validate(c: Config): (r: Outcome)
    ensures r == Accepted <==> forall e :: !Fails(c, e)
    ensures r.Rejected? ==> Fails(c, r.error) && forall e :: Rank(e) < Rank(r.error) ==> !Fails(c, e)
  {
    if c.sequenceBits <= 0 then
      assert Fails(c, SequenceBitsNotPositive);
      Rejected(SequenceBitsNotPositive)
    else if c.instanceBits <= 0 then
      assert Fails(c, InstanceBitsNotPositive);
      Rejected(InstanceBitsNotPositive)
    else if c.timestampBits <= 0 then
      assert Fails(c, TimestampBitsNotPositive);
      Rejected(TimestampBitsNotPositive)
    else if c.signBits <= 0 then
      assert Fails(c, SignBitsNotPositive);
      Rejected(SignBitsNotPositive)
    else if c.instanceId < 0 || c.instanceId >= BitXor(2, c.instanceBits) then
      assert Fails(c, InstanceIdOutOfRange);
      Rejected(InstanceIdOutOfRange)
    else if c.timestampBits < 0 then
      Rejected(TimestampBitsNegative)
    else if c.sequenceBits + c.instanceBits + c.timestampBits + c.signBits != 64 then
      assert Fails(c, BitsNotSixtyFour);
      Rejected(BitsNotSixtyFour)
    else Accepted
  }

  /**
   * The check with the evidently intended bound `instanceId < 2^instanceBits`.
   * The `timestampBits < 0` guard is left out: it can never fire after the
   * `timestampBits <= 0` guard (TimestampNegativeUnreachable).
   */
  function ValidateIntended(c: Config): (r: Outcome)
    ensures r == Accepted <==>
              c.signBits > 0 && c.timestampBits > 0 && c.instanceBits > 0 && c.sequenceBits > 0
              && c.sequenceBits + c.instanceBits + c.timestampBits + c.signBits == 64
              && 0 <= c.instanceId < Pow2(c.instanceBits)
  {
    if c.sequenceBits <= 0 then Rejected(SequenceBitsNotPositive)
    else if c.instanceBits <= 0 then Rejected(InstanceBitsNotPositive)
    else if c.timestampBits <= 0 then Rejected(TimestampBitsNotPositive)
    else if c.signBits <= 0 then Rejected(SignBitsNotPositive)
    else if c.instanceId < 0 || c.instanceId >= Pow2(c.instanceBits) then Rejected(InstanceIdOutOfRange)
    else if c.sequenceBits + c.instanceBits + c.timestampBits + c.signBits != 64 then Rejected(BitsNotSixtyFour)
    else Accepted
  }

  /** A non-positive width is always rejected. */
  lemma RejectsNonPositiveWidth(c: Config)
    requires c.sequenceBits <= 0 || c.instanceBits <= 0 || c.timestampBits <= 0 || c.signBits <= 0
    ensures Validate(c).Rejected?
    ensures Validate(c).error in {SequenceBitsNotPositive, InstanceBitsNotPositive,
                                  TimestampBitsNotPositive, SignBitsNotPositive}
  {
  }

  /** Widths that do not add up to 64 are always rejected. */
  lemma RejectsBadSum(c: Config)
    requires c.sequenceBits + c.instanceBits + c.timestampBits + c.signBits != 64
    ensures Validate(c).Rejected?
  {
    assert Fails(c, BitsNotSixtyFour);
  }

  /** A negative instance id is always rejected. */
  lemma RejectsNegativeInstanceId(c: Config)
    requires c.instanceId < 0
    ensures Validate(c).Rejected?
  {
  }

  /** The `timestampBits < 0` guard never raises: the earlier `timestampBits <= 0` guard catches it first. */
  lemma TimestampNegativeUnreachable(c: Config)
    ensures Validate(c) != Rejected(TimestampBitsNegative)
  {
  }

  /** The epoch is not checked: changing it never changes the outcome. */
  lemma EpochNotValidated(c: Config, epoch: int)
    ensures Validate(c.(timestampEpoch := epoch)) == Validate(c)
  {
  }

  /** An accepted configuration has positive widths summing to 64 and an instance id below the xor bound, which is the width plus or minus 2. */
  lemma AcceptedBounds(c: Config)
    requires Validate(c) == Accepted
    ensures c.signBits > 0 && c.timestampBits > 0 && c.instanceBits > 0 && c.sequenceBits > 0
    ensures c.sequenceBits + c.instanceBits + c.timestampBits + c.signBits == 64
    ensures 0 <= c.instanceId < BitXor(2, c.instanceBits)
    ensures BitXor(2, c.instanceBits) == c.instanceBits + 2 || BitXor(2, c.instanceBits) == c.instanceBits - 2
  {
    assert !Fails(c, InstanceIdOutOfRange);
    assert !Fails(c, BitsNotSixtyFour);
    XorTwo(c.instanceBits);
  }

  /** The fallback widths pass every width check and the sum check; the instance id alone decides, against the xor bound 8. */
  lemma DefaultsAccepted(epoch: int, instanceId: int)
    ensures Validate(Defaults(epoch, instanceId)) == Accepted <==> 0 <= instanceId < 8
    ensures Validate(Defaults(epoch, instanceId)).Rejected? ==>
              Validate(Defaults(epoch, instanceId)).error == InstanceIdOutOfRange
  {
    XorTwo(10);
  }

  /** With the default 10 instance bits the id 8 is rejected, though it is below 2^10 and the intended check accepts it. */
  lemma XorRejectsValidInstanceId()
    ensures Validate(Defaults(0, 8)) == Rejected(InstanceIdOutOfRange)
    ensures 8 < Pow2(10) && ValidateIntended(Defaults(0, 8)) == Accepted
  {
    XorTwo(10);
    Pow2Monotone(4, 10);
    assert Pow2(4) == 16;
  }

  /** With one instance bit the xor bound is 3: the id 2 is accepted though it does not fit the instance field. */
  lemma XorAcceptsOverflowingInstanceId()
    ensures Validate(Config(1, 50, 1, 12, 0, 2)) == Accepted
    ensures ValidateIntended(Config(1, 50, 1, 12, 0, 2)) == Rejected(InstanceIdOutOfRange)
    ensures !Layout(0, 2, 12, 1).InstanceFits()
  {
    XorTwo(1);
    assert Pow2(1) == 2;
  }

  /**
   * The consequence of the overflow: with one instance bit and instance id 2,
   * which the check as written accepts, the instance field spills into the
   * timestamp field, and two different milliseconds give the same id.
   */
  lemma XorOverflowCollides()
    ensures Validate(Config(1, 50, 1, 12, 0, 2)) == Accepted
    ensures GetId(Layout(0, 2, 12, 1), Sequence(0, 0)) == GetId(Layout(0, 2, 12, 1), Sequence(0, 1))
  {
    XorAcceptsOverflowingInstanceId();
    var l := Layout(0, 2, 12, 1);
    var p := Pow2(12);
    assert l.TimestampShift() == 13 && l.InstanceShift() == 12;
    assert Pow2(13) == 2 * p;
    assert ShiftLeft(2, 12) == 2 * p;
    assert ShiftLeft(1, 13) == 2 * p;
    OrSelf(2 * p);
  }

  /** With two instance bits the xor bound is 0: every instance id is rejected. */
  lemma XorRejectsEveryInstanceId(c: Config)
    requires c.instanceBits == 2
    ensures Validate(c).Rejected?
  {
    XorTwo(2);
  }

  /** The layout a generator builds from a configuration. */
  function LayoutOf(c: Config): Layout
    requires c.instanceBits >= 0 && c.sequenceBits >= 0 && c.instanceId >= 0
  {
    Layout(c.timestampEpoch, c.instanceId, c.sequenceBits, c.instanceBits)
  }

  /**
   * A configuration the intended check accepts gives the packing what it
   * needs: the instance id fits its field, and every id issued at a
   * millisecond within timestampBits of the epoch stays below 2^63, clear of
   * the sign bit.
   */
  lemma IntendedFitsSignedLong(c: Config, s: Sequence)
    requires ValidateIntended(c) == Accepted
    requires c.timestampEpoch <= s.timestamp < c.timestampEpoch + Pow2(c.timestampBits)
    requires s.value < Pow2(c.sequenceBits)
    ensures LayoutOf(c).InstanceFits()
    ensures GetId(LayoutOf(c), s) < Pow2(63)
  {
    var l := LayoutOf(c);
    IdBound(l, s, c.timestampBits);
    Pow2Monotone(l.TimestampShift() + c.timestampBits, 63);
  }
}
