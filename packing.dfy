/**
 * The bit layout of a Snowflake identifier and the packing of
 * (timestamp - epoch, instance id, sequence value) into one integer.
 */
module Packing {
  import opened Bits

  /**
   * What a generator is built with. The shifts and the mask are derived from
   * the widths exactly as the generator's constructor derives them.
   */
  datatype Layout = Layout(epoch: int, instanceId: nat, sequenceBits: nat, instanceBits: nat)
  {
    /** `instance_shift = sequence_bits`: the instance field starts just above the sequence mask. */
    function InstanceShift(): (k: nat)
      ensures Pow2(k) == SequenceMask() + 1
    {
      sequenceBits
    }

    /** `timestamp_shift = sequence_bits + instance_bits`: the timestamp field starts above both low fields. */
    function TimestampShift(): (k: nat)
      ensures Pow2(k) == Pow2(sequenceBits) * Pow2(instanceBits)
    {
      Pow2Add(sequenceBits, instanceBits);
      sequenceBits + instanceBits
    }

    /** `sequence_mask = ~(-1 << sequence_bits)`: the sequenceBits low bits set. */
    function SequenceMask(): (m: nat)
      ensures m + 1 == Pow2(sequenceBits)
    {
      BitNot(ShiftLeft(-1, sequenceBits))
    }

    /** The instance id fits its field, as the packing needs. */
    predicate InstanceFits()
    {
      instanceId < Pow2(instanceBits)
    }
  }

  /** One issued (sequence value, millisecond timestamp) pair. */
  datatype Sequence = Sequence(value: nat, timestamp: int)

  /** Sequence `a` was issued before `b`: earlier millisecond, or same millisecond and lower value. */
  predicate Before(a: Sequence, b: Sequence)
  {
    a.timestamp < b.timestamp || (a.timestamp == b.timestamp && a.value < b.value)
  }

  /** The packing needs the timestamp at or after the epoch and every field within its width. */
  predicate Fits(l: Layout, s: Sequence)
  {
    l.epoch <= s.timestamp && s.value < Pow2(l.sequenceBits) && l.InstanceFits()
  }

  /**
   * `Sequence.get_id`: `((timestamp - epoch) << timestamp_shift) |
   * (instance_id << instance_shift) | value`. Nothing is masked.
   */
  function GetId(l: Layout, s: Sequence): (id: nat)
    requires l.epoch <= s.timestamp
    ensures Fits(l, s) ==> id == (s.timestamp - l.epoch) * Pow2(l.TimestampShift())
                                 + (l.instanceId * Pow2(l.sequenceBits) + s.value)
  {
    var id := BitOr(BitOr(ShiftLeft(s.timestamp - l.epoch, l.TimestampShift()),
                          ShiftLeft(l.instanceId, l.InstanceShift())),
                    s.value);
    if Fits(l, s) then
      PackFields(s.timestamp - l.epoch, l.instanceId, s.value, l.sequenceBits, l.instanceBits);
      id
    else id
  }

  /**
   * Or-ing a t shifted past both low fields, an instance shifted past the
   * sequence field and a value is their weighted sum, when the instance and
   * the value fit their widths.
   */
  lemma PackFields(t: nat, inst: nat, v: nat, sBits: nat, iBits: nat)
    requires inst < Pow2(iBits) && v < Pow2(sBits)
    ensures BitOr(BitOr(ShiftLeft(t, sBits + iBits), ShiftLeft(inst, sBits)), v)
            == t * Pow2(sBits + iBits) + (inst * Pow2(sBits) + v)
    ensures inst * Pow2(sBits) + v < Pow2(sBits + iBits)
  {
    var pS, pI, pT := Pow2(sBits), Pow2(iBits), Pow2(sBits + iBits);
    var low := inst * pS;
    assert pT == pI * pS by {
      Pow2Add(iBits, sBits);
    }
    assert low + v < pT && low < pT by {
      LowFieldsBound(inst, v, pI, pS);
    }
    var high := BitOr(ShiftLeft(t, sBits + iBits), ShiftLeft(inst, sBits));
    assert high == t * pT + low by {
      assert ShiftLeft(inst, sBits) == low;
      OrDisjoint(t, sBits + iBits, low);
    }
    var q := t * pI + inst;
    assert q * pS == t * pT + low by {
      Regroup(t, pI, pS, inst);
    }
    assert BitOr(high, v) == t * pT + (low + v) by {
      assert ShiftLeft(q, sBits) == high;
      OrDisjoint(q, sBits, v);
    }
  }

  /** When every field fits, the id is their weighted sum and the two low fields stay below 2^(S+I). */
  lemma PackedSum(l: Layout, s: Sequence)
    requires Fits(l, s)
    ensures GetId(l, s) == (s.timestamp - l.epoch) * Pow2(l.TimestampShift())
                           + (l.instanceId * Pow2(l.sequenceBits) + s.value)
    ensures l.instanceId * Pow2(l.sequenceBits) + s.value < Pow2(l.TimestampShift())
  {
    PackFields(s.timestamp - l.epoch, l.instanceId, s.value, l.sequenceBits, l.instanceBits);
  }

  lemma Regroup(t: nat, pI: nat, pS: nat, inst: nat)
    ensures (t * pI + inst) * pS == t * (pI * pS) + inst * pS
  {
  }

  /** inst * 2^S + v stays below 2^I * 2^S when inst < 2^I and v < 2^S. */
  lemma LowFieldsBound(inst: nat, v: nat, pI: nat, pS: nat)
    requires inst < pI && v < pS
    ensures inst * pS + v < pI * pS
    ensures inst * pS < pI * pS
  {
    assert pI * pS == (pI - 1 - inst) * pS + inst * pS + pS;
    MulSign(pI - 1 - inst, pS);
  }

  /**
   * Round trip of the packing: shifting and masking the id gives back
   * `timestamp - epoch`, the instance id and the sequence value.
   */
  lemma GetIdRoundTrip(l: Layout, s: Sequence)
    requires Fits(l, s)
    ensures BitAnd(GetId(l, s), l.SequenceMask()) == s.value
    ensures BitAnd(ShiftRight(GetId(l, s), l.InstanceShift()), Pow2(l.instanceBits) - 1) == l.instanceId
    ensures ShiftRight(GetId(l, s), l.TimestampShift()) == s.timestamp - l.epoch
  {
    var id := GetId(l, s);
    assert l.SequenceMask() == Pow2(l.sequenceBits) - 1;
    assert l.InstanceShift() == l.sequenceBits && l.TimestampShift() == l.sequenceBits + l.instanceBits;
    Unpack(id, s.timestamp - l.epoch, l.instanceId, s.value, l.sequenceBits, l.instanceBits);
  }

  /** The three fields of a weighted sum come back by masking and shifting. */
  lemma Unpack(id: nat, t: nat, inst: nat, v: nat, sBits: nat, iBits: nat)
    requires inst < Pow2(iBits) && v < Pow2(sBits)
    requires id == t * Pow2(sBits + iBits) + (inst * Pow2(sBits) + v)
    ensures BitAnd(id, Pow2(sBits) - 1) == v
    ensures BitAnd(ShiftRight(id, sBits), Pow2(iBits) - 1) == inst
    ensures ShiftRight(id, sBits + iBits) == t
  {
    var pS, pI := Pow2(sBits), Pow2(iBits);
    var q := t * pI + inst;
    assert id == q * pS + v by {
      Pow2Add(iBits, sBits);
      Regroup(t, pI, pS, inst);
    }
    assert BitAnd(id, pS - 1) == v by {
      DivModUnique(id, pS, q, v);
      AndLowMask(id, sBits);
    }
    assert ShiftRight(id, sBits) == q by {
      DivModUnique(id, pS, q, v);
    }
    assert BitAnd(q, pI - 1) == inst by {
      DivModUnique(q, pI, t, inst);
      AndLowMask(q, iBits);
    }
    assert ShiftRight(id, sBits + iBits) == t by {
      PackFields(t, inst, v, sBits, iBits);
      DivModUnique(id, Pow2(sBits + iBits), t, inst * pS + v);
    }
  }

  /** The id fits in timestampBits + instanceBits + sequenceBits bits when the timestamp offset fits its field. */
  lemma IdBound(l: Layout, s: Sequence, timestampBits: nat)
    requires Fits(l, s) && s.timestamp - l.epoch < Pow2(timestampBits)
    ensures GetId(l, s) < Pow2(l.TimestampShift() + timestampBits)
  {
    PackedSum(l, s);
    WeightedBound(GetId(l, s), s.timestamp - l.epoch, l.instanceId * Pow2(l.sequenceBits) + s.value,
                  l.TimestampShift(), timestampBits);
  }

  /** t * 2^k + low with low < 2^k and t < 2^b stays below 2^(k + b). */
  lemma WeightedBound(id: nat, t: nat, low: nat, k: nat, b: nat)
    requires id == t * Pow2(k) + low && low < Pow2(k) && t < Pow2(b)
    ensures id < Pow2(k + b)
  {
    LowFieldsBound(t, low, Pow2(b), Pow2(k));
    Pow2Add(b, k);
  }

  /** Packing preserves issue order: a sequence issued before another packs to a smaller id. */
  lemma GetIdMonotone(l: Layout, a: Sequence, b: Sequence)
    requires Fits(l, a) && Fits(l, b) && Before(a, b)
    ensures GetId(l, a) < GetId(l, b)
  {
    PackedSum(l, a);
    PackedSum(l, b);
    var ta: nat, tb: nat := a.timestamp - l.epoch, b.timestamp - l.epoch;
    var low := l.instanceId * Pow2(l.sequenceBits);
    if ta < tb {
      WeightedLess(ta, tb, Pow2(l.TimestampShift()), low + a.value, low + b.value);
    }
  }

  /** A smaller high part decides the order when the low parts stay below the weight. */
  lemma WeightedLess(ta: nat, tb: nat, p: nat, la: nat, lb: nat)
    requires ta < tb && la < p
    ensures ta * p + la < tb * p + lb
  {
    assert tb * p == ta * p + p + (tb - ta - 1) * p;
    MulSign(tb - ta - 1, p);
  }
}
