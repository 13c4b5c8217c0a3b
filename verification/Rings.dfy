/**
 The single-producer single-consumer rings shared with the kernel. A ring keeps the 32-bit producer and
 consumer words of the shared mapping and this side's cached copies of them; all differences wrap. What
 the caller may rely on is stated against counters that never wrap.
 */
module Rings {
  import opened Words

  datatype Ring<T> = Ring(slots: seq<T>, producer: u32, consumer: u32, cachedProd: u32, cachedCons: u32)

  datatype Grant = Refused | Granted(idx: u32)

  function Free<T>(r: Ring<T>): u32 { Sub32(r.cachedCons, r.cachedProd) }

  /** Reserves `nb` slots for writing; the consumer word is read only when the cached copy is too old. */
  function Reserve<T>(r: Ring<T>, nb: u32): (Grant, Ring<T>) {
    var fresh' := if Free(r) >= nb then r else r.(cachedCons := Add32(r.consumer, |r.slots|));
    if Free(fresh') < nb then (Refused, fresh')
    else (Granted(fresh'.cachedProd), fresh'.(cachedProd := Add32(fresh'.cachedProd, nb)))
  }

  function Submit<T>(r: Ring<T>, nb: u32): Ring<T> { r.(producer := Add32(r.producer, nb)) }

  function Available<T>(r: Ring<T>): u32 { Sub32(r.cachedProd, r.cachedCons) }

  /** Asks for one entry to read; the producer word is read only when nothing is known to be waiting. */
  function Peek<T>(r: Ring<T>): (Grant, Ring<T>) {
    var fresh' := if Available(r) != 0 then r else r.(cachedProd := r.producer);
    if Available(fresh') == 0 then (Refused, fresh')
    else (Granted(fresh'.cachedCons), fresh'.(cachedCons := Add32(fresh'.cachedCons, 1)))
  }

  function Release<T>(r: Ring<T>, nb: u32): Ring<T> { r.(consumer := Add32(r.consumer, nb)) }

  /** `idx & mask`. */
  function Mask(idx: u32, size: nat): nat
    requires size > 0
  {
    idx % size
  }

  /** The ring is ours to fill: these unbounded counts are what the wrapped words stand for. */
  ghost predicate Fills<T>(r: Ring<T>, reserved: nat, submitted: nat, consumed: nat) {
    && RingSize(|r.slots|)
    && consumed <= reserved <= consumed + |r.slots|
    && r.producer == ToU32(submitted)
    && r.consumer == ToU32(consumed)
    && r.cachedProd == ToU32(reserved)
    && Free(r) <= |r.slots|
    && reserved + Free(r) - |r.slots| <= consumed
  }

  /** The ring is ours to drain. */
  ghost predicate Drains<T>(r: Ring<T>, produced: nat, peeked: nat, released: nat) {
    && RingSize(|r.slots|)
    && peeked <= produced <= peeked + |r.slots|
    && r.producer == ToU32(produced)
    && r.consumer == ToU32(released)
    && r.cachedCons == ToU32(peeked)
    && peeked + Available(r) <= produced
  }

  /** A reservation is granted exactly when that many slots are free in the unbounded count, cached copy or not. */
  lemma ReserveIsExact<T>(r: Ring<T>, reserved: nat, submitted: nat, consumed: nat, nb: u32)
    requires Fills(r, reserved, submitted, consumed)
    ensures Reserve(r, nb).0.Granted? <==> reserved + nb <= consumed + |r.slots|
    ensures Reserve(r, nb).0.Granted? ==>
              && Reserve(r, nb).0.idx == ToU32(reserved)
              && Mask(Reserve(r, nb).0.idx, |r.slots|) == reserved % |r.slots|
              && Fills(Reserve(r, nb).1, reserved + nb, submitted, consumed)
    ensures Reserve(r, nb).0.Refused? ==> Fills(Reserve(r, nb).1, reserved, submitted, consumed)
    ensures Reserve(r, nb).1.slots == r.slots
  {
    var n := |r.slots|;
    SumSurvivesWrap(consumed, n);
    DifferenceSurvivesWrap(consumed + n, reserved);
    var fresh' := if Free(r) >= nb then r else r.(cachedCons := Add32(r.consumer, n));
    var f := Free(fresh');
    assert reserved + f - n <= consumed;
    MaskIgnoresWrap(reserved, n);
    SumSurvivesWrap(reserved, nb);
    if f >= nb {
      FreeAfterReserve(fresh'.cachedCons, fresh'.cachedProd, nb);
    }
  }

  lemma FreeAfterReserve(cons: u32, prod: u32, nb: u32)
    requires nb <= Sub32(cons, prod)
    ensures Sub32(cons, Add32(prod, nb)) == Sub32(cons, prod) - nb
  {
  }

  /** One entry is handed out exactly when one is waiting in the unbounded count. */
  lemma PeekIsExact<T>(r: Ring<T>, produced: nat, peeked: nat, released: nat)
    requires Drains(r, produced, peeked, released)
    ensures Peek(r).0.Granted? <==> peeked < produced
    ensures Peek(r).0.Granted? ==>
              && Peek(r).0.idx == ToU32(peeked)
              && Mask(Peek(r).0.idx, |r.slots|) == peeked % |r.slots|
              && Drains(Peek(r).1, produced, peeked + 1, released)
    ensures Peek(r).0.Refused? ==> Drains(Peek(r).1, produced, peeked, released)
    ensures Peek(r).1.slots == r.slots
  {
    DifferenceSurvivesWrap(produced, peeked);
    var fresh' := if Available(r) != 0 then r else r.(cachedProd := r.producer);
    MaskIgnoresWrap(peeked, |r.slots|);
    SumSurvivesWrap(peeked, 1);
    if Available(fresh') != 0 {
      FreeAfterReserve(fresh'.cachedProd, fresh'.cachedCons, 1);
    }
  }

  lemma SubmitFills<T>(r: Ring<T>, reserved: nat, submitted: nat, consumed: nat, nb: u32)
    requires Fills(r, reserved, submitted, consumed)
    ensures Fills(Submit(r, nb), reserved, submitted + nb, consumed)
  {
    SumSurvivesWrap(submitted, nb);
  }

  lemma ReleaseDrains<T>(r: Ring<T>, produced: nat, peeked: nat, released: nat, nb: u32)
    requires Drains(r, produced, peeked, released)
    ensures Drains(Release(r, nb), produced, peeked, released + nb)
  {
    SumSurvivesWrap(released, nb);
  }

  /** The kernel takes one entry from a ring we fill. */
  function Consume<T>(r: Ring<T>): Ring<T> { r.(consumer := Add32(r.consumer, 1)) }

  lemma ConsumeFills<T>(r: Ring<T>, reserved: nat, submitted: nat, consumed: nat)
    requires Fills(r, reserved, submitted, consumed) && consumed < reserved
    ensures Fills(Consume(r), reserved, submitted, consumed + 1)
  {
    SumSurvivesWrap(consumed, 1);
  }

  /** The kernel appends one entry to a ring we drain. */
  function Produce<T>(r: Ring<T>, x: T): Ring<T>
    requires |r.slots| > 0
  {
    r.(slots := r.slots[Mask(r.producer, |r.slots|) := x], producer := Add32(r.producer, 1))
  }

  lemma ProduceDrains<T>(r: Ring<T>, produced: nat, peeked: nat, released: nat, x: T)
    requires Drains(r, produced, peeked, released) && produced < peeked + |r.slots|
    ensures Drains(Produce(r, x), produced + 1, peeked, released)
    ensures Produce(r, x).slots == r.slots[produced % |r.slots| := x]
  {
    SumSurvivesWrap(produced, 1);
    MaskIgnoresWrap(produced, |r.slots|);
  }
}
