/** The request limiter: three counters that are always the count of the slots that are out. */
module ConcurrencyLimiter {
  import opened Sums

  /** A slot that was handed out; its release works once. */
  class Slot {
    const ip: string
    const mirror: int
    var released: bool

    constructor (ip: string, mirror: int)
      ensures this.ip == ip && this.mirror == mirror && !released
    {
      this.ip, this.mirror, released := ip, mirror, false;
    }
  }

  ghost function OfIp(slots: set<Slot>, ip: string): set<Slot> {
    set slot | slot in slots && slot.ip == ip
  }

  ghost function OfMirror(slots: set<Slot>, mirror: int): set<Slot> {
    set slot | slot in slots && slot.mirror == mirror
  }

  lemma OneMoreOfIp(slots: set<Slot>, slot: Slot, ip: string)
    requires slot !in slots
    ensures |OfIp(slots + {slot}, ip)| == |OfIp(slots, ip)| + if ip == slot.ip then 1 else 0
  {
    assert OfIp(slots + {slot}, ip) == OfIp(slots, ip) + if ip == slot.ip then {slot} else {};
  }

  lemma OneMoreOfMirror(slots: set<Slot>, slot: Slot, mirror: int)
    requires slot !in slots
    ensures |OfMirror(slots + {slot}, mirror)| == |OfMirror(slots, mirror)| + if mirror == slot.mirror then 1 else 0
  {
    assert OfMirror(slots + {slot}, mirror) == OfMirror(slots, mirror) + if mirror == slot.mirror then {slot} else {};
  }

  /** One slot more counts for its own address and mirror and for no other. */
  lemma OneMore(slots: set<Slot>, slot: Slot)
    requires slot !in slots
    ensures forall ip :: |OfIp(slots + {slot}, ip)| == |OfIp(slots, ip)| + if ip == slot.ip then 1 else 0
    ensures forall mirror ::
              |OfMirror(slots + {slot}, mirror)| == |OfMirror(slots, mirror)| + if mirror == slot.mirror then 1 else 0
  {
    hide OfIp, OfMirror;
    forall ip ensures |OfIp(slots + {slot}, ip)| == |OfIp(slots, ip)| + if ip == slot.ip then 1 else 0 {
      OneMoreOfIp(slots, slot, ip);
    }
    forall mirror ensures |OfMirror(slots + {slot}, mirror)| == |OfMirror(slots, mirror)| +
        if mirror == slot.mirror then 1 else 0 {
      OneMoreOfMirror(slots, slot, mirror);
    }
  }

  /** One more at `k`. */
  method CountUp<K>(m: map<K, int>, k: K) returns (r: map<K, int>)
    ensures Sum(r) == Sum(m) + 1 && forall other :: At(r, other) == At(m, other) + if other == k then 1 else 0
  {
    hide Sum;
    SumSet(m, k, At(m, k) + 1);
    r := m[k := At(m, k) + 1];
  }

  /** One less at `k`; a zero is deleted. */
  method CountDown<K>(m: map<K, int>, k: K) returns (r: map<K, int>)
    requires At(m, k) > 0
    ensures Sum(r) == Sum(m) - 1 && forall other :: At(r, other) == At(m, other) - if other == k then 1 else 0
  {
    hide Sum;
    SumSet(m, k, At(m, k) - 1);
    r := m[k := At(m, k) - 1];
    if r[k] == 0 {
      SumDrop(r, k);
      r := r - {k};
    }
  }

  class Limiter {
    const maxTotal: int
    const maxIp: int
    var total: int
    var byIp: map<string, int>
    var byMirror: map<int, int>
    /** The slots that are out. */
    ghost var held: set<Slot>

    constructor (maxTotal: int, maxIp: int)
      ensures this.maxTotal == maxTotal && this.maxIp == maxIp && held == {} && Valid()
    {
      this.maxTotal, this.maxIp, total, byIp, byMirror, held := maxTotal, maxIp, 0, map[], map[], {};
    }

    /** The counters are the numbers of slots out in all, for each address and for each
        mirror; so each of the two maps adds up to the total. */
    ghost predicate Valid()
      reads this, held
    {
      && (forall slot | slot in held :: !slot.released)
      && total == |held|
      && (forall ip :: At(byIp, ip) == |OfIp(held, ip)|)
      && (forall mirror :: At(byMirror, mirror) == |OfMirror(held, mirror)|)
      && Sum(byIp) == total && Sum(byMirror) == total
    }

    /** A slot is granted exactly while every limit that is set leaves room. */
    method Acquire(ip: string, mirror: int, mirrorMax: int) returns (slot: Slot?)
      requires Valid()
      modifies this
      ensures Valid()
      ensures slot != null <==>
              && (maxTotal <= 0 || old(|held|) < maxTotal)
              && (maxIp <= 0 || |OfIp(old(held), ip)| < maxIp)
              && (mirrorMax <= 0 || |OfMirror(old(held), mirror)| < mirrorMax)
      ensures slot != null ==>
                fresh(slot) && slot.ip == ip && slot.mirror == mirror && !slot.released && held == old(held) + {slot}
      ensures slot == null ==> held == old(held)
    {
      hide OfIp, OfMirror, Sum, At;
      if maxTotal > 0 && total >= maxTotal {
        return null;
      }
      if maxIp > 0 && At(byIp, ip) >= maxIp {
        return null;
      }
      if mirrorMax > 0 && At(byMirror, mirror) >= mirrorMax {
        return null;
      }
      slot := new Slot(ip, mirror);
      total := total + 1;
      byIp := CountUp(byIp, ip);
      byMirror := CountUp(byMirror, mirror);
      OneMore(held, slot);
      held := held + {slot};
    }

    /** Releasing gives one slot back; a second call does nothing. */
    method Release(slot: Slot)
      requires Valid() && (slot in held || slot.released)
      modifies this, slot
      ensures Valid() && slot.released && held == old(held) - {slot}
    {
      hide OfIp, OfMirror, Sum, At;
      if slot.released {
        assert held - {slot} == held;
        return;
      }
      var ip, mirror := slot.ip, slot.mirror;
      OneMore(held - {slot}, slot);
      assert held - {slot} + {slot} == held;
      held := held - {slot};
      slot.released := true;
      total := total - 1;
      byIp := CountDown(byIp, ip);
      byMirror := CountDown(byMirror, mirror);
    }
  }
}
