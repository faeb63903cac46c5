/** The bit-timing search of common/hal/src/can_timing.c. */
module CanTiming {
  import opened Bits
  import opened CIntegers

  datatype Limits = Limits(prescalerMax: uint32, tseg1Max: uint32, tseg2Max: uint32, sjwMax: uint32)

  datatype Timing = Timing(prescaler: uint32, tseg1: uint32, tseg2: uint32, sjw: uint32, samplePoint: uint16)

  /** Where the caller wants the result. */
  class Record {
    var value: Timing

    constructor (initial: Timing)
      ensures value == initial
    {
      value := initial;
    }
  }

  datatype Request = Request(clock: uint32, bitrate: uint32, samplePoint: uint16)

  predicate Reasonable(r: Request) {
    r.bitrate != 0 && r.clock >= r.bitrate && 500 <= r.samplePoint <= 950
  }

  // ---- what a prescaler is good for ------------------------------------------------------

  /** The prescaler divides the clock into a whole number of quanta per bit. */
  predicate Exact(r: Request, presc: int, quanta: int) {
    presc >= 1 && r.clock == r.bitrate * presc * quanta
  }

  /** Phase segment 2, at the nearest quantum to the requested sample point but never empty. */
  predicate Nearest(r: Request, quanta: int, tseg2: int) {
    var wanted := quanta * (1000 - r.samplePoint);
    || (tseg2 >= 1 && -500 <= wanted - 1000 * tseg2 < 500)
    || (tseg2 == 1 && wanted < 500)
  }

  /** A bit of 1 + tseg1 + tseg2 quanta that this prescaler makes and the registers hold. */
  predicate Fits(r: Request, l: Limits, presc: int, tseg1: int, tseg2: int) {
    && 1 <= presc <= l.prescalerMax
    && tseg1 >= 1 && 1 + tseg1 + tseg2 >= 4
    && Exact(r, presc, 1 + tseg1 + tseg2)
    && Nearest(r, 1 + tseg1 + tseg2, tseg2)
    && tseg1 <= l.tseg1Max && tseg2 <= l.tseg2Max
  }

  /** Segment 2 as the code rounds it, before it is raised to one quantum. */
  function Rounded(quanta: int, samplePoint: uint16): int {
    (quanta * (1000 - samplePoint) + 500) / 1000
  }

  /** The achieved sample point as the code computes it, in 32-bit arithmetic. */
  function ReportedSamplePoint(tseg1: int, quanta: int): uint16
    requires quanta > 0
  {
    ToUint16(ToUint32(1000 * ToUint32(1 + tseg1)) / quanta)
  }

  // ---- arithmetic ------------------------------------------------------------------------

  lemma DividesExactly(r: Request, presc: int)
    requires presc >= 1 && r.bitrate >= 1
    ensures var d := presc * r.bitrate;
      d >= 1 && (r.clock % d == 0 ==> Exact(r, presc, r.clock / d))
      && (forall q :: Exact(r, presc, q) ==> r.clock % d == 0 && q == r.clock / d)
  {
    var d := presc * r.bitrate;
    MulMonotone(1, presc, r.bitrate);
    assert r.clock == d * (r.clock / d) + r.clock % d;
    if r.clock % d == 0 {
      assert r.bitrate * presc * (r.clock / d) == d * (r.clock / d);
    }
    forall q | Exact(r, presc, q)
      ensures r.clock % d == 0 && q == r.clock / d
    {
      assert r.clock == q * d + 0;
      ModUnique(r.clock, d, q, 0);
    }
  }

  /** A larger prescaler makes no more quanta. */
  lemma FewerQuanta(r: Request, p: int, m: int, q: int, n: int)
    requires Exact(r, p, m) && Exact(r, q, n) && p <= q && r.bitrate >= 1 && r.clock >= 1
    ensures n <= m
  {
    var a, b := r.bitrate * p, r.bitrate * q;
    MulMonotone(p, q, r.bitrate);
    MulMonotone(1, p, r.bitrate);
    assert a * m == b * n && 1 <= a <= b;
    assert n > m ==> a * m < b * n by {
      if n > m {
        assert n >= 1 by {
          if n <= 0 {
            MulMonotone(n, 0, b);
          }
        }
        MulMonotone(a, b, n);
        MulMonotone(m + 1, n, a);
      }
    }
  }

  lemma RoundedSegment(quanta: int, permille: int)
    requires quanta >= 4 && 50 <= permille <= 500
    ensures var x := quanta * permille;
      var raw := (x + 500) / 1000;
      0 <= raw && raw + 2 <= quanta && x >= 200 && -500 <= x - 1000 * raw < 500
  {
    MulMonotone(50, permille, quanta);
    MulMonotone(permille, 500, quanta);
    var x := quanta * permille;
    assert x + 500 == 1000 * ((x + 500) / 1000) + (x + 500) % 1000;
  }

  /** There is exactly one nearest segment, and it leaves room for segment 1. */
  lemma NearestIsRounded(r: Request, quanta: int, tseg2: int)
    requires Reasonable(r) && quanta >= 4
    ensures var raw := Rounded(quanta, r.samplePoint);
      0 <= raw <= quanta - 2 && (Nearest(r, quanta, tseg2) <==> tseg2 == if raw < 1 then 1 else raw)
  {
    RoundedSegment(quanta, 1000 - r.samplePoint);
  }

  // ---- the search ------------------------------------------------------------------------

  /** No prescaler below p works. */
  ghost predicate NoneBelow(r: Request, l: Limits, p: int) {
    forall q, t1, t2 :: Fits(r, l, q, t1, t2) ==> q >= p
  }

  /** What trying one prescaler tells: at most one split fits it, the one the code computes. */
  lemma OneCandidate(r: Request, l: Limits, presc: int, quanta: int, tseg2: int)
    requires Reasonable(r) && 1 <= presc <= l.prescalerMax && Exact(r, presc, quanta) && quanta >= 4
    requires Nearest(r, quanta, tseg2)
    ensures tseg2 + 2 <= quanta
    ensures forall t1, t2 :: Fits(r, l, presc, t1, t2) <==>
              t1 == quanta - 1 - tseg2 && t2 == tseg2 && t1 <= l.tseg1Max && t2 <= l.tseg2Max
  {
    NearestIsRounded(r, quanta, tseg2);
    RoundedSegment(quanta, 1000 - r.samplePoint);
    DividesExactly(r, presc);
    forall t1, t2 | Fits(r, l, presc, t1, t2)
      ensures t1 == quanta - 1 - tseg2 && t2 == tseg2
    {
      NearestIsRounded(r, quanta, t2);
    }
  }

  lemma NoCandidate(r: Request, l: Limits, presc: int)
    requires Reasonable(r) && presc >= 1 && r.clock % (presc * r.bitrate) != 0 && NoneBelow(r, l, presc)
    ensures NoneBelow(r, l, presc + 1)
  {
    DividesExactly(r, presc);
  }

  lemma CandidateRejected(r: Request, l: Limits, presc: int, quanta: int, tseg2: int)
    requires Reasonable(r) && 1 <= presc <= l.prescalerMax && Exact(r, presc, quanta) && quanta >= 4
    requires Nearest(r, quanta, tseg2) && NoneBelow(r, l, presc)
    requires quanta - 1 - tseg2 > l.tseg1Max || tseg2 > l.tseg2Max
    ensures NoneBelow(r, l, presc + 1)
  {
    OneCandidate(r, l, presc, quanta, tseg2);
  }

  lemma NothingFits(r: Request, l: Limits, p: int)
    requires NoneBelow(r, l, p) && p > l.prescalerMax
    ensures forall q, t1, t2 :: !Fits(r, l, q, t1, t2)
  {
  }

  /** Where one prescaler makes fewer than four quanta, no larger one makes more: the early exit is sound. */
  lemma ExitIsSound(r: Request, l: Limits, presc: int, quanta: int)
    requires Reasonable(r) && NoneBelow(r, l, presc) && Exact(r, presc, quanta) && quanta < 4
    ensures forall q, t1, t2 :: !Fits(r, l, q, t1, t2)
  {
    forall q, t1, t2
      ensures !Fits(r, l, q, t1, t2)
    {
      if Fits(r, l, q, t1, t2) {
        FewerQuanta(r, presc, quanta, q, 1 + t1 + t2);
      }
    }
  }

  /**
    A prescaler that divides the clock at all exists exactly when the bit rate divides it. With the
    largest possible limit the loop ends only at such a prescaler: without one its counter wraps to 0,
    and the code divides by it.
   */
  lemma SomePrescalerDividesExactlyWhen(r: Request)
    requires Reasonable(r)
    ensures (exists p, q :: Exact(r, p, q)) <==> r.clock % r.bitrate == 0
  {
    if r.clock % r.bitrate == 0 {
      var p := r.clock / r.bitrate;
      DivParts(r.clock, r.bitrate);
      assert r.bitrate * p == p * r.bitrate;
      assert Exact(r, p, 1);
    }
    forall p, q | Exact(r, p, q)
      ensures r.clock % r.bitrate == 0
    {
      assert r.clock == (p * q) * r.bitrate + 0;
      ModUnique(r.clock, r.bitrate, p * q, 0);
    }
  }

  /** The prescaler at which one quantum is left is the last one a search gets to. */
  lemma LastPrescaler(clock: uint32, bitrate: uint32, presc: uint32)
    requires bitrate >= 1 && clock >= bitrate && clock % bitrate == 0 && presc == clock / bitrate
    ensures presc * bitrate == clock && clock % (presc * bitrate) == 0 && clock / (presc * bitrate) == 1
  {
    DivParts(clock, bitrate);
    assert clock == 1 * clock + 0;
  }

  /**
    The search succeeds exactly when some prescaler within the limit fits, and stores the least one,
    that is the one with the most quanta per bit; otherwise it stores nothing. limits and out may be
    NULL. The only thing asked of the caller is that the loop counter does not have to pass 2^32 - 1.
   */
  method CalcTiming(clock: uint32, bitrate: uint32, samplePoint: uint16, limits: Option<Limits>, out: Record?)
    returns (found: bool)
    requires Reasonable(Request(clock, bitrate, samplePoint)) && limits.Some? ==>
               limits.value.prescalerMax < 0xFFFF_FFFF || clock % bitrate == 0
    modifies out
    ensures found ==> limits.Some? && out != null
    ensures limits.Some? && out != null ==>
      var r, l, t := Request(clock, bitrate, samplePoint), limits.value, out.value;
      if found then
        && Reasonable(r) && Fits(r, l, t.prescaler, t.tseg1, t.tseg2) && NoneBelow(r, l, t.prescaler)
        && t.sjw == (if t.tseg2 < l.sjwMax then t.tseg2 else l.sjwMax)
        && t.samplePoint == ReportedSamplePoint(t.tseg1, 1 + t.tseg1 + t.tseg2)
      else
        t == old(out.value) && (!Reasonable(r) || forall p, t1, t2 :: !Fits(r, l, p, t1, t2))
  {
    hide Fits, Nearest, Exact, Rounded, NoneBelow;
    if limits.None? || out == null || bitrate == 0 || clock < bitrate || samplePoint < 500 || samplePoint > 950 {
      return false;
    }
    ghost var r := Request(clock, bitrate, samplePoint);
    var l := limits.value;
    NoneBelowOne(r, l);
    DivParts(clock, bitrate);
    ghost var last := clock / bitrate;
    if clock % bitrate == 0 {
      LastPrescaler(clock, bitrate, last);
    }
    var presc: uint32 := 1;
    while presc <= l.prescalerMax
      invariant 1 <= presc
      invariant clock % bitrate == 0 ==> presc <= last
      invariant NoneBelow(r, l, presc)
      invariant out.value == old(out.value)
    {
      var denom := presc * bitrate;
      DividesExactly(r, presc);
      if clock % denom != 0 {
        NoCandidate(r, l, presc);
        presc := presc + 1;
        continue;
      }
      TotalFits(clock, denom);
      var total: uint32 := clock / denom;
      if total < 4 {
        ExitIsSound(r, l, presc, total);
        return false;
      }
      NearestIsRounded(r, total, Rounded(total, samplePoint));
      var tseg2: uint32 := Rounded(total, samplePoint);
      if tseg2 < 1 {
        tseg2 := 1;
      }
      NearestIsRounded(r, total, tseg2);
      var tseg1: uint32 := total - 1 - tseg2;
      if tseg1 < 1 || tseg1 > l.tseg1Max || tseg2 > l.tseg2Max {
        CandidateRejected(r, l, presc, total, tseg2);
        presc := presc + 1;
        continue;
      }
      OneCandidate(r, l, presc, total, tseg2);
      out.value := Timing(presc, tseg1, tseg2, if tseg2 < l.sjwMax then tseg2 else l.sjwMax,
                          ReportedSamplePoint(tseg1, total));
      return true;
    }
    NothingFits(r, l, presc);
    return false;
  }

  lemma TotalFits(clock: uint32, denom: int)
    requires denom >= 1
    ensures 0 <= clock / denom < TWO_32
  {
    DivParts(clock, denom);
  }

  lemma NoneBelowOne(r: Request, l: Limits)
    ensures NoneBelow(r, l, 1)
  {
  }

  // ---- what a fitting timing promises -----------------------------------------------------

  /**
    Soundness: the bit rate is met exactly, and the sample point is off by at most half a quantum, or
    by less than a whole one when segment 2 had to be raised to a single quantum.
   */
  lemma SamplePointIsClose(r: Request, l: Limits, presc: int, tseg1: int, tseg2: int)
    requires Reasonable(r) && Fits(r, l, presc, tseg1, tseg2)
    ensures var quanta := 1 + tseg1 + tseg2;
      var off := 1000 * (1 + tseg1) - r.samplePoint * quanta;
      && r.clock == r.bitrate * presc * quanta
      && tseg2 >= 1
      && Abs(off) < 1000
      && (Abs(off) <= 500 || (tseg2 == 1 && quanta * (1000 - r.samplePoint) < 500))
  {
    var quanta := 1 + tseg1 + tseg2;
    NearestIsRounded(r, quanta, tseg2);
    RoundedSegment(quanta, 1000 - r.samplePoint);
    assert quanta * (1000 - r.samplePoint) == 1000 * quanta - r.samplePoint * quanta;
  }

  /** The least fitting prescaler is the one with the most quanta per bit. */
  lemma MostQuanta(r: Request, l: Limits, p: int, t1: int, t2: int, q: int, s1: int, s2: int)
    requires Reasonable(r) && Fits(r, l, p, t1, t2) && NoneBelow(r, l, p) && Fits(r, l, q, s1, s2)
    ensures 1 + s1 + s2 <= 1 + t1 + t2
  {
    FewerQuanta(r, p, 1 + t1 + t2, q, 1 + s1 + s2);
  }

  /** One report is right exactly when segment 1 is short enough for the 32-bit product not to wrap. */
  lemma ReportIsExact(tseg1: uint32, quanta: uint32)
    requires tseg1 + 2 <= quanta
    ensures ReportedSamplePoint(tseg1, quanta) == 1000 * (1 + tseg1) / quanta <==> tseg1 <= 4294966
  {
    var x := 1000 * (1 + tseg1);
    var w := ToUint32(x);
    assert ToUint32(1 + tseg1) == 1 + tseg1;
    QuotientAtMost(x, quanta);
    if tseg1 <= 4294966 {
      assert w == x;
      assert ToUint16(x / quanta) == x / quanta;
    } else {
      assert x - w >= TWO_32 by {
        DivParts(x, TWO_32);
      }
      QuotientDrops(x, w, quanta);
      assert ToUint16(w / quanta) == w / quanta;
    }
  }

  /**
    For given hardware limits every sample point the search reports is the achieved one exactly when
    the limits allow no prescaler, or no segment 1 long enough to wrap, or no segment 2 that long a
    segment 1 could go with.
   */
  lemma ReportIsExactlyWhen(l: Limits)
    ensures (forall r, p, t1, t2 :: Reasonable(r) && Fits(r, l, p, t1, t2) && NoneBelow(r, l, p) ==>
               ReportedSamplePoint(t1, 1 + t1 + t2) == 1000 * (1 + t1) / (1 + t1 + t2))
       <==> l.prescalerMax == 0 || l.tseg1Max <= 4294966 || l.tseg2Max <= 226050
  {
    hide Nearest, ReportedSamplePoint;
    if l.prescalerMax == 0 || l.tseg1Max <= 4294966 || l.tseg2Max <= 226050 {
      forall r, p, t1, t2 | Reasonable(r) && Fits(r, l, p, t1, t2) && NoneBelow(r, l, p)
        ensures ReportedSamplePoint(t1, 1 + t1 + t2) == 1000 * (1 + t1) / (1 + t1 + t2)
      {
        FittingIsSmall(r, l, p, t1, t2);
        LongSegmentsGoTogether(r, t1, t2);
        ReportIsExact(t1, 1 + t1 + t2);
      }
    } else {
      var r := Request(4521019, 1, 950);
      NearestToTheEdge(r);
      assert Fits(r, l, 1, 4294967, 226051);
      NoneBelowOne(r, l);
      ReportIsExact(4294967, 4521019);
    }
  }

  lemma NearestToTheEdge(r: Request)
    requires r == Request(4521019, 1, 950)
    ensures Nearest(r, 4521019, 226051)
  {
    var wanted := 4521019 * (1000 - r.samplePoint);
    assert wanted - 1000 * 226051 == -50;
  }

  lemma FittingIsSmall(r: Request, l: Limits, presc: int, tseg1: int, tseg2: int)
    requires Reasonable(r) && Fits(r, l, presc, tseg1, tseg2)
    ensures 0 <= tseg1 && 1 <= tseg2 && 1 + tseg1 + tseg2 <= r.clock && Nearest(r, 1 + tseg1 + tseg2, tseg2)
  {
    var quanta := 1 + tseg1 + tseg2;
    NearestIsRounded(r, quanta, tseg2);
    MulMonotone(1, r.bitrate, presc);
    MulMonotone(1, r.bitrate * presc, quanta);
  }

  /** A segment 1 that wraps the product takes a segment 2 of more than 226050 quanta. */
  lemma LongSegmentsGoTogether(r: Request, tseg1: int, tseg2: int)
    requires Reasonable(r) && tseg1 >= 0 && Nearest(r, 1 + tseg1 + tseg2, tseg2)
    ensures tseg1 > 4294966 ==> tseg2 > 226050
  {
    if tseg1 > 4294966 && tseg2 >= 1 {
      MulMonotone(50, 1000 - r.samplePoint, 1 + tseg1 + tseg2);
    }
  }

  /** Half of ten million quanta is reported as 70 per mille. */
  lemma ReportIsWrongFor(r: Request, l: Limits)
    requires r == Request(10000000, 1, 500) && l == Limits(1, 10000000, 10000000, 1)
    ensures Reasonable(r) && NoneBelow(r, l, 1)
    ensures forall t1, t2 :: Fits(r, l, 1, t1, t2) <==> t1 == 4999999 && t2 == 5000000
    ensures ReportedSamplePoint(4999999, 10000000) == 70 && 1000 * (1 + 4999999) / 10000000 == 500
  {
    NoneBelowOne(r, l);
    assert Nearest(r, 10000000, 5000000);
    OneCandidate(r, l, 1, 10000000, 5000000);
    assert ToUint32(1000 * ToUint32(1 + 4999999)) == 705032704;
    assert 705032704 / 10000000 == 70;
  }

  lemma QuotientAtMost(x: int, quanta: int)
    requires quanta >= 1 && 0 <= x <= 1000 * quanta
    ensures 0 <= x / quanta <= 1000
  {
    DivParts(x, quanta);
    var q := x / quanta;
    assert q >= 1001 ==> q * quanta >= 1001 * quanta by {
      if q >= 1001 {
        MulMonotone(1001, q, quanta);
      }
    }
  }

  lemma QuotientDrops(x: int, w: int, quanta: int)
    requires quanta >= 1 && 0 <= w && x - w >= quanta
    ensures 0 <= w / quanta < x / quanta
  {
    DivParts(x, quanta);
    DivParts(w, quanta);
    var p, q := w / quanta, x / quanta;
    assert p >= q ==> p * quanta >= q * quanta by {
      if p >= q {
        MulMonotone(q, p, quanta);
      }
    }
  }
}
