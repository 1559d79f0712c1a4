/** The bandwidth limit of the ftp server: after every chunk the transfer pauses so that the
    chunk has taken about as long as the limit asks for.  Seconds are reals. */
module RateLimit {
  import opened Wrappers

  const UINT_RANGE: int := 0x1_0000_0000

  /** A reading of the clock. */
  datatype Time = Time(sec: int, usec: int)

  /** One read or sendfile of n bytes, and the clock when limit_rate is entered and left. */
  datatype Chunk = Chunk(n: nat, entered: Time, left: Time)

  /** The time that a chunk is charged: a clock that did not go on counts as 10 ms. */
  function Elapsed(start: Time, now: Time): (e: real)
    ensures e > 0.0
  {
    var e := (now.sec - start.sec) as real + (now.usec - start.usec) as real / 1000000.0;
    if e <= 0.0 then 0.01 else e
  }

  /** A reading in microseconds. */
  function Micros(t: Time): int {
    t.sec * 1000000 + t.usec
  }

  /** What is charged is the time between the two readings, in seconds.  Consecutive times add
      up, and a second counts as one however it is written. */
  lemma ElapsedMeasures(a: Time, b: Time, c: Time)
    ensures Micros(a) < Micros(b) ==> Elapsed(a, b) * 1000000.0 == (Micros(b) - Micros(a)) as real
    ensures Micros(b) <= Micros(a) ==> Elapsed(a, b) == 0.01
    ensures Micros(a) < Micros(b) < Micros(c) ==> Elapsed(a, b) + Elapsed(b, c) == Elapsed(a, c)
    ensures Elapsed(a, Time(a.sec + 1, a.usec)) == Elapsed(a, Time(a.sec, a.usec + 1000000)) == 1.0
  {
    forall x, y
      ensures Micros(x) < Micros(y) ==> Elapsed(x, y) * 1000000.0 == (Micros(y) - Micros(x)) as real
      ensures Micros(y) <= Micros(x) ==> Elapsed(x, y) == 0.01
    {
      var s, u := y.sec - x.sec, y.usec - x.usec;
      assert Micros(y) - Micros(x) == s * 1000000 + u;
      assert (s * 1000000 + u) as real == s as real * 1000000.0 + u as real;
    }
  }

  /** Bytes per second as an unsigned int. */
  function Rate(n: nat, e: real): nat
    requires e > 0.0
  {
    (n as real / e).Floor % UINT_RANGE
  }

  /** The seconds to sleep. */
  function Pause(n: nat, e: real, limit: nat): real
    requires e > 0.0 && limit > 0
  {
    if Rate(n, e) < limit then 0.0 else ((Rate(n, e) / limit) as real - 1.0) * e
  }

  /** The speed of a chunk fits an unsigned int. */
  predicate InRange(n: nat, e: real)
    requires e > 0.0
  {
    n as real / e < UINT_RANGE as real
  }

  /** The speed of a chunk fits an unsigned int, or is below twice the limit anyway. */
  predicate Catchable(n: nat, e: real, limit: nat)
    requires e > 0.0
  {
    InRange(n, e) || n as real / e < 2.0 * limit as real
  }

  /** The rate is the whole part of the speed, less a multiple of 2^32. */
  lemma RateWraps(n: nat, e: real) returns (turns: nat)
    requires e > 0.0
    ensures Rate(n, e) < 0x1_0000_0000
    ensures var x := (turns * 0x1_0000_0000 + Rate(n, e)) as real; x * e <= n as real < (x + 1.0) * e
  {
    var v := n as real / e;
    DivMul(n as real, e);
    turns := v.Floor / UINT_RANGE;
    assert v.Floor == turns * UINT_RANGE + v.Floor % UINT_RANGE;
    assert Rate(n, e) == v.Floor % UINT_RANGE;
    hide Rate;
    Between(n as real, v, e, v.Floor as real, v.Floor as real + 1.0);
  }

  /** A chunk whose rate is q times the limit and less than q + 1 times takes q times as long
      with its pause; there is no pause below the limit. */
  lemma PauseIs(n: nat, e: real, limit: nat) returns (q: nat)
    requires e > 0.0 && limit > 0
    ensures limit * q <= Rate(n, e) < limit * (q + 1)
    ensures q == 0 ==> Pause(n, e, limit) == 0.0
    ensures q >= 1 ==> e + Pause(n, e, limit) == q as real * e
  {
    var r := Rate(n, e);
    q := r / limit;
    assert limit * q <= r < limit * q + limit;
    assert limit * (q + 1) == limit * q + limit;
    if r < limit {
      assert q >= 1 ==> limit * q >= limit;
    } else {
      assert q <= 0 ==> limit * q <= 0;
    }
  }

  // ----- one chunk

  lemma MulLe(a: real, b: real, e: real)
    requires a <= b && e >= 0.0
    ensures a * e <= b * e
  {
  }

  lemma MulLt(a: real, b: real, e: real)
    requires a < b && e > 0.0
    ensures a * e < b * e
  {
  }

  lemma MulAssoc(a: real, b: real, c: real)
    ensures a * (b * c) == a * b * c
  {
  }

  lemma QuotientBounds(r: nat, limit: nat)
    requires limit > 0
    ensures limit as real * (r / limit) as real <= r as real
    ensures r as real + 1.0 <= limit as real * ((r / limit) as real + 1.0)
    ensures r >= limit ==> r / limit >= 1
  {
    var q := r / limit;
    assert limit * q <= r && r + 1 <= limit * q + limit;
    assert (limit * q) as real == limit as real * q as real;
    if q < 1 {
      assert limit * q <= 0;
    }
  }

  lemma DivMul(n: real, e: real)
    requires e > 0.0 && n >= 0.0
    ensures n / e >= 0.0 && n / e * e == n
  {
  }

  lemma Between(n: real, x: real, e: real, lo: real, hi: real)
    requires e > 0.0 && n == x * e && lo <= x < hi
    ensures lo * e <= n < hi * e
  {
    MulLe(lo, x, e);
    MulLt(x, hi, e);
  }

  lemma WholePart(x: real)
    requires 0.0 <= x < UINT_RANGE as real
    ensures x.Floor % UINT_RANGE == x.Floor >= 0
  {
  }

  /** n bytes in e seconds at a rate of r whole bytes per second. */
  lemma RateIs(n: nat, e: real)
    requires e > 0.0 && InRange(n, e)
    ensures Rate(n, e) as real * e <= n as real < (Rate(n, e) as real + 1.0) * e
  {
    var x := n as real / e;
    DivMul(n as real, e);
    WholePart(x);
    assert Rate(n, e) == x.Floor;
    hide Rate;
    Between(n as real, x, e, x.Floor as real, x.Floor as real + 1.0);
  }

  lemma Regroup(lq: real, r: real, limit: real, q: real, e: real)
    requires e > 0.0 && lq == limit * q
    ensures lq <= r ==> q * (limit * e) <= r * e
    ensures r <= lq ==> r * e <= q * (limit * e)
  {
    MulAssoc(q, limit, e);
    if lq <= r { MulLe(lq, r, e); }
    if r <= lq { MulLe(r, lq, e); }
  }

  lemma UpperBound(n: real, rate: real, limit: real, q: real, e: real)
    requires e > 0.0 && n < rate * e && rate <= limit * q
    ensures n < q * (limit * e)
  {
    Regroup(limit * q, rate, limit, q, e);
  }

  /** The arithmetic of a pause: `rate` lies between q and q + 1 times the limit. */
  lemma SlowedDown(n: real, e: real, limit: real, q: real, rate: real)
    requires e > 0.0 && limit > 0.0 && q >= 1.0
    requires rate * e <= n < (rate + 1.0) * e
    requires limit * q <= rate && rate + 1.0 <= limit * (q + 1.0)
    ensures limit * (q * e) <= n
    ensures n * q < (q + 1.0) * (limit * (q * e))
    ensures n < 2.0 * (limit * (q * e))
  {
    var t := limit * e;
    assert limit * (q * e) == q * t by { MulAssoc(limit, q, e); MulAssoc(q, limit, e); }
    assert q * t <= n by { Regroup(limit * q, rate, limit, q, e); }
    UpperBound(n, rate + 1.0, limit, q + 1.0, e);
    assert n * q < (q + 1.0) * (q * t) by {
      MulLt(n, (q + 1.0) * t, q);
      MulAssoc(q + 1.0, q, t);
      MulAssoc(q + 1.0, t, q);
    }
    assert (q + 1.0) * t <= (2.0 * q) * t by { MulLt(0.0, limit, e); MulLe(q + 1.0, 2.0 * q, t); }
  }

  lemma NotSlowedDown(n: real, e: real, limit: real, rate: real)
    requires e > 0.0 && limit > 0.0
    requires n < (rate + 1.0) * e && rate + 1.0 <= limit
    ensures n < 2.0 * (limit * (e + 0.0))
  {
    MulLe(rate + 1.0, limit, e);
    MulLt(0.0, limit, e);
  }

  /** A chunk that is slowed down, with ratio q, runs between the limit and (q+1)/q of it. */
  lemma SlowedBounds(n: nat, e: real, limit: nat)
    requires e > 0.0 && limit > 0 && InRange(n, e) && Rate(n, e) >= limit
    ensures var q, time := (Rate(n, e) / limit) as real, e + Pause(n, e, limit);
            && limit as real * time <= n as real < 2.0 * (limit as real * time)
            && n as real * q < (q + 1.0) * (limit as real * time)
  {
    var r := Rate(n, e);
    var q := (r / limit) as real;
    PauseOf(n, e, limit);
    hide Rate, Pause;
    RateIs(n, e);
    QuotientBounds(r, limit);
    SlowedTime(n as real, e, limit as real, q, r as real, e + Pause(n, e, limit));
  }

  lemma SlowedTime(n: real, e: real, limit: real, q: real, rate: real, time: real)
    requires e > 0.0 && limit > 0.0 && q >= 1.0 && time == q * e
    requires rate * e <= n < (rate + 1.0) * e
    requires limit * q <= rate && rate + 1.0 <= limit * (q + 1.0)
    ensures limit * time <= n < 2.0 * (limit * time) && n * q < (q + 1.0) * (limit * time)
  {
    SlowedDown(n, e, limit, q, rate);
  }

  lemma PauseOf(n: nat, e: real, limit: nat)
    requires e > 0.0 && limit > 0 && Rate(n, e) >= limit
    ensures e + Pause(n, e, limit) == (Rate(n, e) / limit) as real * e
  {
    hide Rate;
    var q := (Rate(n, e) / limit) as real;
    assert (q - 1.0) * e + e == q * e;
  }

  /** A chunk stays below twice the limit exactly when it is not too fast for the unsigned
      int, or not that fast at all; the second matters only for a limit above 2^31. */
  lemma ChunkBound(n: nat, e: real, limit: nat)
    requires e > 0.0 && limit > 0
    ensures n as real < 2.0 * (limit as real * (e + Pause(n, e, limit))) <==> Catchable(n, e, limit)
    ensures limit <= UINT_RANGE / 2 ==>
              (n as real < 2.0 * (limit as real * (e + Pause(n, e, limit))) <==> InRange(n, e))
  {
    if InRange(n, e) {
      InRangeBound(n, e, limit);
    } else if n as real / e < 2.0 * limit as real {
      DivMul(n as real, e);
      PauseNotNegative(n, e, limit);
      hide Pause, Rate;
      FastLimit(n as real, n as real / e, e, Pause(n, e, limit), limit as real);
    } else {
      WrappedRateEscapes(n, e, limit);
    }
  }

  lemma InRangeBound(n: nat, e: real, limit: nat)
    requires e > 0.0 && limit > 0 && InRange(n, e)
    ensures n as real < 2.0 * (limit as real * (e + Pause(n, e, limit)))
  {
    if Rate(n, e) < limit {
      RateIs(n, e);
      assert Pause(n, e, limit) == 0.0;
      hide Rate, Pause;
      NotSlowedDown(n as real, e, limit as real, Rate(n, e) as real);
    } else {
      SlowedBounds(n, e, limit);
    }
  }

  lemma PauseNotNegative(n: nat, e: real, limit: nat)
    requires e > 0.0 && limit > 0
    ensures Pause(n, e, limit) >= 0.0
  {
    QuotientBounds(Rate(n, e), limit);
    if Rate(n, e) >= limit {
      hide Rate;
      MulLe(0.0, (Rate(n, e) / limit) as real - 1.0, e);
    }
  }

  lemma FastLimit(n: real, x: real, e: real, pause: real, limit: real)
    requires e > 0.0 && pause >= 0.0 && limit >= 0.0 && n == x * e && x < 2.0 * limit
    ensures n < 2.0 * (limit * (e + pause))
  {
    MulLt(x, 2.0 * limit, e);
    MulLe(0.0, limit, pause);
    assert limit * (e + pause) == limit * e + limit * pause;
  }

  /** A chunk that is too fast for the unsigned int breaks the bound even if it is paused: the
      pause is meant for the speed that is left after the wrap-around. */
  lemma WrappedRateEscapes(n: nat, e: real, limit: nat)
    requires e > 0.0 && limit > 0 && !Catchable(n, e, limit)
    ensures n as real >= 2.0 * (limit as real * (e + Pause(n, e, limit)))
  {
    var x, r := n as real / e, Rate(n, e);
    DivMul(n as real, e);
    if r < limit {
      assert Pause(n, e, limit) == 0.0;
      hide Rate, Pause;
      AtLeast(n as real, x, e, 1.0, limit as real);
    } else {
      var q := (r / limit) as real;
      QuotientBounds(r, limit);
      WrappedPart(x);
      assert Pause(n, e, limit) == (q - 1.0) * e;
      hide Rate, Pause;
      AtLeast(n as real, x, e, q, limit as real);
    }
  }

  lemma AtLeast(n: real, x: real, e: real, q: real, limit: real)
    requires e > 0.0 && n == x * e && x >= 2.0 * (limit * q)
    ensures n >= 2.0 * (limit * (e + (q - 1.0) * e))
  {
    MulLe(2.0 * (limit * q), x, e);
    assert e + (q - 1.0) * e == q * e;
    MulAssoc(limit, q, e);
  }

  /** What is left after the wrap-around is at least 2^32 less. */
  lemma WrappedPart(x: real)
    requires x >= UINT_RANGE as real
    ensures 2 * (x.Floor % UINT_RANGE) <= x.Floor
  {
    assert x.Floor >= UINT_RANGE;
    assert x.Floor == x.Floor / UINT_RANGE * UINT_RANGE + x.Floor % UINT_RANGE;
  }

  /** One upload chunk of 64 KiB that has taken 15 microseconds, under a limit of 10000 bytes
      per second: it is paused, but only for as long as suits 1112 bytes. */
  lemma WrappedRateExists()
    ensures var n, e, limit := 65536, 15.0 / 1000000.0, 10000;
            && !Catchable(n, e, limit) && Rate(n, e) >= limit
            && limit as real * (e + Pause(n, e, limit)) < 1112.0
            && n as real >= 2.0 * (limit as real * (e + Pause(n, e, limit)))
  {
    var n, e, limit := 65536, 15.0 / 1000000.0, 10000;
    var x := n as real / e;
    assert x == 13107200000.0 / 3.0;
    assert x.Floor == 4369066666;
    assert Rate(n, e) == 74099370;
    assert Rate(n, e) / limit == 7409;
    assert Pause(n, e, limit) == 7408.0 * e;
    WrappedRateEscapes(n, e, limit);
  }

  /** The factor (q+1)/q is sharp, whatever the limit and the size of the chunk: for every
      smaller factor f there is a time in which a chunk of n bytes has ratio q and is at
      least f times as fast as the limit. */
  lemma FactorIsSharp(limit: nat, q: nat, f: real, n: nat) returns (e: real)
    requires limit > 0 && q > 0 && (q + 1) * limit <= UINT_RANGE && n > 0
    requires f * q as real < q as real + 1.0
    ensures e > 0.0 && InRange(n, e) && Rate(n, e) >= limit && Rate(n, e) / limit == q
    ensures n as real >= f * (limit as real * (e + Pause(n, e, limit)))
  {
    var m, t := (q + 1) * limit, f * (limit as real * q as real);
    RatioBelow(q, limit);
    BelowProduct(limit, q, f, m);
    var y := AlmostWhole(m, t);
    e := n as real / y;
    Inverted(n as real, y, e);
    assert InRange(n, e) && Rate(n, e) == m - 1;
    assert Pause(n, e, limit) == (q as real - 1.0) * e;
    hide Rate, Pause, InRange;
    SharpTime(n as real, y, e, f, limit as real, q as real);
  }

  /** A speed of m - 1 whole bytes per second, and at least t. */
  lemma AlmostWhole(m: nat, t: real) returns (y: real)
    requires 1 < m <= UINT_RANGE && t < m as real
    ensures 0.0 < y < UINT_RANGE as real && t <= y && y.Floor % UINT_RANGE == m - 1
  {
    y := if t < (m - 1) as real then (m - 1) as real else t;
    assert y.Floor == m - 1;
  }

  lemma BelowProduct(limit: nat, q: nat, f: real, m: nat)
    requires limit > 0 && f * q as real < q as real + 1.0 && m == (q + 1) * limit
    ensures f * (limit as real * q as real) < m as real
  {
    RealProduct(limit, q, m);
    BelowRealProduct(limit as real, q as real, f, m as real);
  }

  lemma RealProduct(limit: nat, q: nat, m: nat)
    requires m == (q + 1) * limit
    ensures m as real == limit as real * (q as real + 1.0)
  {
    var k := q * limit;
    assert m == k + limit;
    assert k as real == q as real * limit as real;
    assert m as real == k as real + limit as real;
  }

  lemma BelowRealProduct(limit: real, q: real, f: real, m: real)
    requires limit > 0.0 && f * q < q + 1.0 && m == limit * (q + 1.0)
    ensures f * (limit * q) < m
  {
    MulLess(f * q, q + 1.0, limit, m);
    MulSwap(f, limit, q, f * q);
  }

  lemma MulLess(a: real, b: real, limit: real, m: real)
    requires a < b && limit > 0.0 && m == limit * b
    ensures a * limit < m
  {
    MulLt(a, b, limit);
  }

  lemma MulSwap(f: real, limit: real, q: real, a: real)
    requires a == f * q
    ensures f * (limit * q) == a * limit
  {
  }

  lemma Inverted(n: real, y: real, e: real)
    requires n > 0.0 && y > 0.0 && e == n / y
    ensures e > 0.0 && n / e == y && n == y * e
  {
    assert e * y == n;
    assert e > 0.0;
    DivMul(n, e);
    assert (n / e - y) * e == 0.0;
  }

  lemma SharpTime(n: real, y: real, e: real, f: real, limit: real, q: real)
    requires e > 0.0 && n == y * e && f * (limit * q) <= y
    ensures n >= f * (limit * (e + (q - 1.0) * e))
  {
    MulLe(f * (limit * q), y, e);
    assert e + (q - 1.0) * e == q * e;
    MulAssoc(limit, q, e);
    MulAssoc(f, limit * q, e);
  }

  lemma RatioBelow(q: nat, limit: nat)
    requires limit > 0 && q > 0
    ensures (q + 1) * limit >= 2 && ((q + 1) * limit - 1) / limit == q && (q + 1) * limit - 1 >= limit
  {
    var r := (q + 1) * limit - 1;
    assert r == q * limit + (limit - 1);
    assert q * limit >= limit;
    QuotientIs(r, limit, q, limit - 1);
  }

  lemma QuotientIs(r: nat, limit: nat, q: nat, rest: nat)
    requires limit > 0 && rest < limit && r == q * limit + rest
    ensures r / limit == q
  {
    var d := q - r / limit;
    assert d * limit == r % limit - rest;
    assert d >= 1 ==> d * limit >= limit;
    assert d <= -1 ==> d * limit + limit <= 0;
  }

  // ----- whole transfers

  function Total(chunks: seq<Chunk>): nat {
    if chunks == [] then 0 else chunks[0].n + Total(chunks[1..])
  }

  /** The time charged to a chunk: elapsed time and pause. */
  function ChunkTime(start: Time, chunk: Chunk, limit: nat): real
    requires limit > 0
  {
    var e := Elapsed(start, chunk.entered);
    e + Pause(chunk.n, e, limit)
  }

  function Charged(start: Time, chunks: seq<Chunk>, limit: nat): real
    requires limit > 0
    decreases |chunks|
  {
    if chunks == [] then 0.0
    else ChunkTime(start, chunks[0], limit) + Charged(chunks[0].left, chunks[1..], limit)
  }

  predicate AllCatchable(start: Time, chunks: seq<Chunk>, limit: nat)
    decreases |chunks|
  {
    chunks != [] ==>
      && Catchable(chunks[0].n, Elapsed(start, chunks[0].entered), limit)
      && AllCatchable(chunks[0].left, chunks[1..], limit)
  }

  /** When chunk k starts: at the start of the transfer, or at the end of the chunk before. */
  function StartAt(start: Time, chunks: seq<Chunk>, k: nat): Time
    requires k < |chunks|
  {
    if k == 0 then start else chunks[k - 1].left
  }

  lemma StartBehind(start: Time, chunks: seq<Chunk>)
    requires chunks != []
    ensures forall k :: 0 < k < |chunks| ==>
              chunks[k] == chunks[1..][k - 1] && StartAt(start, chunks, k) == StartAt(chunks[0].left, chunks[1..], k - 1)
  {
  }

  /** A transfer is not too fast if and only if none of its chunks is. */
  lemma {:induction false} AllCatchableIff(start: Time, chunks: seq<Chunk>, limit: nat)
    ensures AllCatchable(start, chunks, limit) <==>
              forall k :: 0 <= k < |chunks| ==>
                Catchable(chunks[k].n, Elapsed(StartAt(start, chunks, k), chunks[k].entered), limit)
    decreases |chunks|
  {
    if chunks != [] {
      var rest := chunks[1..];
      StartBehind(start, chunks);
      AllCatchableIff(chunks[0].left, rest, limit);
      assert StartAt(start, chunks, 0) == start;
      hide Catchable, Elapsed, StartAt;
      forall k | 0 <= k < |rest|
        ensures rest[k] == chunks[k + 1] && StartAt(chunks[0].left, rest, k) == StartAt(start, chunks, k + 1)
      {
      }
      if AllCatchable(start, chunks, limit) {
        forall k | 0 <= k < |chunks|
          ensures Catchable(chunks[k].n, Elapsed(StartAt(start, chunks, k), chunks[k].entered), limit)
        {
          assert k > 0 ==> chunks[k] == rest[k - 1];
        }
      }
    }
  }

  /** Below twice the limit; without time there are no bytes. */
  ghost predicate Below(bytes: nat, time: real, limit: nat) {
    bytes as real < 2.0 * (limit as real * time) || (bytes == 0 && time == 0.0)
  }

  /** A transfer stays below twice the limit. */
  lemma {:induction false} RateBound(start: Time, chunks: seq<Chunk>, limit: nat)
    requires limit > 0 && AllCatchable(start, chunks, limit)
    ensures Below(Total(chunks), Charged(start, chunks, limit), limit)
    decreases |chunks|
  {
    if chunks != [] {
      hide ChunkTime, Catchable, Elapsed, Below;
      RateBound(chunks[0].left, chunks[1..], limit);
      ChunkKeepsBelow(start, chunks[0], limit, Total(chunks[1..]), Charged(chunks[0].left, chunks[1..], limit));
    }
  }

  /** The clock goes on while a chunk is moved, and a sleep is not shorter than asked for. */
  ghost predicate SleepsWell(start: Time, chunks: seq<Chunk>, limit: nat)
    requires limit > 0
    decreases |chunks|
  {
    chunks != [] ==> SleptEnough(start, chunks[0], limit) && SleepsWell(chunks[0].left, chunks[1..], limit)
  }

  ghost predicate SleptEnough(start: Time, chunk: Chunk, limit: nat)
    requires limit > 0
  {
    && Micros(start) < Micros(chunk.entered)
    && Pause(chunk.n, Elapsed(start, chunk.entered), limit) * 1000000.0 <= (Micros(chunk.left) - Micros(chunk.entered)) as real
  }

  lemma {:induction false} SleepsWellIff(start: Time, chunks: seq<Chunk>, limit: nat)
    requires limit > 0
    ensures SleepsWell(start, chunks, limit) <==>
              forall k :: 0 <= k < |chunks| ==> SleptEnough(StartAt(start, chunks, k), chunks[k], limit)
    decreases |chunks|
  {
    if chunks != [] {
      var rest := chunks[1..];
      StartBehind(start, chunks);
      SleepsWellIff(chunks[0].left, rest, limit);
      assert StartAt(start, chunks, 0) == start;
      hide SleptEnough, StartAt;
      forall k | 0 <= k < |rest|
        ensures rest[k] == chunks[k + 1] && StartAt(chunks[0].left, rest, k) == StartAt(start, chunks, k + 1)
      {
      }
      if SleepsWell(start, chunks, limit) {
        forall k | 0 <= k < |chunks| ensures SleptEnough(StartAt(start, chunks, k), chunks[k], limit) {
          assert k > 0 ==> chunks[k] == rest[k - 1];
        }
      }
    }
  }

  /** The time charged to a transfer has then passed on the clock. */
  lemma {:induction false} ChargedHasPassed(start: Time, chunks: seq<Chunk>, limit: nat)
    requires limit > 0 && SleepsWell(start, chunks, limit)
    ensures Charged(start, chunks, limit) * 1000000.0 <= (Micros(TimeAfter(start, chunks)) - Micros(start)) as real
    decreases |chunks|
  {
    if chunks != [] {
      var chunk, rest := chunks[0], chunks[1..];
      ElapsedMeasures(start, chunk.entered, chunk.left);
      ChargedHasPassed(chunk.left, rest, limit);
      assert TimeAfter(start, chunks) == TimeAfter(chunk.left, rest);
      hide Elapsed, Pause, Micros;
      assert Charged(start, chunks, limit) ==
        Elapsed(start, chunk.entered) + Pause(chunk.n, Elapsed(start, chunk.entered), limit) + Charged(chunk.left, rest, limit);
    }
  }

  /** So a transfer stays below twice the limit on the clock. */
  lemma WallClockBound(start: Time, chunks: seq<Chunk>, limit: nat)
    requires limit > 0 && AllCatchable(start, chunks, limit) && SleepsWell(start, chunks, limit) && chunks != []
    ensures Total(chunks) as real * 1000000.0 <
              2.0 * (limit as real * (Micros(TimeAfter(start, chunks)) - Micros(start)) as real)
  {
    hide Total, Charged, Micros, TimeAfter, Below, SleepsWell, AllCatchable;
    RateBound(start, chunks, limit);
    ChargedHasPassed(start, chunks, limit);
    ChargedPositive(start, chunks, limit);
    BelowOnClock(Total(chunks), Charged(start, chunks, limit), Micros(TimeAfter(start, chunks)) - Micros(start), limit);
  }

  lemma BelowOnClock(bytes: nat, time: real, micros: int, limit: nat)
    requires limit > 0 && Below(bytes, time, limit) && time > 0.0 && time * 1000000.0 <= micros as real
    ensures bytes as real * 1000000.0 < 2.0 * (limit as real * micros as real)
  {
    ScaledBound(bytes as real, time, micros as real, limit as real);
  }

  lemma ScaledBound(bytes: real, t: real, w: real, limit: real)
    requires limit > 0.0 && bytes < 2.0 * (limit * t) && t * 1000000.0 <= w
    ensures bytes * 1000000.0 < 2.0 * (limit * w)
  {
    MulLe(t * 1000000.0, w, limit);
    assert limit * (t * 1000000.0) == limit * t * 1000000.0;
  }

  lemma {:induction false} ChargedPositive(start: Time, chunks: seq<Chunk>, limit: nat)
    requires limit > 0
    ensures chunks == [] ==> Charged(start, chunks, limit) == 0.0
    ensures chunks != [] ==> Charged(start, chunks, limit) > 0.0
    decreases |chunks|
  {
    if chunks != [] {
      ChargedPositive(chunks[0].left, chunks[1..], limit);
      PauseNotNegative(chunks[0].n, Elapsed(start, chunks[0].entered), limit);
    }
  }

  lemma ChunkKeepsBelow(start: Time, chunk: Chunk, limit: nat, bytes: nat, time: real)
    requires limit > 0 && Catchable(chunk.n, Elapsed(start, chunk.entered), limit) && Below(bytes, time, limit)
    ensures Below(bytes + chunk.n, time + ChunkTime(start, chunk, limit), limit)
  {
    ChunkTimeBound(start, chunk, limit);
    hide ChunkTime;
    AddChunk(bytes as real, time, chunk.n as real, ChunkTime(start, chunk, limit), limit as real);
  }

  lemma ChunkTimeBound(start: Time, chunk: Chunk, limit: nat)
    requires limit > 0 && Catchable(chunk.n, Elapsed(start, chunk.entered), limit)
    ensures chunk.n as real < 2.0 * (limit as real * ChunkTime(start, chunk, limit))
  {
    ChunkBound(chunk.n, Elapsed(start, chunk.entered), limit);
  }

  lemma AddChunk(bytes: real, time: real, n: real, more: real, limit: real)
    requires bytes < 2.0 * (limit * time) || bytes == time == 0.0
    requires n < 2.0 * (limit * more)
    ensures bytes + n < 2.0 * (limit * (time + more))
  {
    assert limit * (time + more) == limit * time + limit * more;
  }

  // ----- the session

  class Session {
    const bwUploadRateMax: nat
    const bwDownloadRateMax: nat
    var transferStart: Time

    constructor (upload: nat, download: nat)
      ensures bwUploadRateMax == upload && bwDownloadRateMax == download
    {
      bwUploadRateMax, bwDownloadRateMax := upload, download;
      transferStart := Time(0, 0);
    }

    function Limit(isUpload: bool): nat {
      if isUpload then bwUploadRateMax else bwDownloadRateMax
    }

    /** limit_rate; None stands for the division by zero, which a limit of 0 leads to. */
    method LimitRate(chunk: Chunk, isUpload: bool) returns (elapsed: real, pause: Option<real>)
      modifies this
      ensures elapsed == Elapsed(old(transferStart), chunk.entered)
      ensures pause.None? <==> Limit(isUpload) == 0
      ensures pause.Some? ==>
                && transferStart == chunk.left
                && pause.value == Pause(chunk.n, elapsed, Limit(isUpload))
    {
      elapsed := (chunk.entered.sec - transferStart.sec) as real;
      elapsed := elapsed + (chunk.entered.usec - transferStart.usec) as real / 1000000.0;
      if elapsed <= 0.0 {
        elapsed := 0.01;
      }
      assert elapsed == Elapsed(transferStart, chunk.entered);
      var rate := RateOf(chunk.n, elapsed);
      var limit := Limit(isUpload);
      hide Elapsed, Rate;
      if rate < limit {
        transferStart := chunk.left;
        return elapsed, Some(0.0);
      }
      if limit == 0 {
        return elapsed, None;
      }
      var ratio := (rate / limit) as real;
      transferStart := chunk.left;
      return elapsed, Some((ratio - 1.0) * elapsed);
    }

    /** The speed as an unsigned int. */
    method RateOf(bytes: nat, elapsed: real) returns (rate: nat)
      requires elapsed > 0.0
      ensures rate == Rate(bytes, elapsed)
    {
      var speed := bytes as real / elapsed;
      rate := speed.Floor % UINT_RANGE;
    }

    /** The loop of an upload: reads until the end of the stream, or until an ABOR has come
        in when chunk `abor` was limited, which is then not written.  `time` is what the
        chunks have taken, with the pauses slept. */
    method Upload(start: Time, chunks: seq<Chunk>, abor: nat) returns (bytes: nat, time: real)
      requires bwUploadRateMax > 0
      modifies this
      ensures abor >= |chunks| ==> bytes == Total(chunks) && time == Charged(start, chunks, bwUploadRateMax)
      ensures abor < |chunks| ==>
                bytes == Total(chunks[..abor]) && time == Charged(start, chunks[..abor + 1], bwUploadRateMax)
      ensures AllCatchable(start, chunks, bwUploadRateMax) ==> Below(bytes, time, bwUploadRateMax)
    {
      transferStart := start;
      bytes, time := 0, 0.0;
      var i := 0;
      StartOf(start, chunks);
      while i < |chunks|
        invariant i <= |chunks| && i <= abor
        invariant transferStart == TimeAfter(start, chunks[..i])
        invariant bytes == Total(chunks[..i]) && time == Charged(start, chunks[..i], bwUploadRateMax)
      {
        hide Elapsed, Pause, Total, Charged, TimeAfter;
        NextChunk(start, chunks, i, bwUploadRateMax);
        var elapsed, pause := LimitRate(chunks[i], true);
        time := time + elapsed + pause.value;
        if i == abor {
          AbortBelow(start, chunks, i, bwUploadRateMax);
          return;
        }
        bytes := bytes + chunks[i].n;
        i := i + 1;
      }
      assert chunks[..i] == chunks;
      WholeBelow(start, chunks, bwUploadRateMax);
    }

    /** The loop of a download: sendfile takes at most 4096 bytes a time, until the file has
        been sent from `offset` on; `sent` are the chunks as they were sent. */
    method Download(start: Time, size: nat, offset: nat, chunks: seq<Chunk>)
      returns (sent: seq<Chunk>, bytes: nat, time: real, complete: bool)
      requires bwDownloadRateMax > 0
      modifies this
      ensures var all := if offset > size then 0 else size - offset;
              bytes <= all && (complete <==> bytes == all) && (!complete ==> |sent| == |chunks|)
      ensures |sent| <= |chunks| && forall k :: 0 <= k < |sent| ==>
                sent[k].n <= Min(chunks[k].n, 4096) && sent[k] == chunks[k].(n := sent[k].n)
      ensures bytes == Total(sent) && time == Charged(start, sent, bwDownloadRateMax)
      ensures AllCatchable(start, chunks, bwDownloadRateMax) ==> Below(bytes, time, bwDownloadRateMax)
    {
      transferStart := start;
      sent, bytes, time := [], 0, 0.0;
      var bytesToSend: nat := if offset > size then 0 else size - offset;
      var i := 0;
      while bytesToSend > 0 && i < |chunks|
        invariant i <= |chunks| && |sent| == i && transferStart == TimeAfter(start, sent)
        invariant forall k :: 0 <= k < i ==>
                    sent[k].n <= Min(chunks[k].n, 4096) && sent[k] == chunks[k].(n := sent[k].n)
        invariant bytes + bytesToSend == if offset > size then 0 else size - offset
        invariant bytes == Total(sent) && time == Charged(start, sent, bwDownloadRateMax)
      {
        hide Elapsed, Pause, Total, Charged, TimeAfter;
        var chunk := chunks[i].(n := Min(chunks[i].n, Min(4096, bytesToSend)));
        OneMoreChunk(start, sent, chunk, bwDownloadRateMax);
        var elapsed, pause := LimitRate(chunk, false);
        time := time + elapsed + pause.value;
        sent := sent + [chunk];
        bytes := bytes + chunk.n;
        bytesToSend := bytesToSend - chunk.n;
        i := i + 1;
      }
      complete := bytesToSend == 0;
      SmallerBelow(start, sent, chunks, bwDownloadRateMax);
    }
  }

  /** The clock at which the chunk behind `chunks` starts. */
  function TimeAfter(start: Time, chunks: seq<Chunk>): Time {
    if chunks == [] then start else chunks[|chunks| - 1].left
  }

  lemma StartOf(start: Time, chunks: seq<Chunk>)
    ensures TimeAfter(start, chunks[..0]) == start && Total(chunks[..0]) == 0
    ensures forall limit: nat :: limit > 0 ==> Charged(start, chunks[..0], limit) == 0.0
  {
  }

  lemma {:induction false} OneMoreChunk(start: Time, chunks: seq<Chunk>, chunk: Chunk, limit: nat)
    requires limit > 0
    ensures var e := Elapsed(TimeAfter(start, chunks), chunk.entered);
            Charged(start, chunks + [chunk], limit) == Charged(start, chunks, limit) + e + Pause(chunk.n, e, limit)
    ensures Total(chunks + [chunk]) == Total(chunks) + chunk.n
    ensures TimeAfter(start, chunks + [chunk]) == chunk.left
    decreases |chunks|
  {
    hide Elapsed, Pause;
    if chunks != [] {
      OneMoreChunk(chunks[0].left, chunks[1..], chunk, limit);
      assert (chunks + [chunk])[1..] == chunks[1..] + [chunk];
    }
  }

  lemma NextChunk(start: Time, chunks: seq<Chunk>, i: nat, limit: nat)
    requires limit > 0 && i < |chunks|
    ensures var e := Elapsed(TimeAfter(start, chunks[..i]), chunks[i].entered);
            Charged(start, chunks[..i + 1], limit) ==
              Charged(start, chunks[..i], limit) + e + Pause(chunks[i].n, e, limit)
    ensures Total(chunks[..i + 1]) == Total(chunks[..i]) + chunks[i].n
    ensures TimeAfter(start, chunks[..i + 1]) == chunks[i].left
  {
    hide Elapsed, Pause, Charged, Total, TimeAfter;
    assert chunks[..i + 1] == chunks[..i] + [chunks[i]];
    OneMoreChunk(start, chunks[..i], chunks[i], limit);
  }

  lemma WholeBelow(start: Time, chunks: seq<Chunk>, limit: nat)
    requires limit > 0
    ensures AllCatchable(start, chunks, limit) ==> Below(Total(chunks), Charged(start, chunks, limit), limit)
  {
    if AllCatchable(start, chunks, limit) {
      RateBound(start, chunks, limit);
    }
  }

  /** Chunks of at most the sizes given, at the same times. */
  ghost predicate Within(sent: seq<Chunk>, chunks: seq<Chunk>) {
    |sent| <= |chunks| && forall k :: 0 <= k < |sent| ==>
      sent[k].n <= chunks[k].n && sent[k].entered == chunks[k].entered && sent[k].left == chunks[k].left
  }

  lemma {:induction false} CatchableWithin(start: Time, sent: seq<Chunk>, chunks: seq<Chunk>, limit: nat)
    requires Within(sent, chunks) && AllCatchable(start, chunks, limit)
    ensures AllCatchable(start, sent, limit)
    decreases |sent|
  {
    if sent != [] {
      SlowerCatchable(sent[0].n, chunks[0].n, Elapsed(start, sent[0].entered), limit);
      hide Elapsed, Catchable;
      CatchableWithin(sent[0].left, sent[1..], chunks[1..], limit);
    }
  }

  lemma SmallerBelow(start: Time, sent: seq<Chunk>, chunks: seq<Chunk>, limit: nat)
    requires limit > 0 && Within(sent, chunks)
    ensures AllCatchable(start, chunks, limit) ==> Below(Total(sent), Charged(start, sent, limit), limit)
  {
    if AllCatchable(start, chunks, limit) {
      CatchableWithin(start, sent, chunks, limit);
      RateBound(start, sent, limit);
    }
  }

  /** The chunk during which an ABOR comes in takes time and is not written. */
  lemma AbortBelow(start: Time, chunks: seq<Chunk>, i: nat, limit: nat)
    requires limit > 0 && i < |chunks|
    ensures AllCatchable(start, chunks, limit) ==>
              Below(Total(chunks[..i]), Charged(start, chunks[..i + 1], limit), limit)
  {
    if AllCatchable(start, chunks, limit) {
      CatchableWithin(start, chunks[..i + 1], chunks, limit);
      RateBound(start, chunks[..i + 1], limit);
      NextChunk(start, chunks, i, limit);
      FewerBelow(Total(chunks[..i]), Total(chunks[..i + 1]), Charged(start, chunks[..i + 1], limit), limit);
    }
  }

  lemma FewerBelow(fewer: nat, bytes: nat, time: real, limit: nat)
    requires fewer <= bytes && Below(bytes, time, limit)
    ensures Below(fewer, time, limit)
  {
  }

  lemma InOrder(x: real, y: real, e: real)
    requires e > 0.0 && x * e <= y * e
    ensures x <= y
  {
    assert (y - x) * e >= 0.0;
  }

  lemma SlowerCatchable(m: nat, n: nat, e: real, limit: nat)
    requires e > 0.0 && m <= n
    ensures Catchable(n, e, limit) ==> Catchable(m, e, limit)
  {
    DivMul(m as real, e);
    DivMul(n as real, e);
    InOrder(m as real / e, n as real / e, e);
  }
}
