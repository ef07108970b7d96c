/** The delay arithmetic of `retry.go`. Durations are nanoseconds in a signed 64-bit integer. */
module Retry {
  const TWO_63 := 0x8000_0000_0000_0000
  const TWO_64 := 0x1_0000_0000_0000_0000

  type int64 = x: int | -TWO_63 <= x < TWO_63

  const MILLISECOND: int64 := 1_000_000
  const SECOND: int64 := 1_000_000_000

  datatype RetryConfig = RetryConfig(maxAttempts: int, initialBackoff: int64, maxBackoff: int64, jitter: real)

  /** Every field is usable: what `WithDefaults` establishes. */
  predicate Filled(r: RetryConfig) {
    r.maxAttempts > 0 && r.initialBackoff > 0 && r.maxBackoff > 0 && 0.0 <= r.jitter <= 1.0
  }

  method WithDefaults(cfg: RetryConfig) returns (r: RetryConfig)
    ensures Filled(r)
    ensures Filled(cfg) ==> r == cfg
    ensures cfg.initialBackoff <= 0 && cfg.maxBackoff <= 0 ==> r.initialBackoff * r.maxBackoff < TWO_63
    ensures r.maxAttempts == (if cfg.maxAttempts > 0 then cfg.maxAttempts else 4)
    ensures r.initialBackoff == (if cfg.initialBackoff > 0 then cfg.initialBackoff else 250 * MILLISECOND)
    ensures r.maxBackoff == (if cfg.maxBackoff > 0 then cfg.maxBackoff else 5 * SECOND)
    ensures r.jitter == (if 0.0 <= cfg.jitter <= 1.0 then cfg.jitter else 0.2)
  {
    r := cfg;
    if r.maxAttempts <= 0 {
      r := r.(maxAttempts := 4);
    }
    if r.initialBackoff <= 0 {
      r := r.(initialBackoff := 250 * MILLISECOND);
    }
    if r.maxBackoff <= 0 {
      r := r.(maxBackoff := 5 * SECOND);
    }
    if r.jitter < 0.0 || r.jitter > 1.0 {
      r := r.(jitter := 0.2);
    }
  }

  function Pow2(n: nat): (p: nat)
    ensures p >= 1
  {
    if n == 0 then 1 else 2 * Pow2(n - 1)
  }

  /** The signed 64-bit integer with the low 64 bits of `x`. */
  function Wrap(x: int): (r: int64)
    ensures (x - r) % TWO_64 == 0
    ensures -TWO_63 <= x < TWO_63 ==> r == x
  {
    (x + TWO_63) % TWO_64 - TWO_63
  }

  /** `x << n` on int64. */
  function ShiftLeft(x: int64, n: nat): int64 { Wrap(x * Pow2(n)) }

  /** The delay the schedule means: doubling from the initial backoff, capped. */
  function Ideal(cfg: RetryConfig, attempt: nat): int
    requires attempt >= 1
  {
    var d := cfg.initialBackoff * Pow2(attempt - 1);
    if d > cfg.maxBackoff then cfg.maxBackoff else d
  }

  function Capped(cfg: RetryConfig, d: int64): int64 {
    if d > cfg.maxBackoff || d <= 0 then cfg.maxBackoff else d
  }

  /** The delay `Backoff` waits before jitter. */
  function Delay(cfg: RetryConfig, attempt: nat): int64
    requires attempt >= 1
  {
    Capped(cfg, ShiftLeft(cfg.initialBackoff, attempt - 1))
  }

  /** The delay of `Backoff` before jitter: never zero, negative or over the cap. */
  method BackoffDelay(cfg: RetryConfig, attempt: nat) returns (d: int64)
    requires attempt >= 1
    ensures cfg.maxBackoff > 0 ==> 0 < d <= cfg.maxBackoff
    ensures d == Delay(cfg, attempt)
    ensures cfg.initialBackoff > 0 && cfg.maxBackoff > 0 && cfg.initialBackoff * cfg.maxBackoff < TWO_63
            ==> d == Ideal(cfg, attempt)
  {
    d := ShiftLeft(cfg.initialBackoff, attempt - 1);
    if d > cfg.maxBackoff || d <= 0 {
      d := cfg.maxBackoff;
    }
    if cfg.initialBackoff > 0 && cfg.maxBackoff > 0 && cfg.initialBackoff * cfg.maxBackoff < TWO_63 {
      DelayIsIdeal(cfg, attempt);
    }
  }

  lemma {:induction false} Pow2Grows(m: nat, n: nat)
    requires m <= n
    ensures Pow2(m) <= Pow2(n)
    decreases n
  {
    if m < n { Pow2Grows(m, n - 1); }
  }

  lemma {:induction false} Pow2Divides(n: nat)
    requires n <= 64
    ensures TWO_64 % Pow2(n) == 0
    decreases 64 - n
  {
    hide Pow2;
    if n == 64 {
      Pow2Of64();
    } else {
      Pow2Divides(n + 1);
      Pow2Next(n);
      HalfDivides(TWO_64, Pow2(n));
    }
  }

  lemma Pow2Next(n: nat)
    ensures Pow2(n + 1) == 2 * Pow2(n)
  {}

  lemma HalfDivides(x: nat, p: nat)
    requires p >= 1 && x % (2 * p) == 0
    ensures x % p == 0
  {
    var k := x / (2 * p);
    assert x == k * (2 * p) == (2 * k) * p;
    MultipleMod(2 * k, p);
  }

  lemma Pow2Of64()
    ensures Pow2(64) == TWO_64
  {
    hide Pow2;
    Pow2Of1();
    Pow2Add(1, 1);
    Pow2Add(2, 2);
    Pow2Add(4, 4);
    Pow2Add(8, 8);
    Pow2Add(16, 16);
    Pow2Add(32, 32);
  }

  lemma Pow2Of1()
    ensures Pow2(1) == 2
  {}

  lemma {:induction false} Pow2Add(m: nat, n: nat)
    ensures Pow2(m + n) == Pow2(m) * Pow2(n)
  {
    if n != 0 {
      Pow2Add(m, n - 1);
      assert Pow2(m) * (2 * Pow2(n - 1)) == 2 * (Pow2(m) * Pow2(n - 1));
    }
  }

  lemma MulMono(a: int, b: int, c: int)
    requires 0 <= a && b <= c
    ensures a * b <= a * c
  {}

  /** A product with `p` is at least `p` away from zero. */
  lemma MulAway(k: int, p: nat)
    ensures k >= 1 ==> k * p >= p
    ensures k <= -1 ==> k * p <= -(p as int)
    ensures k <= 0 ==> k * p <= 0
  {
    if k >= 1 { MulMono(p, 1, k); }
    if k <= -1 { MulMono(p, k, -1); }
  }

  lemma MultipleMod(k: int, p: nat)
    requires p >= 1
    ensures (k * p) % p == 0
  {
    var (q, r) := ((k * p) / p, (k * p) % p);
    assert k * p == p * q + r;
    assert (k - q) * p == k * p - q * p;
    MulAway(k - q, p);
  }

  lemma MulAssoc(a: int, b: int, c: int)
    ensures a * (b * c) == (a * b) * c
  {}

  lemma MulMinus(a: int, b: int, c: int)
    ensures (a - b) * c == a * c - b * c
  {}

  lemma WrapSplit(y: int) returns (q: int)
    ensures Wrap(y) == y - q * TWO_64
  {
    q := (y + TWO_63) / TWO_64;
  }

  /** A shift that overflows leaves a multiple of the power of two, or nothing. */
  lemma WrapIsMultiple(x: int64, n: nat)
    ensures ShiftLeft(x, n) == 0 || n < 64
    ensures ShiftLeft(x, n) > 0 ==> ShiftLeft(x, n) >= Pow2(n)
  {
    hide Wrap;
    var (w, p) := (ShiftLeft(x, n), Pow2(n));
    var q := WrapSplit(x * p);
    if n >= 64 {
      assert p == TWO_64 * Pow2(n - 64) by { Pow2Of64(); Pow2Add(64, n - 64); }
      MulTimesWord(x, Pow2(n - 64));
      WordMultipleInRange(w, x * Pow2(n - 64) - q);
    } else {
      Pow2Divides(n);
      hide Pow2;
      var k := TWO_64 / p;
      assert TWO_64 == k * p;
      MulAssoc(q, k, p);
      MulMinus(x, q * k, p);
      MulAway(x - q * k, p);
    }
  }

  lemma MulTimesWord(x: int, p: int)
    ensures x * (TWO_64 * p) == (x * p) * TWO_64
  {}

  lemma WordMultipleInRange(w: int64, k: int)
    requires w == k * TWO_64
    ensures w == 0
  {}

  /** When the product of the two limits fits in 63 bits, overflow never shows. */
  lemma DelayIsIdeal(cfg: RetryConfig, attempt: nat)
    requires attempt >= 1 && cfg.initialBackoff > 0 && cfg.maxBackoff > 0
    requires cfg.initialBackoff * cfg.maxBackoff < TWO_63
    ensures Delay(cfg, attempt) == Ideal(cfg, attempt)
  {
    var (i, m, p) := (cfg.initialBackoff, cfg.maxBackoff, Pow2(attempt - 1));
    WrapIsMultiple(i, attempt - 1);
    assert i * p < TWO_63 ==> i * p >= 0 && ShiftLeft(i, attempt - 1) == i * p by { MulMono(i, 0, p); }
    hide Pow2, ShiftLeft;
    if p <= m { MulMono(i, p, m); }
    MulMono(p, 1, i);
  }

  /** Under the same bound a later attempt never waits less. */
  lemma DelayNeverFalls(cfg: RetryConfig, earlier: nat, later: nat)
    requires 1 <= earlier <= later && cfg.initialBackoff > 0 && cfg.maxBackoff > 0
    requires cfg.initialBackoff * cfg.maxBackoff < TWO_63
    ensures Delay(cfg, earlier) <= Delay(cfg, later)
  {
    DelayIsIdeal(cfg, earlier);
    DelayIsIdeal(cfg, later);
    Pow2Grows(earlier - 1, later - 1);
    hide Pow2, Delay;
    MulMono(cfg.initialBackoff, Pow2(earlier - 1), Pow2(later - 1));
  }

  /** The shift by `n` does not overflow to a value strictly inside the range of delays. */
  predicate LandsOutside(cfg: RetryConfig, n: nat) {
    var w := ShiftLeft(cfg.initialBackoff, n);
    cfg.initialBackoff * Pow2(n) < TWO_63 || w <= 0 || w >= cfg.maxBackoff
  }

  /** Attempt `n + 1` waits what the schedule means. */
  predicate AsMeant(cfg: RetryConfig, n: nat) { Delay(cfg, n + 1) == Ideal(cfg, n + 1) }

  lemma IdealIffLandsOutside(cfg: RetryConfig, n: nat)
    requires cfg.initialBackoff > 0 && cfg.maxBackoff > 0
    ensures AsMeant(cfg, n) <==> LandsOutside(cfg, n)
    ensures n >= 64 ==> LandsOutside(cfg, n)
  {
    var (i, p) := (cfg.initialBackoff, Pow2(n));
    WrapIsMultiple(i, n);
    MulMono(i, 0, p);
    hide Pow2;
  }

  /** Exactly which configurations back off as meant on every attempt: 64 shifts decide it. */
  lemma IdealIffNeverWrapsInside(cfg: RetryConfig)
    requires cfg.initialBackoff > 0 && cfg.maxBackoff > 0
    ensures (forall n :: 0 <= n < 64 ==> LandsOutside(cfg, n)) <==> (forall n: nat :: AsMeant(cfg, n))
  {
    hide LandsOutside, AsMeant;
    forall n: nat
      ensures AsMeant(cfg, n) <==> LandsOutside(cfg, n)
      ensures n >= 64 ==> LandsOutside(cfg, n)
    {
      IdealIffLandsOutside(cfg, n);
    }
  }

  /** Without the bound the schedule can collapse: here the third delay is 4 ns after a first of 146 years. */
  lemma DelayCanCollapse()
    ensures var cfg := RetryConfig(4, TWO_63 / 2 + 1, TWO_63 - 1, 0.0);
            Delay(cfg, 1) == TWO_63 / 2 + 1 && Delay(cfg, 3) == 4
  {
    assert Pow2(0) == 1 && Pow2(2) == 4;
  }

  /** The jittered delay over the reals, `u` being the random draw. */
  function Jittered(d: int64, jitter: real, u: real): real {
    if jitter > 0.0 then d as real - d as real * jitter + u * 2.0 * (d as real * jitter) else d as real
  }

  lemma JitterStaysInBand(d: int64, jitter: real, u: real)
    requires d > 0 && 0.0 <= jitter <= 1.0 && 0.0 <= u < 1.0
    ensures d as real * (1.0 - jitter) <= Jittered(d, jitter, u) <= d as real * (1.0 + jitter)
    ensures jitter > 0.0 ==> Jittered(d, jitter, u) < d as real * (1.0 + jitter)
    ensures Jittered(d, jitter, u) >= 0.0
  {
    var r := d as real;
    var spread := r * jitter;
    Expand(r, jitter);
    Shares(r, jitter, spread);
    Shares(spread, u, spread * u);
    DoubleShare(u, spread);
    assert jitter > 0.0 ==> Jittered(d, jitter, u) == r - spread + 2.0 * (spread * u);
    assert Jittered(d, jitter, u) >= r - spread;
  }

  /** The draw reaches the whole band, in proportion: exactly the delays from one end up to the other. */
  lemma JitterCoversBand(d: int64, jitter: real, x: real) returns (u: real)
    requires d > 0 && 0.0 < jitter <= 1.0
    requires d as real * (1.0 - jitter) <= x < d as real * (1.0 + jitter)
    ensures 0.0 <= u < 1.0 && Jittered(d, jitter, u) == x
  {
    var r := d as real;
    var spread := r * jitter;
    Expand(r, jitter);
    Product(r, jitter);
    assert spread > 0.0;
    var (a, b) := (x - (r - spread), 2.0 * spread);
    assert 0.0 <= a < b;
    u := a / b;
    Quotient(a, b);
    assert u * b == a;
    ShareBound(u, b, a);
    assert u * 2.0 * spread == u * b;
  }

  lemma Quotient(a: real, b: real)
    requires b > 0.0
    ensures a / b * b == a
  {}

  lemma ShareBound(u: real, s: real, a: real)
    requires s > 0.0 && u * s == a && 0.0 <= a < s
    ensures 0.0 <= u < 1.0
  {
    if u < 0.0 { Product(-u, s); }
    if u >= 1.0 { Product(u - 1.0, s); }
  }

  lemma DoubleShare(u: real, s: real)
    ensures u * 2.0 * s == 2.0 * (s * u)
  {}

  lemma Expand(r: real, j: real)
    ensures r * (1.0 - j) == r - r * j && r * (1.0 + j) == r + r * j
  {}

  /** A share `j` of `r` is part of `r`. */
  lemma Shares(r: real, j: real, s: real)
    requires r >= 0.0 && 0.0 <= j <= 1.0 && s == r * j
    ensures 0.0 <= s <= r
    ensures r > 0.0 && j < 1.0 ==> s < r
    ensures r > 0.0 && j > 0.0 ==> s > 0.0
  {
    Expand(r, j);
    Product(r, j);
    Product(r, 1.0 - j);
  }

  lemma Product(a: real, b: real)
    requires a >= 0.0 && b >= 0.0
    ensures a * b >= 0.0
    ensures a > 0.0 && b > 0.0 ==> a * b > 0.0
  {}
}
