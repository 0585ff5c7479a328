/** The duration value: one signed 64-bit count of 100-nanosecond ticks, with the
    component getters, checked arithmetic and comparisons of .NET `TimeSpan`, which
    `TimeSpan2` wraps and forwards to. */
module Spans {
  import opened Wrappers

  const MinInt32: int := -0x8000_0000
  const MaxInt32: int := 0x7FFF_FFFF
  const MinInt64: int := -0x8000_0000_0000_0000
  const MaxInt64: int := 0x7FFF_FFFF_FFFF_FFFF

  type Int32 = x: int | MinInt32 <= x <= MaxInt32
  type Int64 = x: int | MinInt64 <= x <= MaxInt64

  predicate InInt64(x: int) { MinInt64 <= x <= MaxInt64 }

  const TicksPerMillisecond: int := 10_000
  const TicksPerSecond: int := 10_000_000
  const TicksPerMinute: int := 600_000_000
  const TicksPerHour: int := 36_000_000_000
  const TicksPerDay: int := 864_000_000_000

  /** The largest whole number of seconds and of milliseconds a tick count can hold
      (`long.MaxValue / TicksPerSecond`, `long.MaxValue / TicksPerMillisecond`). */
  const MaxSeconds: int := 922_337_203_685
  const MaxMilliseconds: int := 922_337_203_685_477

  /** C# integer division: the quotient is truncated toward zero. */
  function Quot(a: int, b: int): (q: int)
    requires b > 0
    ensures a >= 0 ==> 0 <= q && q * b <= a < q * b + b
    ensures a < 0 ==> q <= 0 && q * b - b < a <= q * b
  {
    if a >= 0 then a / b else -((-a) / b)
  }

  /** C# `%`: the remainder takes the sign of the dividend. */
  function Rem(a: int, b: int): (r: int)
    requires b > 0
    ensures a == Quot(a, b) * b + r
    ensures a >= 0 ==> 0 <= r < b
    ensures a < 0 ==> -b < r <= 0
  {
    a - Quot(a, b) * b
  }

  /** `Compare` of two tick counts: -1, 0 or 1. */
  function CompareTicks(a: int, b: int): (c: int)
    ensures c == -1 <==> a < b
    ensures c == 0 <==> a == b
    ensures c == 1 <==> a > b
  {
    if a < b then -1 else if a > b then 1 else 0
  }

  datatype TimeSpan2 = TimeSpan2(ticks: Int64)
  {
    /** `IsZero`: the value is the zero duration. */
    predicate IsZero()
      ensures IsZero() <==> this == Zero
    {
      ticks == 0
    }

    /** Whole days; truncated toward zero, so it carries the sign of the value. */
    function Days(): (d: Int32)
      ensures d * TicksPerDay <= ticks < (d + 1) * TicksPerDay || ticks < 0
      ensures (d * TicksPerDay >= ticks > (d - 1) * TicksPerDay) || ticks >= 0
    {
      Quot(ticks, TicksPerDay)
    }

    /** Hours component: -23 through 23, with the sign of the value. */
    function Hours(): (h: int)
      ensures -23 <= h <= 23
      ensures ticks >= 0 ==> h >= 0
      ensures ticks <= 0 ==> h <= 0
    {
      Rem(Quot(ticks, TicksPerHour), 24)
    }

    /** Minutes component: -59 through 59, with the sign of the value. */
    function Minutes(): (m: int)
      ensures -59 <= m <= 59
      ensures ticks >= 0 ==> m >= 0
      ensures ticks <= 0 ==> m <= 0
    {
      Rem(Quot(ticks, TicksPerMinute), 60)
    }

    /** Seconds component: -59 through 59, with the sign of the value. */
    function Seconds(): (s: int)
      ensures -59 <= s <= 59
      ensures ticks >= 0 ==> s >= 0
      ensures ticks <= 0 ==> s <= 0
    {
      Rem(Quot(ticks, TicksPerSecond), 60)
    }

    /** Milliseconds component: -999 through 999, with the sign of the value. */
    function Milliseconds(): (ms: int)
      ensures -999 <= ms <= 999
      ensures ticks >= 0 ==> ms >= 0
      ensures ticks <= 0 ==> ms <= 0
    {
      Rem(Quot(ticks, TicksPerMillisecond), 1000)
    }

    /** `Add` and binary `+`: the tick sum, or OverflowException outside the 64-bit range. */
    function Add(ts: TimeSpan2): (r: Result<TimeSpan2>)
      ensures r.Ok? <==> InInt64(ticks + ts.ticks)
      ensures r.Ok? ==> r.value.ticks == ticks + ts.ticks
      ensures r.Err? ==> r.error == OverflowException
    {
      var sum := ticks + ts.ticks;
      if InInt64(sum) then Ok(TimeSpan2(sum)) else Err(OverflowException)
    }

    /** `Subtract` and binary `-`: the tick difference, or OverflowException outside the 64-bit range. */
    function Subtract(ts: TimeSpan2): (r: Result<TimeSpan2>)
      ensures r.Ok? <==> InInt64(ticks - ts.ticks)
      ensures r.Ok? ==> r.value.ticks == ticks - ts.ticks
      ensures r.Err? ==> r.error == OverflowException
    {
      var diff := ticks - ts.ticks;
      if InInt64(diff) then Ok(TimeSpan2(diff)) else Err(OverflowException)
    }

    /** `Negate` and unary `-`: the opposite sign; only `MinValue` has no negation. */
    function Negate(): (r: Result<TimeSpan2>)
      ensures r.Ok? <==> this != MinValue
      ensures r.Ok? ==> r.value.ticks == -ticks
      ensures r.Err? ==> r.error == OverflowException
    {
      if ticks == MinInt64 then Err(OverflowException) else Ok(TimeSpan2(-ticks))
    }

    /** `Duration`: the absolute value; only `MinValue` has none. */
    function Duration(): (r: Result<TimeSpan2>)
      ensures r.Ok? <==> this != MinValue
      ensures r.Ok? ==> r.value.ticks >= 0 && (r.value.ticks == ticks || r.value.ticks == -ticks)
      ensures r.Err? ==> r.error == OverflowException
    {
      if ticks == MinInt64 then Err(OverflowException)
      else if ticks < 0 then Ok(TimeSpan2(-ticks))
      else Ok(this)
    }

    /** `CompareTo`: -1, 0 or 1 as this value is shorter than, equal to or longer than `other`. */
    function CompareTo(other: TimeSpan2): (c: int)
      ensures c == -1 <==> ticks < other.ticks
      ensures c == 0 <==> this == other
      ensures c == 1 <==> ticks > other.ticks
    {
      CompareTicks(ticks, other.ticks)
    }

    /** `Equals(TimeSpan2)`: the same tick count. */
    predicate Equals(other: TimeSpan2)
      ensures Equals(other) <==> CompareTo(other) == 0
    {
      ticks == other.ticks
    }
  }

  const Zero: TimeSpan2 := TimeSpan2(0)
  const MaxValue: TimeSpan2 := TimeSpan2(MaxInt64)
  const MinValue: TimeSpan2 := TimeSpan2(MinInt64)

  /** Unary `+`: the value itself. */
  function Plus(t: TimeSpan2): (r: TimeSpan2)
    ensures r.ticks == t.ticks
  {
    t
  }

  /** `Compare(t1, t2)`. */
  function Compare(t1: TimeSpan2, t2: TimeSpan2): (c: int)
    ensures c == -1 <==> t1.ticks < t2.ticks
    ensures c == 0 <==> t1.ticks == t2.ticks
    ensures c == 1 <==> t1.ticks > t2.ticks
  {
    t1.CompareTo(t2)
  }

  /** Operators `<`, `<=`, `>`, `>=` on tick counts. */
  predicate Less(t1: TimeSpan2, t2: TimeSpan2)
    ensures Less(t1, t2) <==> Compare(t1, t2) == -1
  {
    t1.ticks < t2.ticks
  }

  predicate LessOrEqual(t1: TimeSpan2, t2: TimeSpan2)
    ensures LessOrEqual(t1, t2) <==> Compare(t1, t2) != 1
  {
    t1.ticks <= t2.ticks
  }

  predicate Greater(t1: TimeSpan2, t2: TimeSpan2)
    ensures Greater(t1, t2) <==> Compare(t1, t2) == 1
  {
    t1.ticks > t2.ticks
  }

  predicate GreaterOrEqual(t1: TimeSpan2, t2: TimeSpan2)
    ensures GreaterOrEqual(t1, t2) <==> Compare(t1, t2) != -1
  {
    t1.ticks >= t2.ticks
  }

  /** `TimeSpan2(hours, minutes, seconds)`: whole seconds, ArgumentOutOfRangeException
      when their total lies outside what a tick count can hold. */
  function FromHms(hours: Int32, minutes: Int32, seconds: Int32): (r: Result<TimeSpan2>)
    ensures var total := hours * 3600 + minutes * 60 + seconds;
      (r.Ok? <==> -MaxSeconds <= total <= MaxSeconds)
      && (r.Ok? ==> r.value.ticks == total * TicksPerSecond)
      && (r.Err? ==> r.error == ArgumentOutOfRangeException)
  {
    var total := hours * 3600 + minutes * 60 + seconds;
    if -MaxSeconds <= total <= MaxSeconds then Ok(TimeSpan2(total * TicksPerSecond))
    else Err(ArgumentOutOfRangeException)
  }

  /** `TimeSpan2(days, hours, minutes, seconds, milliseconds)`: whole milliseconds,
      ArgumentOutOfRangeException when their total lies outside what a tick count can hold. */
  function FromDhmsm(days: Int32, hours: Int32, minutes: Int32, seconds: Int32, milliseconds: Int32): (r: Result<TimeSpan2>)
    ensures var total := ((days * 24 + hours) * 60 + minutes) * 60 + seconds;
      (r.Ok? <==> -MaxMilliseconds <= total * 1000 + milliseconds <= MaxMilliseconds)
      && (r.Ok? ==> r.value.ticks == (total * 1000 + milliseconds) * TicksPerMillisecond)
      && (r.Err? ==> r.error == ArgumentOutOfRangeException)
  {
    var ms := (days * 86400 + hours * 3600 + minutes * 60 + seconds) * 1000 + milliseconds;
    if -MaxMilliseconds <= ms <= MaxMilliseconds then Ok(TimeSpan2(ms * TicksPerMillisecond))
    else Err(ArgumentOutOfRangeException)
  }

  /** `TimeSpan2(days, hours, minutes, seconds)`: the five-argument constructor with zero milliseconds. */
  function FromDhms(days: Int32, hours: Int32, minutes: Int32, seconds: Int32): (r: Result<TimeSpan2>)
    ensures r == FromDhmsm(days, hours, minutes, seconds, 0)
  {
    FromDhmsm(days, hours, minutes, seconds, 0)
  }

  /** The components split the tick count exactly: days, hours, minutes, seconds and
      milliseconds, plus a sub-millisecond remainder that carries the same sign. */
  lemma Decomposition(t: TimeSpan2)
    ensures t.ticks == t.Days() * TicksPerDay + t.Hours() * TicksPerHour + t.Minutes() * TicksPerMinute
      + t.Seconds() * TicksPerSecond + t.Milliseconds() * TicksPerMillisecond + Rem(t.ticks, TicksPerMillisecond)
  {
    var x: int := t.ticks;
    var a: nat := if x >= 0 then x else -x;
    NatDecomposition(a);
    ComponentOf(x, a, TicksPerHour, 24);
    ComponentOf(x, a, TicksPerMinute, 60);
    ComponentOf(x, a, TicksPerSecond, 60);
    ComponentOf(x, a, TicksPerMillisecond, 1000);
    RemSign(a, TicksPerMillisecond);
  }

  /** A component of a tick count `x` is the Euclidean component of its magnitude `a`, with
      the sign of `x`. */
  lemma ComponentOf(x: int, a: nat, b: nat, m: nat)
    requires (x >= 0 && a == x) || (x < 0 && a == -x)
    requires b > 0 && m > 0
    ensures x >= 0 ==> Rem(Quot(x, b), m) == a / b % m
    ensures x < 0 ==> Rem(Quot(x, b), m) == -(a / b % m)
  {
    RemSign(a / b, m);
  }

  /** On a non-negative count the C# operators agree with Euclidean ones, and negating the
      dividend negates the remainder. */
  lemma RemSign(n: int, b: int)
    requires n >= 0 && b > 0
    ensures Rem(n, b) == n % b && Rem(-n, b) == -(n % b)
  {
  }

  /** The Euclidean form of `Decomposition`, for a non-negative tick count. */
  lemma NatDecomposition(a: nat)
    ensures a == (a / TicksPerDay) * TicksPerDay + (a / TicksPerHour % 24) * TicksPerHour
      + (a / TicksPerMinute % 60) * TicksPerMinute + (a / TicksPerSecond % 60) * TicksPerSecond
      + (a / TicksPerMillisecond % 1000) * TicksPerMillisecond + a % TicksPerMillisecond
  {
    var ms, sec, min, hr, day := a / 10_000, a / 10_000_000, a / 600_000_000, a / 36_000_000_000, a / 864_000_000_000;
    NestedQuot(a, 10_000, 1000, 10_000_000);
    NestedQuot(a, 10_000_000, 60, 600_000_000);
    NestedQuot(a, 600_000_000, 60, 36_000_000_000);
    NestedQuot(a, 36_000_000_000, 24, 864_000_000_000);
    assert a == ms * 10_000 + a % 10_000;
    assert ms == sec * 1000 + ms % 1000;
    assert sec == min * 60 + sec % 60;
    assert min == hr * 60 + min % 60;
    assert hr == day * 24 + hr % 24;
  }

  /** Euclidean division is determined by quotient and remainder. */
  lemma DivUnique(x: nat, b: nat, q: nat, r: nat)
    requires b > 0 && x == q * b + r && r < b
    ensures x / b == q && x % b == r
  {
    var k := x / b - q;
    assert k * b == r - x % b;
  }

  /** Dividing by `b` and then by `c` is dividing by `bc == b * c`. */
  lemma NestedQuot(x: nat, b: nat, c: nat, bc: nat)
    requires b > 0 && c > 0 && bc == b * c
    ensures x / b == (x / bc) * c + (x / b) % c
  {
    var q, r := x / bc, x % bc;
    SubQuotBound(r, b, c, bc);
    Regroup(x, q, r, r / b, r % b, b, c, bc);
    QuotFromParts(x, b, c, q, r / b, r % b);
  }

  lemma SubQuotBound(r: nat, b: nat, c: nat, bc: nat)
    requires b > 0 && r < bc && bc == b * c
    ensures r / b < c
  {
    if r / b >= c {
      MulMono(c, r / b, b);
    }
  }

  lemma Regroup(x: int, q: int, r: int, rq: int, rr: int, b: int, c: int, bc: int)
    requires x == q * bc + r && r == rq * b + rr && bc == b * c
    ensures x == (q * c + rq) * b + rr
  {
  }

  lemma QuotFromParts(x: nat, b: nat, c: nat, q: nat, rq: nat, rr: nat)
    requires b > 0 && rr < b && rq < c && x == (q * c + rq) * b + rr
    ensures x / b == q * c + rq && (x / b) % c == rq
  {
    DivUnique(x, b, q * c + rq, rr);
    DivUnique(x / b, c, q, rq);
  }

  lemma MulMono(c: nat, d: nat, b: nat)
    requires c <= d
    ensures c * b <= d * b
  {
  }

  /** Rebuilding a value from its components with the five-argument constructor gives the
      value back, truncated to whole milliseconds. */
  lemma ComponentsRoundTrip(t: TimeSpan2)
    ensures FromDhmsm(t.Days(), t.Hours(), t.Minutes(), t.Seconds(), t.Milliseconds())
      == Ok(TimeSpan2(t.ticks - Rem(t.ticks, TicksPerMillisecond)))
  {
    var d, h, m, s, ms := t.Days(), t.Hours(), t.Minutes(), t.Seconds(), t.Milliseconds();
    var rem := Rem(t.ticks, TicksPerMillisecond);
    Decomposition(t);
    MillisecondsRebuilt(d, h, m, s, ms, t.ticks, rem);
    var r := FromDhmsm(d, h, m, s, ms);
    assert r.Ok? && r.value.ticks == t.ticks - rem;
  }

  /** The arithmetic of `ComponentsRoundTrip`, on plain numbers: a tick count in the `long`
      range made of whole units and a remainder toward zero is a whole number of milliseconds
      within the constructor's bound. */
  lemma MillisecondsRebuilt(d: int, h: int, m: int, s: int, ms: int, ticks: int, rem: int)
    requires ticks == d * TicksPerDay + h * TicksPerHour + m * TicksPerMinute
      + s * TicksPerSecond + ms * TicksPerMillisecond + rem
    requires MinInt64 <= ticks <= MaxInt64
    requires ticks >= 0 ==> 0 <= rem < TicksPerMillisecond
    requires ticks < 0 ==> -TicksPerMillisecond < rem <= 0
    ensures var n := (((d * 24 + h) * 60 + m) * 60 + s) * 1000 + ms;
      n * TicksPerMillisecond == ticks - rem && -MaxMilliseconds <= n <= MaxMilliseconds
  {
  }

  /** For a non-negative value, the sub-second remainder is the milliseconds and the
      sub-millisecond ticks, and the four-argument constructor rebuilds the whole seconds. */
  lemma WholeSecondsRoundTrip(t: TimeSpan2)
    requires t.ticks >= 0
    ensures Rem(t.ticks, TicksPerSecond) == t.Milliseconds() * TicksPerMillisecond + Rem(t.ticks, TicksPerMillisecond)
    ensures FromDhms(t.Days(), t.Hours(), t.Minutes(), t.Seconds())
      == Ok(TimeSpan2(t.ticks - Rem(t.ticks, TicksPerSecond)))
  {
    var q := WholeSeconds(t);
    FromDhmsWhole(t.Days(), t.Hours(), t.Minutes(), t.Seconds(), q);
  }

  /** The whole seconds of a non-negative value, as its components count them. */
  lemma WholeSeconds(t: TimeSpan2) returns (q: nat)
    requires t.ticks >= 0
    ensures q == t.Days() * 86400 + t.Hours() * 3600 + t.Minutes() * 60 + t.Seconds()
    ensures q * TicksPerSecond == t.ticks - Rem(t.ticks, TicksPerSecond) && q <= MaxSeconds
    ensures Rem(t.ticks, TicksPerSecond) == t.Milliseconds() * TicksPerMillisecond + Rem(t.ticks, TicksPerMillisecond)
  {
    Decomposition(t);
    var d, h, m, s, ms := t.Days(), t.Hours(), t.Minutes(), t.Seconds(), t.Milliseconds();
    q := d * 86400 + h * 3600 + m * 60 + s;
    var rest: nat := ms * TicksPerMillisecond + Rem(t.ticks, TicksPerMillisecond);
    assert t.ticks == q * TicksPerSecond + rest;
    DivUnique(t.ticks, TicksPerSecond, q, rest);
  }

  lemma FromDhmsWhole(d: Int32, h: Int32, m: Int32, s: Int32, q: nat)
    requires q == d * 86400 + h * 3600 + m * 60 + s && q <= MaxSeconds
    ensures FromDhms(d, h, m, s) == Ok(TimeSpan2(q * TicksPerSecond))
  {
    var r := FromDhmsm(d, h, m, s, 0);
    assert ((d * 24 + h) * 60 + m) * 60 + s == q;
    assert r.Ok? && r.value.ticks == q * TicksPerSecond;
    assert r == Ok(TimeSpan2(r.value.ticks));
  }

  /** Subtracting what was added gives the original value back. */
  lemma AddSubtractInverse(t1: TimeSpan2, t2: TimeSpan2)
    requires t1.Add(t2).Ok?
    ensures t1.Add(t2).value.Subtract(t2) == Ok(t1)
  {
  }

  /** `Compare` is antisymmetric. */
  lemma CompareAntisymmetric(t1: TimeSpan2, t2: TimeSpan2)
    ensures Compare(t1, t2) == -Compare(t2, t1)
  {
  }
}
