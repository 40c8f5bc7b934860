/** Instant arithmetic of `src/date_time.rs`.

    A `DateTime` wraps a UTC instant; it is modelled as whole seconds since the Unix
    epoch. `chrono::Duration` is modelled as a signed number of seconds, and jobber's
    own `Duration` is either `Zero` or an hours/minutes pair. Integers are unbounded:
    chrono's overflow panics are not modelled. */
module Instants {

  datatype DateTime = DateTime(seconds: int)

  /** jobber's `Duration` */
  datatype Duration = Zero | HM(hours: int, minutes: int)

  /** `chrono::Duration`, in seconds */
  type Seconds = int

  /** `chrono::Duration::hours(h)` */
  function Hours(h: int): Seconds { h * 3600 }

  /** `chrono::Duration::minutes(m)` */
  function Minutes(m: int): Seconds { m * 60 }

  /** The length of a `Duration` in minutes. */
  function TotalMinutes(d: Duration): int
  {
    match d
    case Zero => 0
    case HM(h, m) => h * 60 + m
  }

  /** `Duration::days(n)`, not part of this model, is taken to be `HM { hours: 24 * n, minutes: 0 }`. */
  function Days(n: int): (d: Duration)
    ensures TotalMinutes(d) == n * 24 * 60
  {
    HM(24 * n, 0)
  }

  /** `Duration::into_chrono`, not part of this model, is taken to give the same length in seconds. */
  function IntoChrono(d: Duration): (s: Seconds)
    ensures s == 60 * TotalMinutes(d)
  {
    match d
    case Zero => 0
    case HM(h, m) => Hours(h) + Minutes(m)
  }

  // ---- the derived ordering (`#[derive(PartialOrd, Ord)]` on the UTC instant) ----

  predicate Less(a: DateTime, b: DateTime)
  {
    a.seconds < b.seconds
  }

  predicate LessEq(a: DateTime, b: DateTime)
  {
    a.seconds <= b.seconds
  }

  /** The derived order is a total order: reflexive, antisymmetric, transitive, total,
      and `<` is its strict part. */
  lemma OrderIsTotal(a: DateTime, b: DateTime, c: DateTime)
    ensures LessEq(a, a)
    ensures LessEq(a, b) && LessEq(b, a) ==> a == b
    ensures LessEq(a, b) && LessEq(b, c) ==> LessEq(a, c)
    ensures LessEq(a, b) || LessEq(b, a)
    ensures Less(a, b) <==> LessEq(a, b) && a != b
  {
  }

  // ---- Add / Sub with jobber's Duration ----

  /** `impl Add<Duration> for DateTime` */
  function Add(t: DateTime, d: Duration): (r: DateTime)
    ensures r.seconds == t.seconds + 60 * TotalMinutes(d)
  {
    match d
    case Zero => t
    case HM(hours, minutes) => DateTime(t.seconds + Hours(hours) + Minutes(minutes))
  }

  /** `impl Sub<Duration> for DateTime` */
  function Sub(t: DateTime, d: Duration): (r: DateTime)
    ensures r.seconds == t.seconds - 60 * TotalMinutes(d)
  {
    match d
    case Zero => t
    case HM(hours, minutes) => DateTime(t.seconds - Hours(hours) - Minutes(minutes))
  }

  /** `impl AddAssign<Duration> for DateTime`: `self` is a `Copy` value, so the
      updated instant is returned. */
  method AddAssign(self: DateTime, other: Duration) returns (updated: DateTime)
    ensures updated == Add(self, other)
  {
    updated := self;
    match other {
      case Zero =>
      case HM(hours, minutes) =>
        updated := DateTime(updated.seconds + (Hours(hours) + Minutes(minutes)));
    }
  }

  /** `impl SubAssign<Duration> for DateTime` */
  method SubAssign(self: DateTime, other: Duration) returns (updated: DateTime)
    ensures updated == Sub(self, other)
  {
    updated := self;
    match other {
      case Zero =>
      case HM(hours, minutes) =>
        updated := DateTime(updated.seconds - (Hours(hours) + Minutes(minutes)));
    }
  }

  // ---- Add / Sub with chrono::Duration ----

  /** `impl Add<chrono::Duration> for DateTime` */
  function AddChrono(t: DateTime, s: Seconds): (r: DateTime)
    ensures r.seconds == t.seconds + s
    ensures Less(t, r) <==> s > 0
  {
    DateTime(t.seconds + s)
  }

  /** `impl Sub<chrono::Duration> for DateTime` */
  function SubChrono(t: DateTime, s: Seconds): (r: DateTime)
    ensures r.seconds == t.seconds - s
    ensures Less(r, t) <==> s > 0
  {
    DateTime(t.seconds - s)
  }

  /** Adding a duration and subtracting it again gives back the instant, for both kinds of duration;
      `Zero` leaves the instant as it is. */
  lemma AddSubRoundTrip(t: DateTime, d: Duration, s: Seconds)
    ensures Sub(Add(t, d), d) == t && Add(Sub(t, d), d) == t
    ensures SubChrono(AddChrono(t, s), s) == t && AddChrono(SubChrono(t, s), s) == t
    ensures Add(t, Zero) == t && Sub(t, Zero) == t
  {
  }

  // ---- instant minus instant ----

  /** Rust's `/` on integers: division truncating toward zero. Dafny's `/` is Euclidean,
      so negative dividends are handled explicitly. */
  function TruncDiv(a: int, b: int): (q: int)
    requires b > 0
    ensures a >= 0 ==> 0 <= a - b * q < b
    ensures a < 0 ==> -b < a - b * q <= 0
  {
    if a >= 0 then a / b else -((-a) / b)
  }

  /** Rust's `%` on integers: the remainder takes the sign of the dividend. */
  function TruncRem(a: int, b: int): (r: int)
    requires b > 0
    ensures r == a - b * TruncDiv(a, b)
  {
    if a >= 0 then a % b else -((-a) % b)
  }

  /** `impl Sub for &DateTime`: the difference in whole minutes (`num_minutes` truncates toward
      zero), split into hours and minutes with truncating division. */
  function Diff(a: DateTime, b: DateTime): (d: Duration)
    ensures d.HM?
    ensures TotalMinutes(d) == TruncDiv(a.seconds - b.seconds, 60)
    ensures -60 < d.minutes < 60
    ensures TotalMinutes(d) >= 0 ==> d.hours >= 0 && d.minutes >= 0
    ensures TotalMinutes(d) <= 0 ==> d.hours <= 0 && d.minutes <= 0
  {
    var minutes := TruncDiv(a.seconds - b.seconds, 60);
    HM(TruncDiv(minutes, 60), TruncRem(minutes, 60))
  }

  /** The difference of two instants is the duration between them: subtracting `b` from
      `b + HM{h, m}` gives back `HM{h, m}` whenever both parts share a sign and `|m| < 60`. */
  lemma {:induction false} DiffOfAdd(b: DateTime, h: int, m: int)
    requires (h >= 0 && 0 <= m < 60) || (h <= 0 && -60 < m <= 0)
    ensures Diff(Add(b, HM(h, m)), b) == HM(h, m)
  {
    var total := h * 60 + m;
    var a := Add(b, HM(h, m));
    assert TotalMinutes(HM(h, m)) == total;
    DiffOfMinutes(a, b, total);
    TruncSplit(h, m);
  }

  /** Instants a whole number of minutes apart differ by that number of minutes. */
  lemma DiffOfMinutes(a: DateTime, b: DateTime, total: int)
    requires a.seconds - b.seconds == 60 * total
    ensures Diff(a, b) == HM(TruncDiv(total, 60), TruncRem(total, 60))
  {
    TruncDivExact(total);
  }

  lemma TruncDivExact(k: int)
    ensures TruncDiv(60 * k, 60) == k
  {
  }

  lemma TruncSplit(h: int, m: int)
    requires (h >= 0 && 0 <= m < 60) || (h <= 0 && -60 < m <= 0)
    ensures TruncDiv(h * 60 + m, 60) == h && TruncRem(h * 60 + m, 60) == m
  {
  }
}
