/** Lease lengths as the web, API and MCP endpoints accept them, and as the pages show them. */
module Durations {
  import opened Types

  const MAX_LEASE: Time := Hours(63 * 24 + 23)

  function LeaseDuration(days: nat, hours: nat): Result<Time, string> {
    if days > 63 then Err("days must be between 0 and 63")
    else if hours > 23 then Err("hours must be between 0 and 23")
    else Ok(Hours(hours + days * 24))
  }

  /** Rust's integer division: it truncates toward zero. */
  function TruncDiv(a: int, b: int): int
    requires b > 0
  {
    if a >= 0 then a / b else -(-a / b)
  }

  datatype Shown = Shown(days: int, hours: int, minutes: int)

  function FormatDuration(d: Time): Shown {
    var days := TruncDiv(d, Hours(24));
    var hours := TruncDiv(d - Hours(24 * days), Hours(1));
    var minutes := TruncDiv(d - Hours(24 * days) - Hours(hours), Minutes(1));
    Shown(days, hours, minutes)
  }

  /** `m` is `d` in whole minutes, truncated toward zero. */
  ghost predicate WholeMinutes(d: Time, m: int) {
    && (d >= 0 ==> Minutes(m) <= d < Minutes(m + 1))
    && (d <= 0 ==> Minutes(m - 1) < d <= Minutes(m))
  }

  /** The three parts recompose to the whole minutes of the duration, also when it is negative
      (an expired host that no pass has released yet), and each part stays within its unit. */
  lemma FormatRecomposes(d: Time)
    ensures var f := FormatDuration(d);
            var shown := f.days * 1440 + f.hours * 60 + f.minutes;
            && WholeMinutes(d, shown)
            && -24 < f.hours < 24 && -60 < f.minutes < 60
            && (d >= 0 ==> f.days >= 0 && f.hours >= 0 && f.minutes >= 0)
            && (d <= 0 ==> f.days <= 0 && f.hours <= 0 && f.minutes <= 0)
    decreases d < 0
  {
    if d < 0 {
      FormatRecomposes(-d);
    }
  }

  /** What an accepted request asked for is what the page shows at the moment of the lease; every
      accepted length is a whole number of hours from 0 to 1535, and every such number has a request. */
  lemma AcceptedLeaseRoundTrip(days: nat, hours: nat)
    ensures LeaseDuration(days, hours).Ok? <==> days <= 63 && hours <= 23
    ensures LeaseDuration(days, hours).Ok? ==>
              && 0 <= LeaseDuration(days, hours).value <= MAX_LEASE
              && FormatDuration(LeaseDuration(days, hours).value) == Shown(days, hours, 0)
  {
  }

  lemma EveryWholeHourHasARequest(n: nat)
    ensures n <= 1535 <==> exists days: nat, hours: nat :: LeaseDuration(days, hours) == Ok(Hours(n))
  {
    if n <= 1535 {
      assert LeaseDuration(n / 24, n % 24) == Ok(Hours(n));
    }
  }
}
