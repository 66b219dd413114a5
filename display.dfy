/** What the timer screen derives from the controller's state
    (MainActivity.kt): the remaining time split into hours, minutes and
    seconds for the digital clock, and the fraction that drives the circular
    progress indicator. */
module Display {
  import opened Timer

  /** Kotlin's `Int.div` by a positive divisor: the quotient rounded toward zero. */
  function TruncDiv(a: int, b: int): (q: int)
    requires b > 0
    ensures a >= 0 ==> 0 <= q * b <= a < q * b + b
    ensures a < 0 ==> q * b - b < a <= q * b <= 0
  {
    var n := if a >= 0 then a else -a;
    var q0, r0 := n / b, n % b;
    assert n == q0 * b + r0 && 0 <= r0 < b;
    assert 0 <= q0 * b by { assert 0 <= q0; }
    if a >= 0 then q0 else assert -q0 * b == -(q0 * b); -q0
  }

  /** Kotlin's `Int.rem` by a positive divisor: the remainder takes the sign of `a`. */
  function TruncRem(a: int, b: int): (r: int)
    requires b > 0
    ensures a == TruncDiv(a, b) * b + r
    ensures a >= 0 ==> 0 <= r < b && r == a % b
    ensures a < 0 ==> -b < r <= 0
  {
    if a >= 0 then a % b else -((-a) % b)
  }

  /** The hours shown for `seconds` remaining: `seconds.div(3600)`. */
  function DisplayHours(seconds: int): (h: int)
    ensures seconds >= 0 ==> 0 <= h && h * 3600 <= seconds < h * 3600 + 3600
  {
    TruncDiv(seconds, 3600)
  }

  /** The minutes shown: `seconds.rem(3600).div(60)`. */
  function DisplayMinutes(seconds: int): (m: int)
    ensures -60 < m < 60
    ensures seconds >= 0 ==> 0 <= m < 60
  {
    TruncDiv(TruncRem(seconds, 3600), 60)
  }

  /** The seconds shown: `seconds.rem(60)`. */
  function DisplaySeconds(seconds: int): (s: int)
    ensures -60 < s < 60
    ensures seconds >= 0 ==> 0 <= s < 60
  {
    TruncRem(seconds, 60)
  }

  /** The filled fraction of the progress ring: remaining over total, and 0
      when the total is 0. */
  function Progress(countdownSeconds: int, totalSeconds: int): (p: real)
    ensures totalSeconds == 0 ==> p == 0.0
    ensures totalSeconds != 0 ==> p * totalSeconds as real == countdownSeconds as real
  {
    if totalSeconds == 0 then 0.0 else countdownSeconds as real / totalSeconds as real
  }

  // ---------------------------------------------------------------------
  // The digital clock

  /** Euclidean remainder by 60 is determined by any decomposition with a
      digit in 0..59. */
  lemma RemainderOfSixty(n: int, k: int, b: int)
    requires n == k * 60 + b && 0 <= b < 60
    ensures n % 60 == b
  {
    var q, r := n / 60, n % 60;
    assert n == q * 60 + r && 0 <= r < 60;
    assert (q - k) * 60 == b - r;
  }

  /** For a non-negative time, the seconds digit is that of its remainder
      within the hour. */
  lemma SecondsWithinHourNat(n: int)
    requires n >= 0
    ensures (n % 3600) % 60 == n % 60
  {
    var q, r := n / 3600, n % 3600;
    assert n == q * 3600 + r;
    var a, b := r / 60, r % 60;
    assert r == a * 60 + b;
    assert n == (q * 60 + a) * 60 + b;
    RemainderOfSixty(n, q * 60 + a, b);
  }

  /** The seconds digit of a remaining time agrees with that of its
      remainder within the hour, also for negative times. */
  lemma SecondsWithinHour(c: int)
    ensures TruncRem(TruncRem(c, 3600), 60) == TruncRem(c, 60)
  {
    if c >= 0 {
      SecondsWithinHourNat(c);
    } else {
      SecondsWithinHourNat(-c);
    }
  }

  /** The three digits recombine, through the duration formula of the start
      operation, to the remaining time they were split from. */
  lemma Recombine(c: int)
    ensures Duration(DisplayHours(c), DisplayMinutes(c), DisplaySeconds(c)) == c
  {
    SecondsWithinHour(c);
  }

  /** A dialled duration with minutes and seconds below 60 is shown back as
      exactly the hours, minutes and seconds that were dialled. */
  lemma DisplayOfDuration(h: int, m: int, s: int)
    requires h >= 0 && 0 <= m < 60 && 0 <= s < 60
    ensures DisplayHours(Duration(h, m, s)) == h
    ensures DisplayMinutes(Duration(h, m, s)) == m
    ensures DisplaySeconds(Duration(h, m, s)) == s
  {
    var c := Duration(h, m, s);
    Recombine(c);
  }

  /** Right after a start, the clock shows the dialled hours, minutes and
      seconds and the ring is full, or empty for a zero duration. */
  lemma ScreenAfterStart(t: TimerState)
    requires Consistent(t) && t.minutes < 60 && t.seconds < 60
    ensures var r := AfterStart(t);
      && DisplayHours(r.clock) == t.hours
      && DisplayMinutes(r.clock) == t.minutes
      && DisplaySeconds(r.clock) == t.seconds
      && Progress(r.clock, r.totalClock) == if r.totalClock == 0 then 0.0 else 1.0
  {
    var d := Duration(t.hours, t.minutes, t.seconds);
    DisplayOfDuration(t.hours, t.minutes, t.seconds);
    ProgressWhenNothingElapsed(d);
  }

  // ---------------------------------------------------------------------
  // The progress ring

  /** The fraction lies in [0, 1] whenever the remaining time lies between 0
      and the total. */
  lemma ProgressInUnitInterval(countdownSeconds: int, totalSeconds: int)
    requires 0 <= countdownSeconds <= totalSeconds
    ensures 0.0 <= Progress(countdownSeconds, totalSeconds) <= 1.0
  {
    if totalSeconds != 0 {
      var p := Progress(countdownSeconds, totalSeconds);
      assert p * totalSeconds as real == countdownSeconds as real;
    }
  }

  /** Before the first tick, with the remaining time equal to the total, the
      ring is full, or empty for a zero total. */
  lemma ProgressWhenNothingElapsed(d: int)
    ensures Progress(d, d) == if d == 0 then 0.0 else 1.0
  {
    if d != 0 {
      assert d as real / d as real == 1.0;
    }
  }

  /** In every reachable state of the controller the ring is between empty
      and full. */
  lemma ProgressOfConsistent(t: TimerState)
    requires Consistent(t)
    ensures 0.0 <= Progress(t.clock, t.totalClock) <= 1.0
  {
    ProgressInUnitInterval(t.clock, t.totalClock);
  }

  /** Every tick empties the ring strictly further. */
  lemma ProgressFallsOnTick(t: TimerState)
    requires Consistent(t) && t.clock > 0
    ensures Progress(AfterTick(t).clock, t.totalClock) < Progress(t.clock, t.totalClock)
  {
    var p, p' := Progress(t.clock, t.totalClock), Progress(AfterTick(t).clock, t.totalClock);
    var n := t.totalClock as real;
    assert p * n - p' * n == 1.0;
    assert (p - p') * n == 1.0;
  }

  // ---------------------------------------------------------------------
  // A session on the screen

  /** Dial 1:02:03, start, and let the countdown run out: the clock first
      shows what was dialled over 3723 seconds, and the controller ends at rest. */
  method Session()
  {
    var vm := new MainViewModel();
    vm.IncHour();
    vm.IncMinute();
    vm.IncMinute();
    vm.IncSecond();
    vm.IncSecond();
    vm.IncSecond();
    ghost var dialled := vm.State();
    vm.StartCountdown();
    assert vm.clock == vm.totalClock == 3723;
    ScreenAfterStart(dialled);
    assert DisplayHours(vm.clock) == 1 && DisplayMinutes(vm.clock) == 2 && DisplaySeconds(vm.clock) == 3;
    assert Progress(vm.clock, vm.totalClock) == 1.0;
    ghost var ticks := vm.RunCountdown();
    assert ticks == 3723 && vm.State() == Initial;
  }
}
