/** The exit-signal protocol (src/main.rs): a watcher that counts arrivals, the race between
    the run and the first arrival, the grace, and the exit code. */
module ExitSignal {
  import opened Text

  datatype Signal = Interrupt | Terminate

  /** The arrival counter is 32 bits wide. */
  const WIDTH: nat := 0x1_0000_0000

  function Signum(signal: Signal): int { if signal == Interrupt then 2 else 15 }

  function ExitCode(signal: Signal): int { 128 + Signum(signal) }

  function FromMarker(marker: int): Option<Signal> {
    if marker == 2 then Some(Interrupt) else if marker == 15 then Some(Terminate) else None
  }

  // ----- The shared state

  /** Counter, marker (0 is "none yet") and the one stored permit of each notifier. */
  datatype Signals = Signals(count: nat, marker: int, exitPermit: bool, forcePermit: bool)

  const NO_SIGNALS: Signals := Signals(0, 0, false, false)

  /** The atomic steps of recording one arrival. */
  function Counted(g: Signals): Signals { g.(count := (g.count + 1) % WIDTH) }

  /** What the counting step returns: the count it found plus one, saturating. */
  function Seen(g: Signals): nat { if g.count + 1 < WIDTH then g.count + 1 else WIDTH - 1 }

  function Stored(g: Signals, signal: Signal): Signals { g.(marker := Signum(signal)) }

  function ExitRequested(g: Signals): Signals { g.(exitPermit := true) }

  function ForceRequested(g: Signals): Signals { g.(forcePermit := true) }

  /** One arrival recorded without interruption. */
  function Observed(g: Signals, signal: Signal): Signals {
    if Seen(g) == 1 then ExitRequested(Stored(Counted(g), signal)) else ForceRequested(Counted(g))
  }

  /** The signal the process reports. */
  function ExitArrival(g: Signals): Signal {
    match FromMarker(g.marker)
    case Some(signal) => signal
    case None => Terminate
  }

  class SignalState {
    var count: nat
    var exitMarker: int
    var exitPermit: bool
    var forcePermit: bool

    ghost function View(): Signals
      reads this
    {
      Signals(count, exitMarker, exitPermit, forcePermit)
    }

    constructor ()
      ensures View() == NO_SIGNALS
    {
      count, exitMarker, exitPermit, forcePermit := 0, 0, false, false;
    }

    method Observe(signal: Signal) returns (seen: nat)
      modifies this
      ensures View() == Observed(old(View()), signal) && seen == Seen(old(View()))
    {
      var found := count;
      count := (count + 1) % WIDTH;
      seen := if found + 1 < WIDTH then found + 1 else WIDTH - 1;
      if seen == 1 {
        exitMarker := Signum(signal);
        exitPermit := true;
      } else {
        forcePermit := true;
      }
    }
  }

  function ObservedAll(g: Signals, arrivals: seq<Signal>): Signals
    decreases |arrivals|
  {
    if arrivals == [] then g
    else Observed(ObservedAll(g, arrivals[..|arrivals| - 1]), arrivals[|arrivals| - 1])
  }

  /** How often the counter has left zero. */
  function Laps(arrivals: nat): nat { (arrivals + WIDTH - 1) / WIDTH }

  /** The marker after `stores` stores: the arrival that opened the last lap. */
  function Recorded(arrivals: seq<Signal>, stores: nat): int {
    if stores == 0 || (stores - 1) * WIDTH >= |arrivals| then 0 else Signum(arrivals[(stores - 1) * WIDTH])
  }

  lemma NextArrival(n: nat)
    ensures n % WIDTH == 0 ==> Laps(n + 1) == Laps(n) + 1 && Laps(n) * WIDTH == n
    ensures n % WIDTH != 0 ==> Laps(n + 1) == Laps(n)
    ensures (n + 1) % WIDTH == (n % WIDTH + 1) % WIDTH
    ensures 0 < n <= WIDTH <==> Laps(n) == 1
    ensures n > 0 ==> 0 < Laps(n) && (Laps(n) - 1) * WIDTH < n
  {}

  /** After any number of arrivals: the counter wraps, the marker names the arrival that
      opened the current lap, and both permits are as one and two arrivals leave them. */
  lemma {:induction false} ObservedAllExactly(arrivals: seq<Signal>)
    ensures ObservedAll(NO_SIGNALS, arrivals) ==
            Signals(|arrivals| % WIDTH, Recorded(arrivals, Laps(|arrivals|)), |arrivals| > 0, |arrivals| > 1)
    decreases |arrivals|
  {
    if arrivals != [] {
      var n := |arrivals| - 1;
      ObservedAllExactly(arrivals[..n]);
      NextArrival(n);
      NextArrival(n + 1);
    }
  }

  /** The reported signal is the one that opened the last lap of the counter: the first
      signal up to and including 2^32 arrivals, the one after that from then on. */
  lemma ReportedExactly(arrivals: seq<Signal>)
    requires arrivals != []
    ensures var opener := (Laps(|arrivals|) - 1) * WIDTH;
            && 0 <= opener < |arrivals| && ExitArrival(ObservedAll(NO_SIGNALS, arrivals)) == arrivals[opener]
            && (opener == 0 <==> |arrivals| <= WIDTH)
  {
    ObservedAllExactly(arrivals);
    NextArrival(|arrivals|);
  }
}
