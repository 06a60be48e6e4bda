/** The drop-rate window that disconnects slow peers (src/fanout.rs:25-31, 140-171). */
module DropWindow {

  /** Ten seconds, in nanoseconds. */
  const DROP_WINDOW: nat := 10_000_000_000
  const MAX_DROPS_PER_WINDOW: nat := 2048

  datatype Window = Window(start: nat, drops: nat)

  /** `Instant::duration_since` gives zero for an earlier instant. */
  function Since(now: nat, start: nat): nat {
    if now < start then 0 else now - start
  }

  function Drop(w: Window, now: nat): Window {
    if Since(now, w.start) > DROP_WINDOW then Window(now, 1) else Window(w.start, w.drops + 1)
  }

  predicate OverLimit(w: Window, now: nat) {
    Since(now, w.start) <= DROP_WINDOW && w.drops + 1 > MAX_DROPS_PER_WINDOW
  }

  /** The window after the drops at `times`, for a connection registered at `joined`. */
  function After(joined: nat, times: seq<nat>): Window {
    if times == [] then Window(joined, 0) else Drop(After(joined, times[..|times| - 1]), times[|times| - 1])
  }

  function Killed(joined: nat, times: seq<nat>): bool {
    if times == [] then false
    else
      var before := times[..|times| - 1];
      Killed(joined, before) || OverLimit(After(joined, before), times[|times| - 1])
  }

  ghost predicate Ordered(joined: nat, times: seq<nat>) {
    && (forall i, j :: 0 <= i <= j < |times| ==> times[i] <= times[j])
    && (forall i :: 0 <= i < |times| ==> joined <= times[i])
  }

  /** Index of the first drop counted in the current window. */
  function First(joined: nat, times: seq<nat>): nat {
    if times == [] then 0
    else
      var n := |times| - 1;
      if Since(times[n], After(joined, times[..n]).start) > DROP_WINDOW then n else First(joined, times[..n])
  }

  /** The window counts the latest drops, all within its length of its start; a window opened
      by a drop starts at that drop. */
  lemma {:induction false} WindowCountsSinceFirst(joined: nat, times: seq<nat>)
    requires Ordered(joined, times)
    ensures var w, f := After(joined, times), First(joined, times);
            && f <= |times| && w.drops == |times| - f
            && (times != [] ==> f < |times| && w.start <= times[f] && times[|times| - 1] - w.start <= DROP_WINDOW)
            && (f > 0 ==> w.start == times[f])
  {
    if times != [] {
      var n := |times| - 1;
      WindowCountsSinceFirst(joined, times[..n]);
    }
  }

  lemma {:induction false} KilledSomewhere(joined: nat, times: seq<nat>)
    ensures Killed(joined, times) <==>
            exists n :: 0 <= n < |times| && OverLimit(After(joined, times[..n]), times[n])
  {
    hide After, OverLimit;
    if times != [] {
      var m := |times| - 1;
      KilledSomewhere(joined, times[..m]);
      if Killed(joined, times[..m]) {
        var n :| 0 <= n < m && OverLimit(After(joined, times[..m][..n]), times[..m][n]);
        assert times[..m][..n] == times[..n];
        assert OverLimit(After(joined, times[..n]), times[n]);
      }
      if n :| 0 <= n < |times| && OverLimit(After(joined, times[..n]), times[n]) {
        if n < m {
          assert times[..m][..n] == times[..n] && times[..m][n] == times[n];
        }
      }
    }
  }

  /** A peer is disconnected only for more than 2048 drops within some stretch of at most ten seconds. */
  lemma KillImpliesManyDrops(joined: nat, times: seq<nat>) returns (i: nat, j: nat)
    requires Ordered(joined, times) && Killed(joined, times)
    ensures i <= j < |times| && times[j] - times[i] <= 10_000_000_000
    ensures j - i + 1 >= 2049
  {
    KilledSomewhere(joined, times);
    j :| 0 <= j < |times| && OverLimit(After(joined, times[..j]), times[j]);
    WindowCountsSinceFirst(joined, times[..j]);
    i := First(joined, times[..j]);
  }

  /** And any stretch of at most ten seconds with twice that many drops, and one more,
      disconnects it by the end of the stretch. */
  lemma ManyDropsForceKill(joined: nat, times: seq<nat>, a: nat, b: nat)
    requires Ordered(joined, times)
    requires a <= b < |times| && times[b] - times[a] <= 10_000_000_000
    requires b - a + 1 >= 4097
    ensures Killed(joined, times[..b + 1])
  {
    if !Killed(joined, times[..b + 1]) { QuietStretchIsShort(joined, times, a, b); }
  }

  lemma QuietStretchIsShort(joined: nat, times: seq<nat>, a: nat, b: nat)
    requires Ordered(joined, times)
    requires a <= b < |times| && times[b] - times[a] <= DROP_WINDOW
    requires !Killed(joined, times[..b + 1])
    ensures b - a + 1 <= 2 * MAX_DROPS_PER_WINDOW
  {
    hide Killed, After, First, OverLimit;
    var f := First(joined, times[..b + 1]);
    QuietWindow(joined, times, b, b);
    if f > 0 {
      WindowRestarts(joined, times, b, f);
      QuietWindow(joined, times, f - 1, b);
      assert times[..(f - 1) + 1] == times[..f];
      var g := First(joined, times[..f]);
      WindowCountsSinceFirst(joined, times[..f]);
      assert times[f] <= times[b];
      assert g > 0 ==> times[g] < times[a];
    }
  }

  /** Without a kill by drop `n`, the window then holds at most the permitted number. */
  lemma QuietWindow(joined: nat, times: seq<nat>, n: nat, m: nat)
    requires Ordered(joined, times) && n <= m < |times| && !Killed(joined, times[..m + 1])
    ensures n + 1 - First(joined, times[..n + 1]) <= MAX_DROPS_PER_WINDOW
  {
    hide Killed;
    KilledSomewhere(joined, times[..m + 1]);
    assert times[..m + 1][..n] == times[..n] && times[..m + 1][n] == times[n];
    assert !OverLimit(After(joined, times[..n]), times[n]);
    WindowCountsSinceFirst(joined, times[..n]);
    WindowCountsSinceFirst(joined, times[..n + 1]);
    assert times[..n + 1][..n] == times[..n];
  }

  /** A window whose first drop is `f > 0` was opened by that drop falling outside the one before. */
  lemma {:induction false} WindowRestarts(joined: nat, times: seq<nat>, n: nat, f: nat)
    requires Ordered(joined, times) && n < |times| && f == First(joined, times[..n + 1]) && f > 0
    ensures f <= n && Since(times[f], After(joined, times[..f]).start) > DROP_WINDOW
  {
    var p := times[..n + 1];
    assert p[..n] == times[..n];
    if Since(times[n], After(joined, times[..n]).start) > DROP_WINDOW {
    } else {
      assert n > 0;
      assert times[..n] == times[..(n - 1) + 1];
      WindowRestarts(joined, times, n - 1, f);
    }
  }

  /** The bound is sharp: with one drop less, two full windows back to back go unpunished. */
  function BackToBack(): seq<nat> {
    seq(2 * MAX_DROPS_PER_WINDOW, i => if i < MAX_DROPS_PER_WINDOW then DROP_WINDOW else DROP_WINDOW + 1)
  }

  lemma {:induction false} BackToBackWindows(n: nat)
    requires n <= 2 * MAX_DROPS_PER_WINDOW
    ensures var times := BackToBack()[..n];
            && After(0, times) == (if n <= MAX_DROPS_PER_WINDOW then Window(0, n)
                                   else Window(DROP_WINDOW + 1, n - MAX_DROPS_PER_WINDOW))
            && !Killed(0, times)
  {
    if n > 0 {
      BackToBackWindows(n - 1);
      assert BackToBack()[..n][..n - 1] == BackToBack()[..n - 1];
    }
  }

  lemma TwiceTheLimitCanPass()
    ensures var times := BackToBack();
            && Ordered(0, times) && |times| == 4096
            && times[|times| - 1] - times[0] <= 10_000_000_000
            && !Killed(0, times)
  {
    BackToBackWindows(2 * MAX_DROPS_PER_WINDOW);
    assert BackToBack()[..2 * MAX_DROPS_PER_WINDOW] == BackToBack();
  }
}
