/** The two-state filter behind each hall sensor: a shift register of the last `n` samples,
    and an output that follows only when all of them agree.  One step is one edge of the
    divided clock. */
module HallFilter {

  /** Shift register, oldest sample first, and whether the state is B. */
  datatype Filter = Filter(q: seq<bool>, high: bool)

  predicate All(q: seq<bool>, v: bool) { forall i :: 0 <= i < |q| ==> q[i] == v }

  function Zeros(n: nat): (q: seq<bool>)
    ensures |q| == n && All(q, false)
  {
    seq(n, i => false)
  }

  /** state_D: leave A when every bit is set, leave B when none is. */
  predicate Next(q: seq<bool>, high: bool) { if high then !All(q, false) else All(q, true) }

  function Step(f: Filter, data: bool): Filter
    requires |f.q| > 0
  {
    Filter(f.q[1..] + [data], Next(f.q, f.high))
  }

  /** The filter after these samples, from reset. */
  function After(n: nat, samples: seq<bool>): (f: Filter)
    requires n > 0
    ensures |f.q| == n
  {
    if samples == [] then Filter(Zeros(n), false)
    else Step(After(n, samples[..|samples| - 1]), samples[|samples| - 1])
  }

  /** The `n` samples up to the j-th; before the first there were zeros. */
  function Window(n: nat, samples: seq<bool>, j: nat): (w: seq<bool>)
    requires j <= |samples|
    ensures |w| == n
  {
    (Zeros(n) + samples)[j..j + n]
  }

  lemma WindowOfPrefix(n: nat, samples: seq<bool>, j: nat, m: nat)
    requires j <= m <= |samples|
    ensures Window(n, samples[..m], j) == Window(n, samples, j)
  {
    var longer, shorter := Zeros(n) + samples, Zeros(n) + samples[..m];
    assert forall i :: 0 <= i < n + m ==> shorter[i] == longer[i];
  }

  lemma {:induction false} RegisterIsWindow(n: nat, samples: seq<bool>)
    requires n > 0
    ensures After(n, samples).q == Window(n, samples, |samples|)
  {
    var m := |samples|;
    if m > 0 {
      RegisterIsWindow(n, samples[..m - 1]);
      WindowOfPrefix(n, samples, m - 1, m - 1);
      var long := Zeros(n) + samples;
      assert long[m - 1..m - 1 + n][1..] + [samples[m - 1]] == long[m..m + n];
    }
  }

  /** Of the windows before the m-th, the latest that is constant is so at `v`. */
  ghost predicate Latest(n: nat, samples: seq<bool>, m: nat, v: bool)
    requires m <= |samples|
  {
    exists j :: 0 <= j < m && All(Window(n, samples, j), v)
      && forall i :: j < i < m ==> !All(Window(n, samples, i), !v)
  }

  // The output is the value of the latest constant window that was in the register, the
  // reset counting as zeros; both directions.
  lemma {:induction false} OutputIsLatest(n: nat, samples: seq<bool>)
    requires n > 0
    ensures After(n, samples).high <==> Latest(n, samples, |samples|, true)
    ensures samples != [] ==> (!After(n, samples).high <==> Latest(n, samples, |samples|, false))
  {
    var m := |samples|;
    if m > 0 {
      var before := samples[..m - 1];
      OutputIsLatest(n, before);
      RegisterIsWindow(n, before);
      WindowOfPrefix(n, samples, m - 1, m - 1);
      LatestGrows(n, samples, true);
      LatestGrows(n, samples, false);
      NotBoth(Window(n, samples, m - 1));
      FirstWindow(n, samples);
    }
  }

  lemma SameWindows(n: nat, samples: seq<bool>)
    requires samples != []
    ensures forall j :: 0 <= j < |samples| ==> Window(n, samples[..|samples| - 1], j) == Window(n, samples, j)
  {
    forall j | 0 <= j < |samples|
      ensures Window(n, samples[..|samples| - 1], j) == Window(n, samples, j)
    {
      WindowOfPrefix(n, samples, j, |samples| - 1);
    }
  }

  // One more sample: the register before it decides if its window is constant.
  lemma LatestGrows(n: nat, samples: seq<bool>, v: bool)
    requires n > 0 && samples != []
    ensures Latest(n, samples, |samples|, v) <==>
      || All(Window(n, samples, |samples| - 1), v)
      || (Latest(n, samples[..|samples| - 1], |samples| - 1, v) && !All(Window(n, samples, |samples| - 1), !v))
  {
    LatestKept(n, samples, v);
    var m, before := |samples| - 1, samples[..|samples| - 1];
    SameWindows(n, samples);
    hide Window, All;
    if Latest(n, samples, m + 1, v) {
      var j :| 0 <= j < m + 1 && All(Window(n, samples, j), v)
               && forall i :: j < i < m + 1 ==> !All(Window(n, samples, i), !v);
      assert j < m ==> All(Window(n, before, j), v);
      forall i | j < i < m
        ensures !All(Window(n, before, i), !v)
      {
        assert !All(Window(n, samples, i), !v);
      }
    }
  }

  lemma LatestKept(n: nat, samples: seq<bool>, v: bool)
    requires n > 0 && samples != []
    ensures All(Window(n, samples, |samples| - 1), v) ==> Latest(n, samples, |samples|, v)
    ensures Latest(n, samples[..|samples| - 1], |samples| - 1, v) && !All(Window(n, samples, |samples| - 1), !v)
            ==> Latest(n, samples, |samples|, v)
  {
    var m, before := |samples| - 1, samples[..|samples| - 1];
    SameWindows(n, samples);
    hide Window, All;
    if Latest(n, before, m, v) && !All(Window(n, samples, m), !v) {
      var j :| 0 <= j < m && All(Window(n, before, j), v) && forall i :: j < i < m ==> !All(Window(n, before, i), !v);
      assert All(Window(n, samples, j), v);
      forall i | j < i < m + 1
        ensures !All(Window(n, samples, i), !v)
      {
        assert i < m ==> !All(Window(n, before, i), !v);
      }
    }
  }

  lemma NotBoth(w: seq<bool>)
    requires |w| > 0
    ensures !(All(w, true) && All(w, false))
  {
    if w[0] {
      assert !All(w, false);
    }
  }

  lemma FirstWindow(n: nat, samples: seq<bool>)
    ensures All(Window(n, samples, 0), false)
  {
    assert Window(n, samples, 0) == Zeros(n);
  }

  /** The output after the first `m` samples. */
  predicate Output(n: nat, samples: seq<bool>, m: nat)
    requires n > 0 && m <= |samples|
  {
    After(n, samples[..m]).high
  }

  predicate Changes(n: nat, samples: seq<bool>, m: nat)
    requires n > 0 && m <= |samples|
  {
    m > 0 && Output(n, samples, m) != Output(n, samples, m - 1)
  }

  lemma ChangeNeedsWindow(n: nat, samples: seq<bool>, m: nat)
    requires n > 0 && m <= |samples| && Changes(n, samples, m)
    ensures All(Window(n, samples, m - 1), Output(n, samples, m))
  {
    assert samples[..m][..m - 1] == samples[..m - 1];
    RegisterIsWindow(n, samples[..m - 1]);
    WindowOfPrefix(n, samples, m - 1, m - 1);
  }

  lemma WindowsOverlap(n: nat, samples: seq<bool>, i: nat, j: nat)
    requires i <= j <= |samples|
    ensures j - i < n ==> Window(n, samples, i)[j - i] == Window(n, samples, j)[0]
  {
  }

  lemma WindowsClash(n: nat, samples: seq<bool>, i: nat, j: nat, v: bool)
    requires i <= j <= |samples| && All(Window(n, samples, i), v) && All(Window(n, samples, j), !v)
    ensures j - i >= n
  {
    WindowsOverlap(n, samples, i, j);
  }

  lemma {:induction false} ChangeBetween(n: nat, samples: seq<bool>, m: nat, k: nat) returns (c: nat)
    requires n > 0 && m < k <= |samples| && Output(n, samples, m) != Output(n, samples, k)
    ensures m < c <= k && Changes(n, samples, c) && Output(n, samples, c) == Output(n, samples, k)
    decreases k
  {
    if Output(n, samples, k - 1) != Output(n, samples, k) {
      c := k;
    } else {
      c := ChangeBetween(n, samples, m, k - 1);
    }
  }

  // Two changes of the output are at least `n` clocks apart, whatever the input.
  lemma ChangesApart(n: nat, samples: seq<bool>, m: nat, k: nat)
    requires n > 0 && m < k <= |samples| && Changes(n, samples, m) && Changes(n, samples, k)
    ensures k - m >= n
  {
    hide Window, All, Output;
    var c := k;
    if Output(n, samples, k) == Output(n, samples, m) {
      c := ChangeBetween(n, samples, m, k - 1);
    }
    ChangeNeedsWindow(n, samples, m);
    ChangeNeedsWindow(n, samples, c);
    WindowsClash(n, samples, m - 1, c - 1, Output(n, samples, m));
  }

  // From a moment at which the output is `v`, it stays so as long as no window of `!v` has
  // been in the register.
  lemma {:induction false} OutputHolds(n: nat, samples: seq<bool>, m: nat, k: nat, v: bool)
    requires n > 0 && m <= k <= |samples| && Output(n, samples, m) == v
    requires forall j :: m <= j < k ==> !All(Window(n, samples, j), !v)
    ensures Output(n, samples, k) == v
    decreases k
  {
    hide Window, All, Output;
    if m < k {
      OutputHolds(n, samples, m, k - 1, v);
      if Changes(n, samples, k) {
        ChangeNeedsWindow(n, samples, k);
      }
    }
  }

  lemma SampleInWindow(n: nat, samples: seq<bool>, i: nat, j: nat, v: bool)
    requires i < j <= |samples| && j - n <= i && samples[i] == v
    ensures !All(Window(n, samples, j), !v)
  {
    assert Window(n, samples, j)[i + n - j] == (Zeros(n) + samples)[i + n] == v;
  }

  // Fewer than n samples between two equal to the output never show, whatever they are:
  // the output keeps its value while any of them is in the register.  High pulses and low
  // ones, at any time.
  lemma ShortPulsesFiltered(n: nat, samples: seq<bool>, p: nat, q: nat, k: nat, v: bool)
    requires 0 < p <= q < |samples| && q - p < n && samples[p - 1] == samples[q] == v && Output(n, samples, p) == v
    requires p <= k <= |samples| && k <= q + n + 1
    ensures Output(n, samples, k) == v
  {
    forall j | p <= j < k
      ensures !All(Window(n, samples, j), !v)
    {
      if j - n <= p - 1 {
        SampleInWindow(n, samples, p - 1, j, v);
      } else {
        SampleInWindow(n, samples, q, j, v);
      }
    }
    hide Window, All, Output;
    OutputHolds(n, samples, p, k, v);
  }

  /** The registers, clocked in place. */
  class EdgeDetection {
    const Q: array<bool>
    var stateB: bool

    ghost function Value(): Filter
      reads this, Q
    {
      Filter(Q[..], stateB)
    }

    constructor (n: nat)
      requires n > 0
      ensures fresh(Q) && Q.Length == n
    {
      Q := new bool[n];
      stateB := false;
    }

    /** assign w[1] = &Q and, negated, w[0] = |Q */
    method AllBits(v: bool) returns (same: bool)
      ensures same == All(Q[..], v)
    {
      for i := 0 to Q.Length
        invariant forall j :: 0 <= j < i ==> Q[j] == v
      {
        if Q[i] != v {
          assert Q[..][i] == Q[i];
          return false;
        }
      }
      return true;
    }

    /** One edge of the divided clock; the state follows the register as it was. */
    method Clock(reset: bool, data: bool)
      requires Q.Length > 0
      modifies `stateB, Q
      ensures Value() == if reset then After(Q.Length, []) else Step(old(Value()), data)
    {
      var n := Q.Length;
      if reset {
        for i := 0 to n
          invariant forall j :: 0 <= j < i ==> !Q[j]
        {
          Q[i] := false;
        }
        stateB := false;
        assert Q[..] == Zeros(n);
      } else {
        if stateB {
          var none := AllBits(false);
          stateB := !none;
        } else {
          stateB := AllBits(true);
        }
        Shift(data);
      }
    }

    method Shift(data: bool)
      requires Q.Length > 0
      modifies Q
      ensures Q[..] == old(Q[..])[1..] + [data]
    {
      var k := Q.Length;
      for i := 0 to k - 1
        invariant forall j :: 0 <= j < i ==> Q[j] == old(Q[j + 1])
        invariant forall j :: i <= j < k ==> Q[j] == old(Q[j])
      {
        Q[i] := Q[i + 1];
      }
      Q[k - 1] := data;
    }
  }
}
