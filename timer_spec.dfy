/**
 * Value-level model of the software-timer registry: the uint32 counter
 * arithmetic, and the effect of each pass over the registry on the ordered
 * sequence of timer states. The imperative model in module STimer is proved
 * against these functions, and the lemmas here state what the passes promise.
 */
module TimerSpec {

  /** C's uint32_t. */
  newtype u32 = x: int | 0 <= x < 0x1_0000_0000

  /** STIMER_MODE. */
  datatype Mode = OneShot | Periodic

  /** The fields of a STIMER_HANDLE that the passes read and write. */
  datatype TimerState = TimerState(mode: Mode, cnt: u32, need: u32)

  /** No element occurs twice. */
  ghost predicate Distinct<T>(s: seq<T>)
  {
    forall i, j :: 0 <= i < j < |s| ==> s[i] != s[j]
  }

  /** An element of a sequence without repeats differs from every other element. */
  lemma DistinctAt<T>(s: seq<T>, i: nat)
    requires Distinct(s) && i < |s|
    ensures forall j :: 0 <= j < |s| && j != i ==> s[j] != s[i]
  {
  }

  // ---------------------------------------------------------------------------
  // Create: the reload count

  /**
   * The reload count of STIMER_Create: the number of whole hardware ticks
   * (of callbackTime / 1000 milliseconds each) that fit in the delay.
   */
  function TicksFor(callbackTime: u32, delayMs: u32): (r: u32)
    requires callbackTime >= 1000
    ensures r as int * (callbackTime / 1000) as int <= delayMs as int
    ensures delayMs as int < (r as int + 1) * (callbackTime / 1000) as int
    ensures r <= delayMs
  {
    var tick: nat := (callbackTime / 1000) as nat;
    var q := delayMs as nat / tick;
    FloorDivision(delayMs as nat, tick, q);
    q as u32
  }

  /** Integer division rounds down: q * b <= a < (q + 1) * b, and q <= a. */
  lemma FloorDivision(a: nat, b: nat, q: nat)
    requires b > 0 && q == a / b
    ensures q * b <= a < (q + 1) * b && q <= a
  {
    assert a == q * b + a % b && 0 <= a % b < b;
    MultiplyStep(q, b);
  }

  /** (q + 1) * b == q * b + b, and q * b >= q when b is positive. */
  lemma MultiplyStep(q: nat, b: nat)
    requires b > 0
    ensures (q + 1) * b == q * b + b && q * b >= q
  {
  }

  /** A delay shorter than one hardware tick gives a zero reload count. */
  lemma TicksForZero(callbackTime: u32, delayMs: u32)
    requires callbackTime >= 1000
    ensures TicksFor(callbackTime, delayMs) == 0 <==> delayMs < callbackTime / 1000
  {
    var r, t := TicksFor(callbackTime, delayMs) as nat, (callbackTime / 1000) as nat;
    if r > 0 {
      MultiplyStep(r - 1, t);
      assert r * t >= t;
    }
  }

  /** On a 1000 microsecond tick the reload count is the delay in milliseconds. */
  lemma TicksForOneMillisecond(delayMs: u32)
    ensures TicksFor(1000, delayMs) == delayMs
  {
  }

  // ---------------------------------------------------------------------------
  // InterruptHandler: one tick on every counter

  /** One hardware tick on one counter: decrement, but never below zero. */
  function Tick(c: u32): u32
  {
    if c != 0 then c - 1 else 0
  }

  /** n hardware ticks on one counter. */
  function Ticks(c: u32, n: nat): u32
  {
    if n == 0 then c else Ticks(Tick(c), n - 1)
  }

  /** n ticks bring a counter c down to c - n, and hold it at zero from then on. */
  lemma {:induction false} TicksCountDown(c: u32, n: nat)
    ensures Ticks(c, n) as int == if n <= c as int then c as int - n else 0
  {
    if n > 0 {
      TicksCountDown(Tick(c), n - 1);
    }
  }

  /** The effect of one STIMER_InterruptHandler on the registry's timers, in list order. */
  function TickAll(v: seq<TimerState>): seq<TimerState>
  {
    seq(|v|, i requires 0 <= i < |v| => v[i].(cnt := Tick(v[i].cnt)))
  }

  /** n interrupts in a row. */
  function TickAllN(v: seq<TimerState>, n: nat): seq<TimerState>
    decreases n
  {
    if n == 0 then v else TickAllN(TickAll(v), n - 1)
  }

  /** n interrupts act on each timer alone: its counter takes n ticks, nothing else changes. */
  lemma {:induction false} TickAllNPointwise(v: seq<TimerState>, n: nat)
    ensures |TickAllN(v, n)| == |v|
    ensures forall i :: 0 <= i < |v| ==> TickAllN(v, n)[i] == v[i].(cnt := Ticks(v[i].cnt, n))
    decreases n
  {
    if n > 0 {
      TickAllNPointwise(TickAll(v), n - 1);
    }
  }

  /**
   * n interrupts keep every timer's mode and reload count and bring each
   * counter down by n, stopping at zero: a counter never wraps.
   */
  lemma TickAllNCountDown(v: seq<TimerState>, n: nat)
    ensures |TickAllN(v, n)| == |v|
    ensures forall i :: 0 <= i < |v| ==>
      TickAllN(v, n)[i].mode == v[i].mode && TickAllN(v, n)[i].need == v[i].need &&
      TickAllN(v, n)[i].cnt as int == if n <= v[i].cnt as int then v[i].cnt as int - n else 0
  {
    TickAllNPointwise(v, n);
    forall i | 0 <= i < |v|
      ensures TickAllN(v, n)[i].cnt as int == if n <= v[i].cnt as int then v[i].cnt as int - n else 0
    {
      TicksCountDown(v[i].cnt, n);
    }
  }

  // ---------------------------------------------------------------------------
  // Tasks: fire, reload, unlink

  /** A timer whose counter has reached zero is due; the pass fires it. */
  predicate Due(t: TimerState)
  {
    t.cnt == 0
  }

  /** A due one-shot timer is the one the pass tries to unlink. */
  predicate DueOneShot(t: TimerState)
  {
    Due(t) && t.mode == OneShot
  }

  /** A due timer is reloaded from its reload count; any other timer is left alone. */
  function Reload(t: TimerState): TimerState
  {
    if Due(t) then t.(cnt := t.need) else t
  }

  /** The states after one STIMER_Tasks pass, for every timer linked when it began. */
  function Reloaded(v: seq<TimerState>): seq<TimerState>
  {
    seq(|v|, i requires 0 <= i < |v| => Reload(v[i]))
  }

  /**
   * The timers fired by one pass over the list s whose states are v: the due
   * ones, in list order. Written over the last element so that it grows the
   * way the pass does.
   */
  function Fired<T>(s: seq<T>, v: seq<TimerState>): (r: seq<T>)
    requires |s| == |v|
    ensures |r| <= |s|
  {
    if s == [] then []
    else Fired(s[..|s| - 1], v[..|v| - 1]) + (if Due(v[|v| - 1]) then [s[|s| - 1]] else [])
  }

  /** Only handles of the list are fired. */
  lemma {:induction false} FiredWithin<T>(s: seq<T>, v: seq<TimerState>)
    requires |s| == |v|
    ensures forall x :: x in Fired(s, v) ==> x in s
  {
    if s != [] {
      var n := |s| - 1;
      FiredWithin(s[..n], v[..n]);
      assert forall x :: x in s[..n] ==> x in s;
    }
  }

  /**
   * How many handles STIMER_Tasks as written unlinks: the length of the longest
   * prefix of the list made only of due one-shot timers. Only the list head can
   * be unlinked, so the unlinking stops at the first handle that is not a due
   * one-shot.
   */
  function Unlinked(v: seq<TimerState>): (k: nat)
    ensures k <= |v|
  {
    if v == [] then 0
    else
      var k := Unlinked(v[..|v| - 1]);
      if k == |v| - 1 && DueOneShot(v[|v| - 1]) then |v| else k
  }

  /** Unlinked is the length of the longest prefix made only of due one-shot timers. */
  lemma {:induction false} UnlinkedIsLeadingRun(v: seq<TimerState>)
    ensures forall j :: 0 <= j < Unlinked(v) ==> DueOneShot(v[j])
    ensures Unlinked(v) < |v| ==> !DueOneShot(v[Unlinked(v)])
  {
    if v != [] {
      var v' := v[..|v| - 1];
      UnlinkedIsLeadingRun(v');
      forall j | 0 <= j < Unlinked(v') ensures DueOneShot(v[j]) {
        assert v'[j] == v[j];
      }
      if Unlinked(v') < |v'| {
        assert v'[Unlinked(v')] == v[Unlinked(v')];
      }
    }
  }

  /** Unlinked over one more element: the run grows only while it is unbroken. */
  lemma UnlinkedStep(v: seq<TimerState>, i: nat)
    requires i < |v|
    ensures Unlinked(v[..i + 1]) ==
            if Unlinked(v[..i]) == i && DueOneShot(v[i]) then i + 1 else Unlinked(v[..i])
  {
    assert v[..i + 1][..i] == v[..i];
  }

  /** Concatenation of sequences is associative. */
  lemma AppendAssoc<T>(a: seq<T>, b: seq<T>, c: seq<T>)
    ensures (a + b) + c == a + (b + c)
  {
  }

  /** Fired over one more element. */
  lemma FiredStep<T>(s: seq<T>, v: seq<TimerState>, i: nat)
    requires |s| == |v| && i < |s|
    ensures Fired(s[..i + 1], v[..i + 1]) ==
            Fired(s[..i], v[..i]) + if Due(v[i]) then [s[i]] else []
  {
    assert s[..i + 1][..i] == s[..i] && v[..i + 1][..i] == v[..i];
  }

  /**
   * The handles that stay linked after a pass that unlinks every due one-shot
   * timer wherever it sits, in list order.
   */
  function Kept<T>(s: seq<T>, v: seq<TimerState>): (r: seq<T>)
    requires |s| == |v|
    ensures |r| <= |s|
  {
    if s == [] then []
    else Kept(s[..|s| - 1], v[..|v| - 1]) + (if DueOneShot(v[|v| - 1]) then [] else [s[|s| - 1]])
  }

  /** Kept over one more element. */
  lemma KeptStep<T>(s: seq<T>, v: seq<TimerState>, i: nat)
    requires |s| == |v| && i < |s|
    ensures Kept(s[..i + 1], v[..i + 1]) ==
            Kept(s[..i], v[..i]) + if DueOneShot(v[i]) then [] else [s[i]]
  {
    assert s[..i + 1][..i] == s[..i] && v[..i + 1][..i] == v[..i];
  }

  /** Only handles of the list are kept. */
  lemma {:induction false} KeptWithin<T>(s: seq<T>, v: seq<TimerState>)
    requires |s| == |v|
    ensures forall x :: x in Kept(s, v) ==> x in s
  {
    if s != [] {
      var n := |s| - 1;
      KeptWithin(s[..n], v[..n]);
      assert forall x :: x in s[..n] ==> x in s;
    }
  }

  /**
   * An element that occurs nowhere else in s is not kept from the part of s
   * before it, and what is kept from that part comes from s.
   */
  lemma KeptAvoids<T>(s: seq<T>, v: seq<TimerState>, i: nat)
    requires |s| == |v| && i < |s|
    requires forall j :: 0 <= j < |s| && j != i ==> s[j] != s[i]
    ensures s[i] !in Kept(s[..i], v[..i])
    ensures forall x :: x in Kept(s[..i], v[..i]) ==> x in s
  {
    KeptWithin(s[..i], v[..i]);
    assert forall x :: x in s[..i] ==> x in s;
  }

  /** The part of s from position i starts with s[i]. */
  lemma RestHead<T>(s: seq<T>, i: nat, r: seq<T>)
    requires i < |s| && s == s[..i] + r
    ensures r == [s[i]] + r[1..]
  {
    assert r[0] == s[i];
  }

  /** Moving the first element of the part of s from position i into the prefix. */
  lemma PrefixStep<T>(s: seq<T>, i: nat, rest: seq<T>)
    requires i < |s| && s == s[..i] + ([s[i]] + rest)
    ensures s == s[..i + 1] + rest
    ensures i + 1 < |s| ==> rest[0] == s[i + 1]
    ensures forall x :: x in rest ==> x in s
  {
    assert s[..i + 1] == s[..i] + [s[i]];
    AppendAssoc(s[..i], [s[i]], rest);
  }

  /** A pass invokes the callback of every due handle exactly once and of no other handle. */
  lemma {:induction false} FiredExactlyOnce<T>(s: seq<T>, v: seq<TimerState>, i: nat)
    requires |s| == |v| && Distinct(s) && i < |s|
    ensures multiset(Fired(s, v))[s[i]] == if Due(v[i]) then 1 else 0
  {
    var n := |s| - 1;
    var s', v' := s[..n], v[..n];
    var last := if Due(v[n]) then [s[n]] else [];
    assert s == s' + [s[n]];
    assert Fired(s, v) == Fired(s', v') + last;
    assert multiset(Fired(s, v))[s[i]] == multiset(Fired(s', v'))[s[i]] + multiset(last)[s[i]];
    if i < n {
      assert Distinct(s') by {
        forall a, b | 0 <= a < b < n ensures s'[a] != s'[b] {
          assert s'[a] == s[a] && s'[b] == s[b];
        }
      }
      assert s'[i] == s[i] && v'[i] == v[i];
      FiredExactlyOnce(s', v', i);
      assert s[n] != s[i];
    } else {
      forall j | 0 <= j < n ensures s'[j] != s[n] {
        assert s'[j] == s[j];
      }
      FiredWithin(s', v');
      assert s[n] !in Fired(s', v');
    }
  }

  /**
   * After a pass, a counter is still zero only for a timer that was not due
   * and had reached zero already (impossible) or for a due timer whose reload
   * count is zero: such a timer fires on every pass.
   */
  lemma ReloadedZero(v: seq<TimerState>, i: nat)
    requires i < |v|
    ensures |Reloaded(v)| == |v|
    ensures Due(Reloaded(v)[i]) <==> Due(v[i]) && v[i].need == 0
  {
  }

  /** Dropping the last element of a sequence that ends in a due one-shot timer. */
  lemma UnlinkedLess(v: seq<TimerState>)
    requires v != [] && Unlinked(v) < |v|
    ensures Unlinked(v) == Unlinked(v[..|v| - 1])
  {
  }

  /**
   * A handle stays linked after a pass of STIMER_Tasks as written exactly when
   * it lies past the leading run of due one-shot timers.
   */
  lemma UnlinkedMembers<T>(s: seq<T>, v: seq<TimerState>, j: nat)
    requires |s| == |v| && Distinct(s) && j < |s|
    ensures s[j] in s[Unlinked(v)..] <==> j >= Unlinked(v)
  {
    var k := Unlinked(v);
    if s[j] in s[k..] {
      var m :| 0 <= m < |s[k..]| && s[k..][m] == s[j];
      assert s[k + m] == s[j];
    }
  }

  /**
   * With the intended unlinking, a handle stays linked after a pass exactly
   * when it is not a due one-shot timer.
   */
  lemma {:induction false} KeptMembers<T>(s: seq<T>, v: seq<TimerState>, j: nat)
    requires |s| == |v| && Distinct(s) && j < |s|
    ensures s[j] in Kept(s, v) <==> !DueOneShot(v[j])
  {
    var n := |s| - 1;
    var s', v' := s[..n], v[..n];
    if j < n {
      assert s'[j] == s[j] && v'[j] == v[j];
      KeptMembers(s', v', j);
      assert s[n] != s[j];
    } else {
      assert s[n] !in s';
      KeptWithin(s', v');
    }
  }

  /** Every element of the leading run of due one-shot timers is left out of Kept. */
  lemma {:induction false} KeptOfUnlinkedPrefix<T>(s: seq<T>, v: seq<TimerState>)
    requires |s| == |v| && Unlinked(v) == |v|
    ensures Kept(s, v) == []
  {
    if s != [] {
      var n := |s| - 1;
      assert DueOneShot(v[n]);
      var v' := v[..n];
      UnlinkedIsLeadingRun(v);
      assert Unlinked(v') == n by {
        forall j | 0 <= j < n ensures DueOneShot(v'[j]) {
          assert v'[j] == v[j];
        }
        UnlinkedAllDue(v');
      }
      KeptOfUnlinkedPrefix(s[..n], v');
    }
  }

  /** Unlinked counts the whole sequence when every timer in it is a due one-shot. */
  lemma {:induction false} UnlinkedAllDue(v: seq<TimerState>)
    requires forall j :: 0 <= j < |v| ==> DueOneShot(v[j])
    ensures Unlinked(v) == |v|
  {
    if v != [] {
      var v' := v[..|v| - 1];
      forall j | 0 <= j < |v'| ensures DueOneShot(v'[j]) {
        assert v'[j] == v[j];
      }
      UnlinkedAllDue(v');
    }
  }

  /** When no due one-shot lies past the leading run, Kept is what the pass as written leaves. */
  lemma {:induction false} KeptIsSuffix<T>(s: seq<T>, v: seq<TimerState>)
    requires |s| == |v|
    requires forall j :: Unlinked(v) <= j < |v| ==> !DueOneShot(v[j])
    ensures Kept(s, v) == s[Unlinked(v)..]
  {
    if Unlinked(v) == |v| {
      KeptOfUnlinkedPrefix(s, v);
    } else {
      var n := |s| - 1;
      var s', v' := s[..n], v[..n];
      UnlinkedLess(v);
      forall j | Unlinked(v') <= j < |v'| ensures !DueOneShot(v'[j]) {
        assert v'[j] == v[j];
      }
      KeptIsSuffix(s', v');
      assert s[Unlinked(v)..] == s'[Unlinked(v)..] + [s[n]];
    }
  }

  /**
   * The pass as written leaves linked exactly the handles the intended pass
   * leaves linked if and only if no due one-shot timer sits behind a handle
   * that stays: otherwise that one-shot timer stays linked and fires again.
   */
  lemma TasksAsWrittenMatchesIntended<T>(s: seq<T>, v: seq<TimerState>)
    requires |s| == |v| && Distinct(s)
    ensures s[Unlinked(v)..] == Kept(s, v) <==>
            forall j :: Unlinked(v) <= j < |v| ==> !DueOneShot(v[j])
  {
    if forall j :: Unlinked(v) <= j < |v| ==> !DueOneShot(v[j]) {
      KeptIsSuffix(s, v);
    } else {
      var j :| Unlinked(v) <= j < |v| && DueOneShot(v[j]);
      UnlinkedMembers(s, v, j);
      KeptMembers(s, v, j);
    }
  }

  // ---------------------------------------------------------------------------
  // Remove

  /**
   * STIMER_Remove as written: the search loop only ever stops at the tail, so
   * the result is "found" only for the head of the list.
   */
  function RemoveAsWritten<T(==)>(s: seq<T>, x: T): (bool, seq<T>)
  {
    if s != [] && s[0] == x then (true, s[1..]) else (false, s)
  }

  /** The list with the first occurrence of x unlinked. */
  function Without<T(==)>(s: seq<T>, x: T): (r: seq<T>)
    ensures x !in s ==> r == s
    ensures x in s ==> |r| == |s| - 1
  {
    if s == [] then []
    else if s[0] == x then s[1..]
    else assert x in s ==> x in s[1..]; [s[0]] + Without(s[1..], x)
  }

  /** What the doc comment of STIMER_Remove promises: x is unlinked wherever it is. */
  function RemoveIntended<T(==)>(s: seq<T>, x: T): (bool, seq<T>)
  {
    (x in s, Without(s, x))
  }

  /** In a list without repeats, unlinking the element at position i leaves the rest in order. */
  lemma {:induction false} WithoutAt<T>(s: seq<T>, i: nat)
    requires Distinct(s) && i < |s|
    ensures Without(s, s[i]) == s[..i] + s[i + 1..]
  {
    if i > 0 {
      assert s[0] != s[i];
      var t := s[1..];
      assert Distinct(t) by {
        forall a, b | 0 <= a < b < |t| ensures t[a] != t[b] {
          assert t[a] == s[a + 1] && t[b] == s[b + 1];
        }
      }
      WithoutAt(t, i - 1);
      assert t[i - 1] == s[i];
      assert s[..i] + s[i + 1..] == [s[0]] + (t[..i - 1] + t[i..]);
    }
  }

  /** Unlinking x from a + [x] + b, when x is not in a, leaves a + b. */
  lemma {:induction false} WithoutSplit<T>(a: seq<T>, x: T, b: seq<T>)
    requires x !in a
    ensures Without(a + [x] + b, x) == a + b
  {
    var s := a + [x] + b;
    if a == [] {
      assert s[0] == x && s[1..] == b;
    } else {
      assert s[0] == a[0] != x;
      assert s[1..] == a[1..] + [x] + b;
      assert x !in a[1..] by {
        forall y | y in a[1..] ensures y in a { }
      }
      WithoutSplit(a[1..], x, b);
      assert Without(s, x) == [a[0]] + Without(s[1..], x);
      assert a == [a[0]] + a[1..];
      AppendAssoc([a[0]], a[1..], b);
    }
  }

  /**
   * Remove as written agrees with its doc comment if and only if the handle
   * is absent or is the head of the list.
   */
  lemma RemoveAsWrittenMatchesIntended<T>(s: seq<T>, x: T)
    ensures RemoveAsWritten(s, x) == RemoveIntended(s, x) <==> x !in s || s[0] == x
  {
  }

  /** A concrete list on which Remove as written misses a linked handle. */
  lemma RemoveMissesSecond()
    ensures RemoveAsWritten([1, 2], 2) == (false, [1, 2])
    ensures RemoveIntended([1, 2], 2) == (true, [1])
  {
    var s: seq<int> := [1, 2];
    assert s[1..] == [2];
    assert Without(s[1..], 2) == [];
    assert Without(s, 2) == [1];
  }

  /** Create prepends; Remove as written then unlinks the new head again. */
  lemma CreateThenRemove<T>(s: seq<T>, x: T)
    ensures RemoveAsWritten([x] + s, x) == (true, s)
  {
  }
}
