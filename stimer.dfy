/**
 * The software-timer registry of src/stimer.c: caller-owned timer handles
 * chained into an intrusive singly-linked list whose head the registry holds.
 * Each operation runs to completion before the next one starts; a callback is
 * recorded in the ghost log `fired` instead of being run.
 */
module STimer {
  import opened TimerSpec

  /** STIMER_HANDLE: the storage of one software timer, owned by its caller. */
  class Handle {
    var mode: Mode
    /** tmr_cnt: hardware ticks left before the timer is due. */
    var cnt: u32
    /** tmr_need: the reload count. */
    var need: u32
    /** Which callback function the timer calls; the functions themselves are opaque. */
    var callback: nat
    var next: Handle?

    /** Zero-initialised storage, as a static STIMER_HANDLE starts out. */
    constructor ()
      ensures mode == OneShot && cnt == 0 && need == 0 && callback == 0 && next == null
    {
      mode, cnt, need, callback, next := OneShot, 0, 0, 0, null;
    }
  }

  /** The counter fields of a handle, as a value. */
  ghost function StateOf(h: Handle): TimerState
    reads h`mode, h`cnt, h`need
  {
    TimerState(h.mode, h.cnt, h.need)
  }

  /** The counter fields of every handle of s, in order. */
  ghost function States(s: seq<Handle>): (v: seq<TimerState>)
    reads s`mode, s`cnt, s`need
    ensures |v| == |s| && forall i :: 0 <= i < |s| ==> v[i] == StateOf(s[i])
  {
    if s == [] then [] else [StateOf(s[0])] + States(s[1..])
  }

  /** The handle that must follow position i of s: the next one, or nothing after the last. */
  function Succ(s: seq<Handle>, i: int): Handle?
  {
    if 0 <= i && i + 1 < |s| then s[i + 1] else null
  }

  /** Each handle of s links to the one after it, and the last one to nothing. */
  ghost predicate Linked(s: seq<Handle>)
    reads s`next
  {
    forall i {:trigger Succ(s, i)} :: 0 <= i < |s| ==> s[i].next == Succ(s, i)
  }

  /** The successor of the i-th handle of a linked sequence. */
  lemma LinkedAt(s: seq<Handle>, i: nat)
    requires Linked(s) && i < |s|
    ensures s[i].next == if i + 1 < |s| then s[i + 1] else null
  {
    assert s[i].next == Succ(s, i);
  }

  /** A suffix of a linked sequence is linked. */
  lemma LinkedSuffix(s: seq<Handle>, k: nat)
    requires Linked(s) && k <= |s|
    ensures Linked(s[k..])
  {
    var t := s[k..];
    forall j | 0 <= j < |t| ensures t[j].next == Succ(t, j) {
      LinkedAt(s, k + j);
      assert t[j] == s[k + j];
      if j + 1 < |t| {
        assert t[j + 1] == s[k + j + 1];
      }
    }
  }

  /**
   * Unlinking s[i + 1]: when every handle of s but s[i] still links to its
   * successor and s[i] links past s[i + 1], the rest of s is linked.
   */
  lemma LinkedSkip(s: seq<Handle>, i: nat)
    requires i + 1 < |s|
    requires forall j :: 0 <= j < |s| && j != i ==> s[j].next == Succ(s, j)
    requires s[i].next == Succ(s, i + 1)
    ensures Linked(s[..i + 1] + s[i + 2..])
  {
    var t := s[..i + 1] + s[i + 2..];
    forall j | 0 <= j < |t| ensures t[j].next == Succ(t, j) {
      if j < i {
        assert t[j] == s[j] && t[j + 1] == s[j + 1] && s[j].next == Succ(s, j);
      } else if j == i {
        assert t[j] == s[i];
        if j + 1 < |t| {
          assert t[j + 1] == s[i + 2];
        }
      } else {
        assert t[j] == s[j + 1] && s[j + 1].next == Succ(s, j + 1);
        if j + 1 < |t| {
          assert t[j + 1] == s[j + 2];
        }
      }
    }
  }

  /** A handle that points at the head of a linked sequence extends it. */
  lemma LinkedCons(h: Handle, s: seq<Handle>)
    requires Linked(s) && h.next == (if s == [] then null else s[0])
    ensures Linked([h] + s)
  {
    var t := [h] + s;
    forall j | 0 <= j < |t| ensures t[j].next == Succ(t, j) {
      if j > 0 {
        LinkedAt(s, j - 1);
        assert t[j] == s[j - 1];
      }
    }
  }

  /**
   * A linked sequence has no repeated handle: a repeat would have to be
   * followed both by a handle and by nothing at the tail.
   */
  lemma {:induction false} LinkedDistinct(s: seq<Handle>)
    requires Linked(s)
    ensures Distinct(s)
  {
    if s != [] {
      var t := s[1..];
      LinkedSuffix(s, 1);
      LinkedDistinct(t);
      forall i, j | 0 <= i < j < |s| ensures s[i] != s[j] {
        if i > 0 {
          assert s[i] == t[i - 1] && s[j] == t[j - 1];
        } else {
          LinkedAt(s, 0);
          LinkedAt(s, j);
          if j + 1 < |s| {
            assert t[0] != t[j];
          }
        }
      }
    }
  }

  /** A handle of a linked sequence differs from every other handle of it. */
  lemma LinkedUnique(s: seq<Handle>, i: nat)
    requires Linked(s) && i < |s|
    ensures forall j :: 0 <= j < |s| && j != i ==> s[j] != s[i]
  {
    LinkedDistinct(s);
  }

  /**
   * The handles of a chain can be numbered by their position in it; a fact
   * about one index at a time, cheaper to keep in view than Distinct.
   */
  lemma LinkedPositions(s: seq<Handle>) returns (pos: map<Handle, nat>)
    requires Linked(s)
    ensures forall j :: 0 <= j < |s| ==> s[j] in pos && pos[s[j]] == j
  {
    LinkedDistinct(s);
    pos := map j | 0 <= j < |s| :: s[j] := j;
    forall j | 0 <= j < |s| ensures s[j] in pos && pos[s[j]] == j {
      DistinctAt(s, j);
    }
  }

  /**
   * Every element of s occurs in L, stated by position: the form in which a
   * frame over the handles of a sequence is checked.
   */
  lemma IndexWitness(s: seq<Handle>, L: seq<Handle>)
    requires forall x :: x in s ==> x in L
    ensures forall t :: 0 <= t < |s| ==> s[t] in L && exists j :: 0 <= j < |L| && L[j] == s[t]
  {
    forall t | 0 <= t < |s| ensures s[t] in L && exists j :: 0 <= j < |L| && L[j] == s[t] {
      assert s[t] in L;
      var j :| 0 <= j < |L| && L[j] == s[t];
    }
  }

  /** STIMER_DATA: the registry, the static `timerData` of the module. */
  class Registry {
    /** The hardware timer period, in microseconds. */
    var callbackTime: u32
    /** The head of the list of active handles. */
    var timerList: Handle?
    /** The handles reachable from timerList, in list order. */
    ghost var list: seq<Handle>
    /** Every callback invocation so far, oldest first. */
    ghost var fired: seq<Handle>

    /** The list follows the next pointers from timerList to the tail. */
    ghost predicate Valid()
      reads this`list, this`timerList, list`next
    {
      Linked(list) &&
      timerList == if list == [] then null else list[0]
    }

    /** The counter fields of the linked handles, in list order. */
    ghost function View(): seq<TimerState>
      reads this`list, list`mode, list`cnt, list`need
    {
      States(list)
    }

    /** The zero-initialised static registry, before STIMER_Initialize. */
    constructor ()
      ensures Valid() && callbackTime == 0 && list == [] && fired == []
    {
      callbackTime, timerList := 0, null;
      list, fired := [], [];
    }

    /** STIMER_Initialize: record the hardware period and empty the list, touching no handle. */
    method Initialize(callbackTime: u32)
      modifies this
      ensures Valid() && this.callbackTime == callbackTime && list == [] && fired == old(fired)
    {
      this.callbackTime := callbackTime;
      timerList := null;
      list := [];
    }

    /**
     * STIMER_Create: configure h and link it at the head of the list.
     * The division by callbackTime / 1000 needs a period of at least 1000
     * microseconds, and h must not be linked already.
     */
    method Create(h: Handle, mode: Mode, delayMs: u32, callback: nat) returns (ok: bool)
      requires Valid() && callbackTime >= 1000 && h !in list
      modifies this, h
      ensures callbackTime == old(callbackTime) && fired == old(fired)
      ensures Valid() && ok
      ensures list == [h] + old(list)
      ensures h.mode == mode && h.callback == callback
      ensures h.need == TicksFor(callbackTime, delayMs) && h.cnt == h.need
      ensures forall g :: g in old(list) ==> unchanged(g)
    {
      h.callback := callback;
      h.mode := mode;
      h.need := TicksFor(callbackTime, delayMs);
      h.cnt := h.need;
      h.next := null;
      var timer := timerList;
      if timer == null {
        timerList := h;
      } else {
        h.next := timerList;
        timerList := h;
      }
      LinkedCons(h, list);
      list := [h] + list;
      ok := true;

    }

    /**
     * STIMER_Remove as written. The search loop runs while the cursor's
     * successor is h or is not null, which for a handle h is the same as
     * "is not null": it always stops at the tail, so only the head can be
     * unlinked. The removed handle keeps its own `next`.
     */
    method Remove(h: Handle) returns (found: bool)
      requires Valid()
      modifies this`list, this`timerList
      ensures Valid() && (found, list) == RemoveAsWritten(old(list), h)
      ensures callbackTime == old(callbackTime) && fired == old(fired)
    {
      var timer := timerList;
      if timer == null {
        found := false;
      } else if timer == h {
        LinkedSuffix(list, 1);
        LinkedAt(list, 0);
        timerList := h.next;
        list := list[1..];
        found := true;
      } else {
        ghost var i := 0;
        while timer.next == h || timer.next != null
          invariant 0 <= i < |list| && timer == list[i]
          invariant Valid() && unchanged(this)
          decreases |list| - i
        {
          LinkedAt(list, i);
          timer := timer.next;
          i := i + 1;
        }
        LinkedAt(list, i);
        if timer.next != null {
          // Unreachable: the loop stops only at the tail, so the unlink of the
          // successor that would precede this result is never performed.
          assert false;
          found := true;
        } else {
          found := false;
        }
      }
    }

    /**
     * STIMER_Remove with the search loop it evidently means: walk while the
     * cursor's successor is neither h nor the end of the list, then unlink
     * that successor if it is h. Only the predecessor's `next` changes; h
     * keeps its own.
     */
    method RemoveFixed(h: Handle) returns (found: bool)
      requires Valid()
      modifies this`list, this`timerList, list`next
      ensures Valid() && (found, list) == RemoveIntended(old(list), h)
      ensures h.next == old(h.next)
      ensures callbackTime == old(callbackTime) && fired == old(fired)
    {
      var timer := timerList;
      if timer == null {
        found := false;
      } else if timer == h {
        LinkedSuffix(list, 1);
        LinkedAt(list, 0);
        timerList := h.next;
        list := list[1..];
        found := true;
      } else {
        ghost var i := 0;
        while timer.next != h && timer.next != null
          invariant 0 <= i < |list| && timer == list[i]
          invariant forall j :: 0 <= j <= i ==> list[j] != h
          invariant Valid() && unchanged(this)
          decreases |list| - i
        {
          LinkedAt(list, i);
          timer := timer.next;
          i := i + 1;
        }
        LinkedAt(list, i);
        if timer.next != null {
          ghost var s := list;
          LinkedDistinct(s);
          LinkedUnique(s, i);
          LinkedAt(s, i + 1);
          WithoutAt(s, i + 1);
          timer.next := h.next;
          list := s[..i + 1] + s[i + 2..];
          LinkedSkip(s, i);
          found := true;
        } else {
          assert h !in list;
          found := false;
        }
      }
    }

    /**
     * STIMER_InterruptHandler: one hardware tick on every linked handle. Only
     * the counters change: the list, its links and every other field stay.
     */
    method InterruptHandler()
      requires Valid()
      modifies list`cnt
      ensures Valid()
      ensures States(list) == TickAll(old(View()))
    {
      var timer := timerList;
      ghost var i := 0;
      while timer != null
        invariant 0 <= i <= |list|
        invariant timer == if i < |list| then list[i] else null
        invariant forall j :: 0 <= j < |list| ==>
          list[j].cnt == if j < i then Tick(old(list[j].cnt)) else old(list[j].cnt)
        decreases |list| - i
      {
        LinkedAt(list, i);
        LinkedUnique(list, i);
        if timer.cnt != 0 {
          timer.cnt := timer.cnt - 1;
        }
        timer := timer.next;
        i := i + 1;
      }
    }

    /**
     * What a pass of STIMER_Tasks over the handles L, whose counter fields were
     * V, has done once the first i handles have been visited: the fired log
     * has grown from F by the due ones, and exactly the visited due handles
     * are reloaded.
     */
    ghost predicate Swept(L: seq<Handle>, V: seq<TimerState>, F: seq<Handle>, i: nat)
      reads this`fired, L`mode, L`cnt, L`need
    {
      |V| == |L| && i <= |L| &&
      fired == F + Fired(L[..i], V[..i]) &&
      forall j :: 0 <= j < |L| ==> StateOf(L[j]) == if j < i then Reload(V[j]) else V[j]
    }

    /** Once every handle has been visited, the pass has done its whole work. */
    lemma SweptAll(L: seq<Handle>, V: seq<TimerState>, F: seq<Handle>)
      requires Swept(L, V, F, |L|)
      ensures States(L) == Reloaded(V)
      ensures fired == F + Fired(L, V)
    {
      assert L[..|L|] == L && V[..|L|] == V;
    }

    /**
     * The due test of one turn of STIMER_Tasks: a timer whose count has run
     * out has its callback run and its count reloaded; no link changes.
     */
    method Serve(timer: Handle, ghost L: seq<Handle>, ghost V: seq<TimerState>,
                 ghost F: seq<Handle>, ghost i: nat) returns (due: bool)
      requires Swept(L, V, F, i) && i < |L| && timer == L[i]
      requires forall j :: 0 <= j < |L| && j != i ==> L[j] != L[i]
      modifies this`fired, timer`cnt
      ensures Swept(L, V, F, i + 1)
      ensures due == Due(V[i])
    {
      FiredStep(L, V, i);
      due := timer.cnt == 0;
      if due {
        fired := fired + [timer];
        timer.cnt := timer.need;
      }
      AppendAssoc(F, Fired(L[..i], V[..i]), if Due(V[i]) then [L[i]] else []);
    }

    /**
     * A pass of STIMER_Tasks as written after i handles: the handles are still
     * chained as before, and the first k of them are unlinked.
     */
    ghost predicate Visited(L: seq<Handle>, V: seq<TimerState>, F: seq<Handle>, i: nat, k: nat)
      reads this, L, list
    {
      Swept(L, V, F, i) && k <= i &&
      Linked(L) && Valid() && list == L[k..] && k == Unlinked(V[..i])
    }

    /**
     * One turn of the loop of STIMER_Tasks, on the i-th handle of the pass:
     * a due handle has its callback invoked and is reloaded, and a due
     * one-shot handle is then passed to Remove.
     */
    method Visit(timer: Handle, ghost L: seq<Handle>, ghost V: seq<TimerState>,
                 ghost F: seq<Handle>, ghost i: nat, ghost k: nat) returns (removed: bool)
      requires Visited(L, V, F, i, k) && i < |L| && timer == L[i]
      modifies this, timer`cnt
      ensures Visited(L, V, F, i + 1, if removed then k + 1 else k)
      ensures callbackTime == old(callbackTime)
    {
      UnlinkedStep(V, i);
      LinkedUnique(L, i);
      removed := false;
      var due := Serve(timer, L, V, F, i);
      if due && timer.mode == OneShot {
        removed := Remove(timer);
        if removed {
          assert L[k..][1..] == L[k + 1..];
        }
      }
    }

    /** Once the pass as written has visited every handle, it has done its whole work. */
    lemma PassDone(L: seq<Handle>, V: seq<TimerState>, F: seq<Handle>, i: nat, k: nat)
      requires Visited(L, V, F, i, k) && i >= |L|
      ensures Valid() && Linked(L) && list == L[Unlinked(V)..]
      ensures States(L) == Reloaded(V) && fired == F + Fired(L, V)
    {
      assert L[..i] == L && V[..i] == V;
      SweptAll(L, V, F);
    }

    /**
     * STIMER_Tasks: visit every linked handle in list order; a due handle has
     * its callback invoked and is reloaded, and a due one-shot handle is then
     * passed to Remove, which unlinks it only if it is the head by now. The
     * cursor follows the visited handle's `next`, which Remove leaves alone.
     */
    method Tasks()
      requires Valid()
      modifies this, list`cnt
      ensures Valid()
      ensures list == old(list)[Unlinked(old(View()))..]
      ensures States(old(list)) == Reloaded(old(View()))
      ensures fired == old(fired) + Fired(old(list), old(View()))
      ensures Linked(old(list))
      ensures callbackTime == old(callbackTime)
    {
      ghost var L, V, F := list, View(), fired;
      var timer := timerList;
      ghost var i, k := 0, 0;
      assert L[..0] == [] && V[..0] == [];
      while timer != null
        invariant Visited(L, V, F, i, k)
        invariant timer == if i < |L| then L[i] else null
        invariant callbackTime == old(callbackTime)
        decreases |L| - i
      {
        var removed := Visit(timer, L, V, F, i, k);
        if removed {
          k := k + 1;
        }
        LinkedAt(L, i);
        timer := timer.next;
        i := i + 1;
      }
      PassDone(L, V, F, i, k);
    }

    /**
     * A pass of STIMER_Tasks with the corrected Remove after i handles: the
     * list holds the visited handles K that stay linked, followed by the
     * handles R not visited yet.
     */
    ghost predicate VisitedFixed(L: seq<Handle>, V: seq<TimerState>, F: seq<Handle>, i: nat,
                                 K: seq<Handle>, R: seq<Handle>)
      reads this, L, list
    {
      Swept(L, V, F, i) && Valid() && list == K + R && L == L[..i] + R
    }

    /**
     * The tail of one turn of the corrected loop: when the visited handle is
     * to go, the corrected Remove unlinks it from where it sits between the
     * handles K kept so far and the handles not visited yet.
     */
    method Settle(timer: Handle, unlink: bool, ghost L: seq<Handle>, ghost K: seq<Handle>,
                  ghost rest: seq<Handle>)
      requires Valid() && list == K + [timer] + rest && timer !in K
      requires forall x :: x in list ==> x in L
      modifies this`list, this`timerList, L`next
      ensures Valid() && list == K + (if unlink then [] else [timer]) + rest
      ensures timer.next == old(timer.next)
    {
      if unlink {
        WithoutSplit(K, timer, rest);
        IndexWitness(list, L);
        var _ := RemoveFixed(timer);
      }
    }

    /** One turn of the loop of STIMER_Tasks, with the corrected Remove. */
    method VisitFixed(timer: Handle, ghost L: seq<Handle>, ghost V: seq<TimerState>,
                      ghost F: seq<Handle>, ghost i: nat, ghost K: seq<Handle>,
                      ghost rest: seq<Handle>)
      requires i < |L| && VisitedFixed(L, V, F, i, K, [L[i]] + rest) && timer == L[i]
      requires K == Kept(L[..i], V[..i])
      requires forall j :: 0 <= j < |L| && j != i ==> L[j] != L[i]
      modifies this, timer`cnt, L`next
      ensures VisitedFixed(L, V, F, i + 1, K + if DueOneShot(V[i]) then [] else [L[i]], rest)
      ensures timer.next == if i + 1 < |L| then L[i + 1] else null
      ensures callbackTime == old(callbackTime)
    {
      PrefixStep(L, i, rest);
      KeptAvoids(L, V, i);
      AppendAssoc(K, [L[i]], rest);
      LinkedAt(list, |K|);
      if i + 1 < |L| {
        assert list[|K| + 1] == rest[0];
      }
      var due := Serve(timer, L, V, F, i);
      assert StateOf(L[i]) == Reload(V[i]);
      ghost var kept := K + if DueOneShot(V[i]) then [] else [L[i]];
      Settle(timer, due && timer.mode == OneShot, L, K, rest);
      assert list == kept + rest;
    }

    /** Once the corrected pass has visited every handle, it has done its whole work. */
    lemma FixedPassDone(L: seq<Handle>, V: seq<TimerState>, F: seq<Handle>, i: nat,
                        K: seq<Handle>, R: seq<Handle>)
      requires VisitedFixed(L, V, F, i, K, R) && K == Kept(L[..i], V[..i]) && i >= |L|
      ensures Valid() && list == Kept(L, V)
      ensures States(L) == Reloaded(V) && fired == F + Fired(L, V)
    {
      assert L[..i] == L && V[..i] == V && R == [];
      SweptAll(L, V, F);
    }

    /**
     * STIMER_Tasks with the corrected Remove: every due one-shot handle is
     * unlinked wherever it sits, and everything else is as in Tasks.
     */
    method TasksFixed()
      requires Valid()
      modifies this, list`cnt, list`next
      ensures Valid()
      ensures list == Kept(old(list), old(View()))
      ensures States(old(list)) == Reloaded(old(View()))
      ensures fired == old(fired) + Fired(old(list), old(View()))
      ensures callbackTime == old(callbackTime)
    {
      ghost var L, V, F := list, View(), fired;
      // Numbering the handles by position tells each call to VisitFixed that
      // its handle occurs in L only once.
      ghost var pos := LinkedPositions(L);
      var timer := timerList;
      ghost var i, K, R := 0, [], L;
      assert L[..0] == [] && V[..0] == [];
      while timer != null
        invariant VisitedFixed(L, V, F, i, K, R)
        invariant K == Kept(L[..i], V[..i])
        invariant timer == if i < |L| then L[i] else null
        invariant callbackTime == old(callbackTime)
        decreases |L| - i
      {
        RestHead(L, i, R);
        VisitFixed(timer, L, V, F, i, K, R[1..]);
        KeptStep(L, V, i);
        timer := timer.next;
        K, R := K + if DueOneShot(V[i]) then [] else [L[i]], R[1..];
        i := i + 1;
      }
      FixedPassDone(L, V, F, i, K, R);
    }
  }
}
