/**
  The descriptor-sanitisation part of `init_security` (src/main.c): close
  every inherited descriptor from 3 up to the soft RLIMIT_NOFILE, then make
  sure 0, 1 and 2 are open by opening the null device and duplicating it
  until a number above 2 comes back.

  The descriptor table is a finite map from descriptor number to what it
  refers to. `open` and `dup` return the lowest free number, as POSIX
  requires, and fail with EMFILE when that number is not below the soft
  limit; `close` of a number that is not open changes nothing.
*/
module Descriptors {
  import opened Common

  /** What an open descriptor refers to. */
  datatype OpenFile = NullDevice | Inherited(id: nat)

  /** The process's descriptor table. */
  type FdTable = map<nat, OpenFile>

  /** The lowest descriptor number at or above `n` that is not in use. */
  function LowestFreeFrom(t: FdTable, n: nat): (r: nat)
    ensures n <= r && r !in t
    ensures forall k :: n <= k < r ==> k in t
    decreases t.Keys - UpTo(n - 1)
  {
    if n in t then
      assert n in t.Keys - UpTo(n - 1);
      LowestFreeFrom(t, n + 1)
    else n
  }

  /** The number `open` or `dup` would return. */
  function LowestFree(t: FdTable): nat {
    LowestFreeFrom(t, 0)
  }

  /** Install `f` at the lowest free number, or fail with EMFILE. */
  function Allocate(t: FdTable, limit: nat, f: OpenFile): Option<(nat, FdTable)> {
    var fd := LowestFree(t);
    if fd < limit then Some((fd, t[fd := f])) else None
  }

  /** `open("/dev/null", O_RDWR)`; `available` is false when the device
      cannot be opened for a reason other than the descriptor limit. */
  function OpenNull(t: FdTable, limit: nat, available: bool): Option<(nat, FdTable)> {
    if available then Allocate(t, limit, NullDevice) else None
  }

  /** `dup(fd)`: a new descriptor for the same open file. */
  function Dup(t: FdTable, fd: nat, limit: nat): Option<(nat, FdTable)>
    requires fd in t
  {
    Allocate(t, limit, t[fd])
  }

  /** `close(fd)`; closing a number that is not open is a no-op (EBADF). */
  function Close(t: FdTable, fd: nat): FdTable {
    t - {fd}
  }

  // ---------------------------------------------------------------------
  // The outcome in closed form.
  // ---------------------------------------------------------------------

  /** The table once every number in 3..limit-1 has been closed. */
  function ClosedAbove2(t: FdTable, limit: nat): FdTable {
    map k | k in t && !(3 <= k < limit) :: t[k]
  }

  /** `c` with the null device at every free number of 0..`upto`. */
  function FillNull(c: FdTable, upto: int): FdTable {
    map k | k in c.Keys + UpTo(upto) :: if k in c then c[k] else NullDevice
  }

  /** The numbers 0..n. */
  function UpTo(n: int): (r: set<nat>)
    ensures forall k: nat :: k in r <==> k <= n
    decreases n
  {
    if n < 0 then {} else UpTo(n - 1) + {n}
  }

  /**
    What the sanitisation does, stated without the loops: a failed
    `getrlimit` leaves the table alone and returns -1; otherwise 3..lim-1
    are closed; then, if the null device opens, each free number of 0..2
    below the limit gets the null device. It returns 0 exactly when the
    final spare descriptor above 2 could also be allocated, that is, when
    the soft limit exceeds 3.
  */
  function SanitizeModel(t: FdTable, rlimit: Option<nat>, nullOk: bool): (int, FdTable) {
    if rlimit.None? then (-1, t)
    else
      var lim := rlimit.value;
      var c := ClosedAbove2(t, lim);
      if !nullOk then (-1, c)
      else (if lim > 3 then 0 else -1,
            FillNull(c, if lim > 3 then 2 else lim - 1))
  }

  /** The guarantees the rest of `init_security` relies on: success means the
      limit was read, the null device opened and the limit exceeds 3; then
      0, 1 and 2 are open, nothing in 3..lim-1 is, descriptors among 0..2
      that were already open are untouched, the others refer to the null
      device, and numbers at or above the limit are left as they were. */
  lemma SanitizeGuarantees(t: FdTable, rlimit: Option<nat>, nullOk: bool)
    ensures SanitizeModel(t, rlimit, nullOk).0 == 0 || SanitizeModel(t, rlimit, nullOk).0 == -1
    ensures SanitizeModel(t, rlimit, nullOk).0 == 0 <==>
              rlimit.Some? && nullOk && rlimit.value > 3
    ensures SanitizeModel(t, rlimit, nullOk).0 == 0 ==>
              var t' := SanitizeModel(t, rlimit, nullOk).1;
              && 0 in t' && 1 in t' && 2 in t'
              && (forall k :: 3 <= k < rlimit.value ==> k !in t')
              && (forall k :: 0 <= k < 3 && k in t ==> t'[k] == t[k])
              && (forall k :: 0 <= k < 3 && k !in t ==> t'[k] == NullDevice)
              && (forall k :: k >= rlimit.value ==> (k in t' <==> k in t))
              && (forall k :: k >= rlimit.value && k in t ==> t'[k] == t[k])
  {
  }

  // ---------------------------------------------------------------------
  // The loops as written.
  // ---------------------------------------------------------------------

  /**
    The sanitisation steps of `init_security`: `getrlimit`, the `close`
    loop, `open` of the null device, the `dup` loop and the final `close`.
    `rlimit` is the soft limit `getrlimit` reports (None when it fails) and
    `nullOk` whether the null device can be opened at all. Returns 0 or -1
    and the resulting descriptor table, which is the closed form above.
  */
  method SanitizeDescriptors(t: FdTable, rlimit: Option<nat>, nullOk: bool)
    returns (ret: int, t': FdTable)
    ensures (ret, t') == SanitizeModel(t, rlimit, nullOk)
    ensures ret == 0 ==> 0 in t' && 1 in t' && 2 in t'
    ensures ret == 0 ==> forall k :: 3 <= k < rlimit.value ==> k !in t'
    ensures rlimit.Some? ==> forall k :: 3 <= k < rlimit.value ==> k !in t'
  {
    if rlimit.None? {
      return -1, t;
    }
    var lim := rlimit.value;
    t' := t;
    var fd: nat := 3;
    while fd < lim
      invariant 3 <= fd && (fd == 3 || fd <= lim)
      invariant t' == ClosedAbove2(t, fd)
      decreases lim - fd
    {
      t' := Close(t', fd);
      fd := fd + 1;
    }
    ClosedAbove2Done(t, fd, lim);
    ghost var c := t';
    if lim > 3 {
      assert 3 !in c;
      LowestFreeAtMost(c, 3);
    }

    var nullFd := OpenNull(t', lim, nullOk);
    if nullFd.None? {
      if nullOk {
        FillNullNothingFree(c, lim);
      }
      return -1, t';
    }
    fd, t' := nullFd.value.0, nullFd.value.1;
    FillNullFirst(c, fd);
    while fd <= 2
      invariant fd in t' && fd < lim && fd <= 3 && t'[fd] == NullDevice
      invariant forall k :: 0 <= k <= fd ==> k in t'
      invariant t' == FillNull(c, fd)
      invariant lim > 3 ==> 3 !in c
      decreases 3 - fd
    {
      if lim > 3 {
        assert 3 !in t';
        LowestFreeAtMost(t', 3);
      }
      var duped := Dup(t', fd, lim);
      if duped.None? {
        DupFailed(c, t', fd, lim);
        return -1, t';
      }
      var next := duped.value.0;
      FillNullStep(c, fd, next);
      fd, t' := next, duped.value.1;
    }
    assert fd == 3;
    FillNullLast(c, lim);
    t' := Close(t', fd);
    ret := 0;
  }

  lemma ClosedAbove2Done(t: FdTable, fd: nat, lim: nat)
    requires 3 <= fd && (fd == 3 || fd <= lim) && fd >= lim
    ensures ClosedAbove2(t, fd) == ClosedAbove2(t, lim)
  {
    forall k ensures k in ClosedAbove2(t, fd) <==> k in ClosedAbove2(t, lim) {
    }
  }

  /** A free number bounds the lowest free one. */
  lemma LowestFreeAtMost(t: FdTable, k: nat)
    requires k !in t
    ensures LowestFree(t) <= k
  {
  }

  lemma FillNullNothingFree(c: FdTable, lim: nat)
    requires LowestFree(c) >= lim
    ensures FillNull(c, if lim > 3 then 2 else lim - 1) == c
  {
    var u := if lim > 3 then 2 else lim - 1;
    forall k: nat | k <= u ensures k in c {
    }
  }

  lemma FillNullFirst(c: FdTable, fd: nat)
    requires fd == LowestFree(c)
    ensures c[fd := NullDevice] == FillNull(c, fd)
  {
  }

  lemma FillNullStep(c: FdTable, fd: nat, next: nat)
    requires forall k :: 0 <= k <= fd ==> k in FillNull(c, fd)
    requires next == LowestFree(FillNull(c, fd))
    ensures fd < next
    ensures FillNull(c, fd)[next := NullDevice] == FillNull(c, next)
  {
    var t := FillNull(c, fd);
    assert forall k :: fd < k < next ==> k in t;
  }

  lemma DupFailed(c: FdTable, t: FdTable, fd: nat, lim: nat)
    requires t == FillNull(c, fd) && fd <= 2 && fd < lim
    requires LowestFree(t) >= lim
    ensures FillNull(c, fd) == FillNull(c, if lim > 3 then 2 else lim - 1)
  {
    var u := if lim > 3 then 2 else lim - 1;
    forall k: nat | fd < k <= u ensures k in c {
      assert k in t;
    }
  }

  lemma FillNullLast(c: FdTable, lim: nat)
    requires lim > 3 && 3 !in c
    ensures FillNull(c, 3) - {3} == FillNull(c, 2)
  {
  }

  // ---------------------------------------------------------------------
  // The close loop with its `int` counter.
  // ---------------------------------------------------------------------

  /** INT_MAX, the largest value of the `int` loop counter. */
  const IntMax: nat := 0x7fff_ffff

  /**
    The close loop as written, from counter value `fd` on: `fd` is an
    `int` and the limit an unsigned `rlim_t`, so the comparison never
    truncates the limit but `fd++` overflows once `fd` is INT_MAX and
    still below it. The result is the table when the loop ends, or None
    when it reaches that overflow, which is undefined behaviour in C.
  */
  function CloseLoopAsWritten(t: FdTable, fd: nat, lim: nat): Option<FdTable>
    requires fd <= IntMax
    decreases IntMax - fd
  {
    if lim <= fd then Some(t)
    else if fd == IntMax then None
    else CloseLoopAsWritten(Close(t, fd), fd + 1, lim)
  }

  /** Run from 3, the loop as written reaches the overflow exactly when the
      soft limit exceeds INT_MAX (as RLIM_INFINITY does); below that it
      closes 3..lim-1, the same table as the loop with an unbounded
      counter. */
  lemma {:induction false} CloseLoopOverflow(t: FdTable, fd: nat, lim: nat)
    requires 3 <= fd <= IntMax
    ensures CloseLoopAsWritten(ClosedAbove2(t, fd), fd, lim).None? <==> lim > IntMax
    ensures lim <= IntMax ==>
              CloseLoopAsWritten(ClosedAbove2(t, fd), fd, lim)
                == Some(ClosedAbove2(t, if lim < fd then fd else lim))
    decreases IntMax - fd
  {
    if fd < lim && fd < IntMax {
      assert Close(ClosedAbove2(t, fd), fd) == ClosedAbove2(t, fd + 1);
      CloseLoopOverflow(t, fd + 1, lim);
    }
  }
}
