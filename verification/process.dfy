/** The argument checks and pure logic of five system calls
    (`os/src/syscall/process.rs`): `sys_mmap`, `sys_munmap`, `sys_get_time`,
    `sys_waitpid` and `sys_set_priority`.

    What these calls reach outside the file is a parameter: the address
    space's conflict test `check_maparea` and removal `remove_maparea`, the
    microsecond clock, the current task's children and its priority. The
    mapping that `add_maparea` would make is returned as a request rather
    than performed. */
module Process {
  import opened Common

  /** `usize` on the 64-bit target, for the bit tests on `port`. */
  type usize = bv64

  const PAGE_SIZE: nat := 4096

  /** Addresses are 64-bit. */
  const ADDR_SPACE: nat := 0x1_0000_0000_0000_0000

  /** `VirtAddr::from` keeps the low 39 bits (Sv39). */
  const VA_SPACE: nat := 0x80_0000_0000

  /** `VirtAddr::from(v)`. */
  function VirtAddr(v: nat): (va: nat)
    ensures va < VA_SPACE
    ensures v < VA_SPACE ==> va == v
  {
    v % VA_SPACE
  }

  /* ---------------------------------------------------------------- */
  /* sys_mmap / sys_munmap                                             */
  /* ---------------------------------------------------------------- */

  /** `MapPermission` flags. */
  datatype Perm = PermR | PermW | PermX | PermU

  /** The area `add_maparea(start_va, end_va, map_perm)` is asked for. */
  datatype Area = Area(start: nat, end: nat, perm: set<Perm>)

  datatype MmapOutcome = MmapOutcome(ret: int, added: Option<Area>)

  /** `port` has no bit outside the low three and at least one of them. */
  predicate PortOk(port: usize) {
    port & !0x7 == 0 && port & 0x7 != 0
  }

  lemma PortOkRange(port: usize)
    ensures PortOk(port) <==> 1 <= port <= 7
  {
  }

  /** The permission `sys_mmap` derives from `port`: U always, and R, W, X
      from bits 0, 1, 2. */
  function Permission(port: usize): (perm: set<Perm>)
    ensures PermU in perm
    ensures PermR in perm <==> port & 1 != 0
    ensures PermW in perm <==> port & 2 != 0
    ensures PermX in perm <==> port & 4 != 0
  {
    {PermU}
      + (if 1 & port != 0 then {PermR} else {})
      + (if 2 & port != 0 then {PermW} else {})
      + (if 4 & port != 0 then {PermX} else {})
  }

  /** `sys_mmap`. A zero length succeeds without mapping; a bad `port`, an
      unaligned start or a range that `conflicts` (the address space's
      `check_maparea`) fails with -1 and maps nothing; otherwise the area
      from `start` to `start + len` is requested with `Permission(port)`.
      The end is computed in `usize` arithmetic, so it wraps. */
  function SysMmap(start: nat, len: nat, port: usize, conflicts: (nat, nat) -> bool): (r: MmapOutcome)
    requires start < ADDR_SPACE && len < ADDR_SPACE
    ensures len == 0 ==> r == MmapOutcome(0, None)
    ensures r.ret == 0 || r.ret == -1
    ensures r.ret == -1 <==>
              len != 0 &&
              (!PortOk(port) || start % PAGE_SIZE != 0 ||
               conflicts(VirtAddr(start), VirtAddr((start + len) % ADDR_SPACE)))
    ensures r.added.Some? <==> r.ret == 0 && len != 0
    ensures r.added.Some? ==>
              && r.added.value.start == VirtAddr(start)
              && r.added.value.end == VirtAddr((start + len) % ADDR_SPACE)
              && r.added.value.perm == Permission(port)
  {
    if len == 0 then MmapOutcome(0, None)
    else if port & !0x7 != 0 || port & 0x7 == 0 then MmapOutcome(-1, None)
    else
      var end := (start + len) % ADDR_SPACE;
      var startVa := VirtAddr(start);
      if startVa % PAGE_SIZE != 0 then MmapOutcome(-1, None)
      else
        var endVa := VirtAddr(end);
        if conflicts(startVa, endVa) then MmapOutcome(-1, None)
        else MmapOutcome(0, Some(Area(startVa, endVa, Permission(port))))
  }

  /** A page-aligned start is aligned before and after `VirtAddr::from`. */
  lemma AlignedVirtAddr(start: nat)
    ensures VirtAddr(start) % PAGE_SIZE == start % PAGE_SIZE
  {
  }

  /** Every area `sys_mmap` requests is user-accessible and grants at least
      one of read, write and execute, and nothing else. */
  lemma MmapPermissionShape(start: nat, len: nat, port: usize, conflicts: (nat, nat) -> bool)
    requires start < ADDR_SPACE && len < ADDR_SPACE
    requires SysMmap(start, len, port, conflicts).added.Some?
    ensures var perm := SysMmap(start, len, port, conflicts).added.value.perm;
            && PermU in perm
            && perm <= {PermU, PermR, PermW, PermX}
            && perm * {PermR, PermW, PermX} != {}
  {
    var perm := SysMmap(start, len, port, conflicts).added.value.perm;
    PortOkRange(port);
    if port & 1 != 0 {
      assert PermR in perm * {PermR, PermW, PermX};
    } else if port & 2 != 0 {
      assert PermW in perm * {PermR, PermW, PermX};
    } else {
      assert PermX in perm * {PermR, PermW, PermX};
    }
  }

  /** `sys_munmap`: an unaligned start is -1; otherwise the result is that
      of `remove_maparea` over the range. */
  function SysMunmap(start: nat, len: nat, remove: (nat, nat) -> int): (ret: int)
    requires start < ADDR_SPACE && len < ADDR_SPACE
    ensures start % PAGE_SIZE != 0 ==> ret == -1
    ensures start % PAGE_SIZE == 0 ==> ret == remove(VirtAddr(start), VirtAddr((start + len) % ADDR_SPACE))
  {
    var end := (start + len) % ADDR_SPACE;
    var startVa := VirtAddr(start);
    if startVa % PAGE_SIZE != 0 then -1
    else remove(startVa, VirtAddr(end))
  }

  /* ---------------------------------------------------------------- */
  /* sys_get_time                                                      */
  /* ---------------------------------------------------------------- */

  datatype TimeVal = TimeVal(sec: nat, usec: nat)

  const MICROS_PER_SEC: nat := 1_000_000

  /** `sys_get_time`: the clock reading `us` split into whole seconds and
      the microseconds left over. */
  function SysGetTime(us: nat): (tv: TimeVal)
    ensures tv.usec < MICROS_PER_SEC
    ensures tv.sec * MICROS_PER_SEC + tv.usec == us
  {
    TimeVal(us / MICROS_PER_SEC, us % MICROS_PER_SEC)
  }

  /* ---------------------------------------------------------------- */
  /* sys_waitpid                                                       */
  /* ---------------------------------------------------------------- */

  /** What `sys_waitpid` reads of a child process. */
  datatype Child = Child(pid: nat, zombie: bool, exitCode: int)

  /** `pid == -1 || pid as usize == p.getpid()`: -1 matches every child;
      otherwise the `isize` is reinterpreted as `usize`. */
  predicate Matches(pid: int, c: Child) {
    pid == -1 || pid % ADDR_SPACE == c.pid
  }

  /** `found_pid as isize`. */
  function AsIsize(x: nat): int
    requires x < ADDR_SPACE
  {
    if x < ADDR_SPACE / 2 then x else x - ADDR_SPACE
  }

  /** `sys_waitpid` over the current task's children: -1 when no child
      matches, -2 when matching children exist but none is a zombie,
      otherwise the first matching zombie is removed, its exit code is the
      value stored for the caller and its pid is returned. */
  method SysWaitpid(pid: int, children: seq<Child>) returns (ret: int, rest: seq<Child>, stored: Option<int>)
    requires forall k :: 0 <= k < |children| ==> children[k].pid < ADDR_SPACE / 2
    ensures ret == -1 <==> forall k :: 0 <= k < |children| ==> !Matches(pid, children[k])
    ensures ret == -2 <==>
              && (exists k :: 0 <= k < |children| && Matches(pid, children[k]))
              && (forall k :: 0 <= k < |children| && Matches(pid, children[k]) ==> !children[k].zombie)
    ensures ret == -1 || ret == -2 || ret >= 0
    ensures ret < 0 ==> rest == children && stored == None
    ensures ret >= 0 ==>
              exists idx :: 0 <= idx < |children|
                && Matches(pid, children[idx]) && children[idx].zombie
                && (forall k :: 0 <= k < idx ==> !(Matches(pid, children[k]) && children[k].zombie))
                && ret == children[idx].pid
                && stored == Some(children[idx].exitCode)
                && rest == children[..idx] + children[idx + 1..]
  {
    var i := 0;
    var any := false;
    while i < |children|
      invariant 0 <= i <= |children|
      invariant any <==> exists k :: 0 <= k < i && Matches(pid, children[k])
    {
      if Matches(pid, children[i]) {
        any := true;
      }
      i := i + 1;
    }
    if !any {
      return -1, children, None;
    }
    i := 0;
    while i < |children| && !(Matches(pid, children[i]) && children[i].zombie)
      invariant 0 <= i <= |children|
      invariant forall k :: 0 <= k < i ==> !(Matches(pid, children[k]) && children[k].zombie)
    {
      i := i + 1;
    }
    if i == |children| {
      return -2, children, None;
    }
    var child := children[i];
    rest := children[..i] + children[i + 1..];
    ret := AsIsize(child.pid);
    stored := Some(child.exitCode);
  }

  /* ---------------------------------------------------------------- */
  /* sys_set_priority                                                  */
  /* ---------------------------------------------------------------- */

  /** `sys_set_priority`: a priority below 2 is refused with -1 and the
      task keeps `current`; otherwise the task's `pro_lev` becomes `prio`,
      which is also the result. */
  function SysSetPriority(prio: int, current: nat): (r: (int, nat))
    ensures prio < 2 <==> r.0 == -1
    ensures prio < 2 ==> r.1 == current
    ensures prio >= 2 ==> r.0 == prio && r.1 == prio && r.1 >= 2
  {
    if prio < 2 then (-1, current) else (prio, prio)
  }
}
