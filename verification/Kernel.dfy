/** The kernel's shared heap and task table (src/Kernel.cpp, src/Task.h,
    src/syscall/SysExec.h). A ghost owner is kept for every heap cell; the bitmap, the task
    segments and the allocation tables must all agree with it. The waits between tasks are
    kept acyclic by ghost birth stamps. */
module Kernel {
  import opened SectorMap

  const MAX_ALLOCATIONS: nat := 4
  const SEGMENT: nat := 4
  const TASK_FREE: int := -2
  const TASK_RUNNING: int := -1
  const DAEMON_HEAP: nat := 128

  /** A block of heap cells; unused when `ptr` is -1. */
  datatype Block = Block(ptr: int, size: int) {
    predicate Holds(i: int) {
      ptr != -1 && ptr <= i < ptr + size
    }

    predicate Fits(heapSize: nat) {
      ptr != -1 ==> 0 <= ptr && 0 < size && ptr + size <= heapSize
    }
  }

  datatype Task = Task(state: int, heapBase: int, heapLimit: int, table: seq<Block>) {
    predicate IsActive() { state != TASK_FREE }
    predicate IsRunnable() { state == TASK_RUNNING }
    function WaitingFor(): int { if state >= 0 then state else -1 }
  }

  datatype Owner = Nobody | Owned(task: nat, block: nat)

  /** The bytes found at the start of an executable, if there is one under any of the names tried. */
  datatype Executable = Missing | Found(header: seq<Byte>)

  // ------------------------------------------------------------ blocks and owners

  /** Block `k` of task `id`: an allocation, or for `SEGMENT` the task's own segment. The segment
      of task 0 is its first allocation under a second name, so it is counted once. */
  function BlockOf(t: Task, id: nat, k: nat): Block
    requires |t.table| == MAX_ALLOCATIONS && k <= SEGMENT
  {
    if k < MAX_ALLOCATIONS then t.table[k]
    else if id == 0 then Block(-1, 0)
    else Block(t.heapBase, t.heapLimit)
  }

  function WithBlock(t: Task, k: nat, b: Block): Task
    requires |t.table| == MAX_ALLOCATIONS && k <= SEGMENT
  {
    if k < MAX_ALLOCATIONS then t.(table := t.table[k := b]) else t.(heapBase := b.ptr, heapLimit := b.size)
  }

  predicate Tables(tasks: seq<Task>, heapSize: nat) {
    forall id :: 0 <= id < |tasks| ==> TableOk(tasks[id], id, heapSize)
  }

  predicate TableOk(t: Task, id: nat, heapSize: nat) {
    && |t.table| == MAX_ALLOCATIONS
    && (forall k :: 0 <= k <= SEGMENT ==> BlockOf(t, id, k).Fits(heapSize))
  }

  predicate InBlock(tasks: seq<Task>, id: nat, k: nat, i: nat) {
    id < |tasks| && k <= SEGMENT && |tasks[id].table| == MAX_ALLOCATIONS && BlockOf(tasks[id], id, k).Holds(i)
  }

  /** Every cell lies in the block its owner says, and in no other. */
  ghost predicate OwnersAgree(tasks: seq<Task>, owners: seq<Owner>) {
    forall id: nat, k: nat, i: nat :: i < |owners| ==> (InBlock(tasks, id, k, i) <==> owners[i] == Owned(id, k))
  }

  ghost predicate BitsAgree(bits: seq<bool>, owners: seq<Owner>) {
    |bits| == |owners| && forall i :: 0 <= i < |bits| ==> (bits[i] <==> owners[i] != Nobody)
  }

  ghost predicate HeapOk(bits: seq<bool>, tasks: seq<Task>, owners: seq<Owner>) {
    Tables(tasks, |bits|) && BitsAgree(bits, owners) && OwnersAgree(tasks, owners)
  }

  /** The sequence with the `size` elements from `start` on replaced by `v`. */
  function Painted<T>(s: seq<T>, start: nat, size: nat, v: T): (painted: seq<T>)
    ensures |painted| == |s|
  {
    seq(|s|, i requires 0 <= i < |s| => if start <= i < start + size then v else s[i])
  }

  ghost predicate FreeRun(bits: seq<bool>, start: nat, size: nat) {
    start + size <= |bits| && forall i :: start <= i < start + size ==> !bits[i]
  }

  /** A bit is set exactly when its cell lies in some block, and then in exactly one. */
  lemma SetBitsAreOwned(bits: seq<bool>, tasks: seq<Task>, owners: seq<Owner>, i: nat)
    requires HeapOk(bits, tasks, owners) && i < |bits|
    ensures bits[i] <==> exists id: nat, k: nat :: InBlock(tasks, id, k, i)
    ensures forall id: nat, k: nat, jd: nat, j: nat ::
              InBlock(tasks, id, k, i) && InBlock(tasks, jd, j, i) ==> id == jd && k == j
  {
    if bits[i] {
      assert InBlock(tasks, owners[i].task, owners[i].block, i);
    }
  }

  lemma AllocateKeepsHeap(bits: seq<bool>, tasks: seq<Task>, owners: seq<Owner>, id: nat, k: nat, start: nat, size: nat)
    requires HeapOk(bits, tasks, owners) && id < |tasks| && k <= SEGMENT && (id == 0 ==> k < MAX_ALLOCATIONS)
    requires size > 0 && FreeRun(bits, start, size) && BlockOf(tasks[id], id, k).ptr == -1
    ensures HeapOk(Painted(bits, start, size, true), tasks[id := WithBlock(tasks[id], k, Block(start, size))],
                   Painted(owners, start, size, Owned(id, k)))
  {
    var tasks' := tasks[id := WithBlock(tasks[id], k, Block(start, size))];
    var owners' := Painted(owners, start, size, Owned(id, k));
    BlocksAfter(tasks[id], id, k, Block(start, size));
    forall jd: nat, j: nat, i: nat | i < |owners'|
      ensures InBlock(tasks', jd, j, i) <==> owners'[i] == Owned(jd, j)
    {
      OtherBlocks(tasks, id, k, Block(start, size), jd, j, i);
      assert InBlock(tasks, jd, j, i) <==> owners[i] == Owned(jd, j);
      assert start <= i < start + size ==> !bits[i];
    }
  }

  /** Setting one block leaves the others alone. */
  lemma BlocksAfter(t: Task, id: nat, k: nat, b: Block)
    requires |t.table| == MAX_ALLOCATIONS && k <= SEGMENT && (id == 0 ==> k < MAX_ALLOCATIONS)
    ensures |WithBlock(t, k, b).table| == MAX_ALLOCATIONS
    ensures forall j :: 0 <= j <= SEGMENT ==> BlockOf(WithBlock(t, k, b), id, j) == if j == k then b else BlockOf(t, id, j)
  {}

  lemma OtherBlocks(tasks: seq<Task>, id: nat, k: nat, b: Block, jd: nat, j: nat, i: nat)
    requires id < |tasks| && |tasks[id].table| == MAX_ALLOCATIONS && k <= SEGMENT && (id == 0 ==> k < MAX_ALLOCATIONS)
    ensures InBlock(tasks[id := WithBlock(tasks[id], k, b)], jd, j, i)
       <==> if jd == id && j == k then b.Holds(i) else InBlock(tasks, jd, j, i)
  {
    BlocksAfter(tasks[id], id, k, b);
  }

  lemma ReleaseKeepsHeap(bits: seq<bool>, tasks: seq<Task>, owners: seq<Owner>, id: nat, k: nat, size: int)
    requires HeapOk(bits, tasks, owners) && id < |tasks| && k <= SEGMENT && (id == 0 ==> k < MAX_ALLOCATIONS)
    requires BlockOf(tasks[id], id, k).ptr != -1
    ensures var b := BlockOf(tasks[id], id, k);
            b.Fits(|bits|) && HeapOk(Painted(bits, b.ptr, b.size, false), tasks[id := WithBlock(tasks[id], k, Block(-1, size))],
                                     Painted(owners, b.ptr, b.size, Nobody))
  {
    var b := BlockOf(tasks[id], id, k);
    var tasks' := tasks[id := WithBlock(tasks[id], k, Block(-1, size))];
    assert b.Fits(|bits|);
    var owners' := Painted(owners, b.ptr, b.size, Nobody);
    BlocksAfter(tasks[id], id, k, Block(-1, size));
    forall jd: nat, j: nat, i: nat | i < |owners'|
      ensures InBlock(tasks', jd, j, i) <==> owners'[i] == Owned(jd, j)
    {
      OtherBlocks(tasks, id, k, Block(-1, size), jd, j, i);
      assert InBlock(tasks, jd, j, i) <==> owners[i] == Owned(jd, j);
      assert InBlock(tasks, id, k, i) <==> owners[i] == Owned(id, k);
    }
  }

  // ------------------------------------------------------------ first fit

  /** The lowest run of `size` free cells. */
  ghost predicate FirstFit(bits: seq<bool>, size: int, start: int) {
    && size > 0 && start >= 0
    && FreeRun(bits, start, size)
    && forall s: nat :: s < start ==> !FreeRun(bits, s, size)
  }

  ghost predicate NoFit(bits: seq<bool>, size: int) {
    size > 0 ==> forall s: nat :: !FreeRun(bits, s, size)
  }

  /** What the search knows after looking at the first `i` cells. */
  ghost predicate Searched(bits: seq<bool>, size: int, i: nat, consecutive: nat, start: int) {
    && i <= |bits| && consecutive <= i
    && (consecutive > 0 ==> start == i - consecutive)
    && (forall j :: i - consecutive <= j < i ==> !bits[j])
    && (consecutive < i ==> bits[i - consecutive - 1])
    && (size > 0 ==> consecutive < size)
    && (size > 0 ==> forall s: nat :: s + size <= i ==> !FreeRun(bits, s, size))
  }

  lemma SearchFree(bits: seq<bool>, size: int, i: nat, consecutive: nat, start: int)
    requires Searched(bits, size, i, consecutive, start) && i < |bits| && !bits[i]
    ensures var s := if consecutive == 0 then i else start;
            && (consecutive + 1 == size ==> FirstFit(bits, size, s))
            && (consecutive + 1 != size ==> Searched(bits, size, i + 1, consecutive + 1, s))
  {
    if size > 0 {
      forall s: nat | s + size <= i + 1 && s + size > i ensures FreeRun(bits, s, size) ==> consecutive + 1 >= size {
        if consecutive < i && consecutive + 1 < size {
          assert s <= i - consecutive - 1 < s + size;
        }
      }
    }
  }

  lemma SearchUsed(bits: seq<bool>, size: int, i: nat, consecutive: nat, start: int)
    requires Searched(bits, size, i, consecutive, start) && i < |bits| && bits[i]
    ensures Searched(bits, size, i + 1, 0, start)
  {}

  // ------------------------------------------------------------ waiting

  /** A paused task waits for an active task younger than itself, which nobody else waits for. */
  ghost predicate WaitsOk(tasks: seq<Task>, births: seq<nat>, clock: nat) {
    && |births| == |tasks|
    && (forall id :: 0 <= id < |births| ==> births[id] <= clock)
    && (forall id :: 0 <= id < |tasks| ==> StateOk(tasks, births, id))
    && (forall a, b :: 0 <= a < |tasks| && 0 <= b < |tasks| && tasks[a].state >= 0 && tasks[a].state == tasks[b].state ==> a == b)
  }

  predicate StateOk(tasks: seq<Task>, births: seq<nat>, id: nat)
    requires |births| == |tasks| && id < |tasks|
  {
    var s := tasks[id].state;
    && s >= TASK_FREE
    && (s >= 0 ==> 1 <= s < |tasks| && tasks[s].IsActive() && births[s] > births[id])
  }

  /** The task at the end of the waits that start at `id`. */
  ghost function EndOfWaits(tasks: seq<Task>, births: seq<nat>, clock: nat, id: nat): (end: nat)
    requires WaitsOk(tasks, births, clock) && id < |tasks| && tasks[id].IsActive()
    ensures end < |tasks| && tasks[end].IsRunnable()
    decreases clock - births[id]
  {
    assert StateOk(tasks, births, id);
    if tasks[id].state >= 0 then EndOfWaits(tasks, births, clock, tasks[id].state) else id
  }

  predicate WaitPath(tasks: seq<Task>, path: seq<nat>) {
    && (forall n :: 0 <= n < |path| ==> path[n] < |tasks|)
    && (forall n :: 0 <= n < |path| - 1 ==> tasks[path[n]].WaitingFor() == path[n + 1])
  }

  lemma {:induction false} WaitsGetYounger(tasks: seq<Task>, births: seq<nat>, clock: nat, path: seq<nat>)
    requires WaitsOk(tasks, births, clock) && WaitPath(tasks, path) && |path| >= 2
    ensures births[path[0]] < births[path[|path| - 1]]
    decreases |path|
  {
    assert tasks[path[0]].WaitingFor() == path[1];
    assert StateOk(tasks, births, path[0]);
    if |path| > 2 {
      var rest := path[1..];
      forall n | 0 <= n < |rest| - 1 ensures tasks[rest[n]].WaitingFor() == rest[n + 1] {
        assert rest[n] == path[n + 1] && rest[n + 1] == path[n + 2];
      }
      WaitsGetYounger(tasks, births, clock, rest);
    }
  }

  /** Waits never form a cycle. */
  lemma NoWaitCycle(tasks: seq<Task>, births: seq<nat>, clock: nat, path: seq<nat>)
    requires WaitsOk(tasks, births, clock) && WaitPath(tasks, path) && |path| >= 2
    ensures path[0] != path[|path| - 1]
  {
    WaitsGetYounger(tasks, births, clock, path);
  }

  /** A newborn nobody waits for may be waited for by a running task. */
  lemma BirthKeepsWaits(tasks: seq<Task>, births: seq<nat>, clock: nat, slot: nat, born: Task, parent: nat, wait: bool)
    requires WaitsOk(tasks, births, clock) && 1 <= slot < |tasks| && parent < |tasks| && parent != slot
    requires tasks[slot].state == TASK_FREE && tasks[parent].IsRunnable() && born.IsRunnable()
    ensures var born' := tasks[slot := born];
            var after := if wait then born'[parent := born'[parent].(state := slot)] else born';
            WaitsOk(after, births[slot := clock + 1], clock + 1)
  {
    var born' := tasks[slot := born];
    var after := if wait then born'[parent := born'[parent].(state := slot)] else born';
    var births' := births[slot := clock + 1];
    forall id | 0 <= id < |after| ensures StateOk(after, births', id) {
      assert StateOk(tasks, births, id);
    }
    forall a, b | 0 <= a < |after| && 0 <= b < |after| && after[a].state >= 0 && after[a].state == after[b].state
      ensures a == b
    {
      assert StateOk(tasks, births, a) && StateOk(tasks, births, b);
    }
  }

  /** After the end of a task: whoever waited for it runs, and its slot is free. */
  function Woken(tasks: seq<Task>, id: nat): (woken: seq<Task>)
    ensures |woken| == |tasks|
  {
    seq(|tasks|, i requires 0 <= i < |tasks| =>
      if i == id then tasks[i].(state := TASK_FREE)
      else if tasks[i].WaitingFor() == id then tasks[i].(state := TASK_RUNNING)
      else tasks[i])
  }

  lemma EndKeepsWaits(tasks: seq<Task>, births: seq<nat>, clock: nat, id: nat)
    requires WaitsOk(tasks, births, clock) && id < |tasks|
    ensures WaitsOk(Woken(tasks, id), births, clock)
  {
    var after := Woken(tasks, id);
    forall i | 0 <= i < |after| ensures StateOk(after, births, i) {
      assert StateOk(tasks, births, i);
    }
  }

  // ------------------------------------------------------------ the whole state

  predicate EmptyHanded(t: Task) {
    t.heapBase == -1 && |t.table| == MAX_ALLOCATIONS && forall k :: 0 <= k < MAX_ALLOCATIONS ==> t.table[k].ptr == -1
  }

  /** A free slot holds no memory, and task 0 is never free. */
  predicate SlotsOk(tasks: seq<Task>) {
    && |tasks| > 0 && tasks[0].IsActive()
    && forall id :: 0 <= id < |tasks| ==> tasks[id].IsActive() || EmptyHanded(tasks[id])
  }

  /** Task 0 keeps its segment as its first allocation. */
  predicate DaemonOk(t: Task) {
    |t.table| == MAX_ALLOCATIONS && (t.heapBase != -1 ==> t.table[0] == Block(t.heapBase, t.heapLimit))
  }

  ghost predicate StateValid(bits: seq<bool>, tasks: seq<Task>, owners: seq<Owner>, births: seq<nat>, clock: nat) {
    && HeapOk(bits, tasks, owners)
    && WaitsOk(tasks, births, clock)
    && SlotsOk(tasks)
    && DaemonOk(tasks[0])
  }

  /** Some task can always run. */
  lemma SomeTaskRuns(bits: seq<bool>, tasks: seq<Task>, owners: seq<Owner>, births: seq<nat>, clock: nat)
    requires StateValid(bits, tasks, owners, births, clock)
    ensures exists id :: 0 <= id < |tasks| && tasks[id].IsRunnable()
  {
    var end := EndOfWaits(tasks, births, clock, 0);
    assert tasks[end].IsRunnable();
  }

  /** Waits, slots and the daemon's segment do not mind a change of one block. */
  lemma BlockKeepsRest(tasks: seq<Task>, births: seq<nat>, clock: nat, id: nat, k: nat, b: Block)
    requires WaitsOk(tasks, births, clock) && SlotsOk(tasks) && DaemonOk(tasks[0]) && id < |tasks| && k <= SEGMENT
    requires |tasks[id].table| == MAX_ALLOCATIONS
    requires id == 0 ==> k < MAX_ALLOCATIONS && tasks[0].table[k].ptr == -1
    requires b.ptr == -1 || tasks[id].IsActive()
    ensures var after := tasks[id := WithBlock(tasks[id], k, b)];
            WaitsOk(after, births, clock) && SlotsOk(after) && DaemonOk(after[0])
  {
    var after := tasks[id := WithBlock(tasks[id], k, b)];
    forall i | 0 <= i < |after| ensures StateOk(after, births, i) {
      assert StateOk(tasks, births, i);
    }
  }

  /** The second name of the daemon's first allocation is not a block of its own. */
  lemma DaemonSegment(bits: seq<bool>, tasks: seq<Task>, owners: seq<Owner>, base: int, limit: int)
    requires HeapOk(bits, tasks, owners) && |tasks| > 0
    ensures HeapOk(bits, tasks[0 := tasks[0].(heapBase := base, heapLimit := limit)], owners)
  {
    var tasks' := tasks[0 := tasks[0].(heapBase := base, heapLimit := limit)];
    assert TableOk(tasks[0], 0, |bits|);
    assert forall k :: 0 <= k <= SEGMENT ==> BlockOf(tasks'[0], 0, k) == BlockOf(tasks[0], 0, k);
    forall id: nat, k: nat, i: nat | i < |owners| ensures InBlock(tasks', id, k, i) <==> owners[i] == Owned(id, k) {
      assert InBlock(tasks', id, k, i) == InBlock(tasks, id, k, i);
    }
  }

  /** States do not matter to the heap. */
  lemma StatesDoNotMatter(bits: seq<bool>, tasks: seq<Task>, after: seq<Task>, owners: seq<Owner>)
    requires HeapOk(bits, tasks, owners) && |after| == |tasks|
    requires forall id :: 0 <= id < |tasks| ==> after[id] == tasks[id].(state := after[id].state)
    ensures HeapOk(bits, after, owners)
  {
    forall id | 0 <= id < |after| ensures TableOk(after[id], id, |bits|) {
      assert TableOk(tasks[id], id, |bits|);
      assert forall k :: 0 <= k <= SEGMENT ==> BlockOf(after[id], id, k) == BlockOf(tasks[id], id, k);
    }
    forall id: nat, k: nat, i: nat | i < |owners| ensures InBlock(after, id, k, i) <==> owners[i] == Owned(id, k) {
      assert InBlock(after, id, k, i) == InBlock(tasks, id, k, i);
    }
  }

  /** A 16-bit signed integer from its two bytes. */
  function ToInt(low: Byte, high: Byte): int {
    var n := low as int + 256 * (high as int);
    if n >= 0x8000 then n - 0x1_0000 else n
  }

  /** The heap size an executable asks for, if its header is complete and right. */
  function Requested(file: Executable): int {
    if file.Found? && |file.header| >= 4 && file.header[0] == 0xAD && file.header[1] == 0x01
    then ToInt(file.header[2], file.header[3]) else 0
  }

  /** The number that an executable asks for, in its third and fourth byte, the low one first and
      with its sign; nothing, unless it starts with AD 01. */
  predicate AsksFor(file: Executable, size: int) {
    if file.Missing? || |file.header| < 4 || file.header[0] as int != 0xAD || file.header[1] as int != 1 then size == 0
    else
      && -0x8000 <= size < 0x8000
      && (size - file.header[2] as int - 256 * file.header[3] as int) % 0x1_0000 == 0
  }

  lemma RequestedIsAsked(file: Executable)
    ensures AsksFor(file, Requested(file))
  {}

  /** From task-relative to heap-wide addresses. */
  function PhysAddr(t: Task, addr: int): int {
    if 0 <= addr < t.heapLimit then t.heapBase + addr else addr
  }

  /** An address reaches the task's own segment exactly when it is below the segment's size, or
      already the heap-wide address of one of its cells. */
  lemma PhysAddrIsOwn(bits: seq<bool>, tasks: seq<Task>, owners: seq<Owner>, id: nat, addr: int)
    requires HeapOk(bits, tasks, owners) && 0 < id < |tasks| && tasks[id].heapBase != -1
    ensures var t := tasks[id]; var phys := PhysAddr(t, addr);
            (0 <= phys < |owners| && owners[phys] == Owned(id, SEGMENT))
            <==> (0 <= addr < t.heapLimit || t.heapBase <= addr < t.heapBase + t.heapLimit)
  {
    var t, phys := tasks[id], PhysAddr(tasks[id], addr);
    assert TableOk(t, id, |bits|);
    assert BlockOf(t, id, SEGMENT).Fits(|bits|);
    if 0 <= phys < |owners| {
      assert InBlock(tasks, id, SEGMENT, phys) <==> owners[phys] == Owned(id, SEGMENT);
    }
  }

  /** Releasing the cells of a block takes them from whoever owned them as that block. */
  lemma PaintedIsReleased(bits: seq<bool>, tasks: seq<Task>, owners: seq<Owner>, id: nat, k: nat)
    requires HeapOk(bits, tasks, owners) && id < |tasks| && k <= SEGMENT
    ensures TableOk(tasks[id], id, |bits|)
    ensures var b := BlockOf(tasks[id], id, k);
            forall i :: 0 <= i < |owners| ==> (owners[i] == Owned(id, k) <==> b.Holds(i))
  {
    assert TableOk(tasks[id], id, |bits|);
    forall i: nat | i < |owners| ensures owners[i] == Owned(id, k) <==> BlockOf(tasks[id], id, k).Holds(i) {
      assert InBlock(tasks, id, k, i) <==> owners[i] == Owned(id, k);
    }
  }

  /** The owners after the first `n` blocks of a task were released. */
  ghost predicate ReleasedUpTo(owners: seq<Owner>, after: seq<Owner>, id: nat, n: nat) {
    |after| == |owners| && forall i :: 0 <= i < |owners| ==>
      after[i] == if owners[i].Owned? && owners[i].task == id && owners[i].block < n then Nobody else owners[i]
  }

  lemma ReleasedInTwo(bits: seq<bool>, tasks: seq<Task>, owners: seq<Owner>, middle: seq<Owner>, after: seq<Owner>, id: nat)
    requires HeapOk(bits, tasks, owners) && ReleasedUpTo(owners, middle, id, MAX_ALLOCATIONS) && |after| == |middle|
    requires forall i :: 0 <= i < |middle| ==> after[i] == if middle[i] == Owned(id, SEGMENT) then Nobody else middle[i]
    ensures Released(owners, after, id)
  {
    forall i: nat | i < |owners| && owners[i].Owned? ensures owners[i].block <= SEGMENT {
      assert InBlock(tasks, owners[i].task, owners[i].block, i);
    }
  }

  lemma OnlyOwnBits(bits: seq<bool>, was: seq<bool>, tasks: seq<Task>, wasTasks: seq<Task>,
                    owners: seq<Owner>, wasOwners: seq<Owner>, id: nat)
    requires HeapOk(bits, tasks, owners) && HeapOk(was, wasTasks, wasOwners) && Released(wasOwners, owners, id)
    ensures |bits| == |was|
    ensures forall i :: 0 <= i < |bits| ==> (bits[i] <==> was[i] && !(wasOwners[i].Owned? && wasOwners[i].task == id))
  {}

  /** A new task in a slot: it takes its segment, and its birth is the latest. */
  lemma LoadKeepsState(bits: seq<bool>, tasks: seq<Task>, owners: seq<Owner>, births: seq<nat>, clock: nat,
                       slot: nat, base: nat, size: nat)
    requires StateValid(bits, tasks, owners, births, clock) && 1 <= slot < |tasks| && tasks[slot].state == TASK_FREE
    requires size > 0 && FreeRun(bits, base, size)
    ensures StateValid(Painted(bits, base, size, true),
                       tasks[slot := WithBlock(tasks[slot], SEGMENT, Block(base, size)).(state := TASK_RUNNING)],
                       Painted(owners, base, size, Owned(slot, SEGMENT)), births[slot := clock + 1], clock + 1)
  {
    var t := WithBlock(tasks[slot], SEGMENT, Block(base, size));
    var after := tasks[slot := t.(state := TASK_RUNNING)];
    assert EmptyHanded(tasks[slot]);
    assert TableOk(tasks[slot], slot, |bits|);
    AllocateKeepsHeap(bits, tasks, owners, slot, SEGMENT, base, size);
    StatesDoNotMatter(Painted(bits, base, size, true), tasks[slot := t], after, Painted(owners, base, size, Owned(slot, SEGMENT)));
    var running := EndOfWaits(tasks, births, clock, 0);
    BirthKeepsWaits(tasks, births, clock, slot, t.(state := TASK_RUNNING), running, false);
  }

  lemma WaitKeepsState(bits: seq<bool>, tasks: seq<Task>, owners: seq<Owner>, births: seq<nat>, clock: nat, parent: nat, slot: nat)
    requires StateValid(bits, tasks, owners, births, clock) && parent < |tasks| && 1 <= slot < |tasks|
    requires WaitsOk(tasks[parent := tasks[parent].(state := slot)], births, clock)
    ensures StateValid(bits, tasks[parent := tasks[parent].(state := slot)], owners, births, clock)
  {
    StatesDoNotMatter(bits, tasks, tasks[parent := tasks[parent].(state := slot)], owners);
  }

  lemma EndKeepsState(bits: seq<bool>, tasks: seq<Task>, owners: seq<Owner>, births: seq<nat>, clock: nat, id: nat)
    requires StateValid(bits, tasks, owners, births, clock) && 0 < id < |tasks| && EmptyHanded(tasks[id])
    ensures StateValid(bits, Woken(tasks, id), owners, births, clock)
  {
    StatesDoNotMatter(bits, tasks, Woken(tasks, id), owners);
    EndKeepsWaits(tasks, births, clock, id);
  }

  datatype Op = MallocOp(id: nat, size: int) | ExecOp(id: nat, wait: bool, file: Executable) | EndOp(id: nat)

  /** The cells of a task are exactly those that its end releases. */
  ghost predicate Released(owners: seq<Owner>, after: seq<Owner>, id: nat) {
    |after| == |owners| && forall i :: 0 <= i < |owners| ==>
      after[i] == if owners[i].Owned? && owners[i].task == id then Nobody else owners[i]
  }

  /** The whole state at one moment. */
  datatype Moment = Moment(bits: seq<bool>, tasks: seq<Task>, owners: seq<Owner>, births: seq<nat>, clock: nat)

  ghost predicate InOrder(m: Moment) {
    StateValid(m.bits, m.tasks, m.owners, m.births, m.clock)
  }

  /** Only tasks that can run do anything, and only programs end; the daemon never does. */
  predicate Legal(m: Moment, op: Op) {
    op.id < |m.tasks| && m.tasks[op.id].IsRunnable() && (op.EndOp? ==> op.id > 0)
  }

  /** An allocation takes the lowest run of free cells and the first free place of the task's four, or for
      want of either changes nothing. */
  ghost predicate Allocated(a: Moment, id: nat, size: int, b: Moment)
    requires id < |a.tasks| && |a.tasks[id].table| == 4
  {
    if b.tasks == a.tasks then
      b == a && (size <= 0 || NoFit(a.bits, size) || forall k :: 0 <= k < 4 ==> a.tasks[id].table[k].ptr != -1)
    else exists k ::
      && 0 <= k < 4 && a.tasks[id].table[k].ptr == -1
      && (forall j :: 0 <= j < k ==> a.tasks[id].table[j].ptr != -1)
      && b == a.(bits := b.bits, owners := b.owners, tasks := b.tasks)
      && id < |b.tasks| && |b.tasks[id].table| == 4
      && var ptr := b.tasks[id].table[k].ptr;
         && FirstFit(a.bits, size, ptr)
         && b.tasks == a.tasks[id := a.tasks[id].(table := a.tasks[id].table[k := Block(ptr, size)])]
         && b.bits == Painted(a.bits, ptr, size, true) && b.owners == Painted(a.owners, ptr, size, Owned(id, k))
  }

  /** A program starts in the lowest free slot behind the daemon's, with the lowest run of cells that is
      long enough; its parent waits for it if it asked to. Otherwise nothing changes. */
  ghost predicate Started(a: Moment, parent: nat, wait: bool, file: Executable, b: Moment)
    requires parent < |a.tasks|
  {
    if b.tasks == a.tasks then
      && b == a
      && ((forall s :: 1 <= s < |a.tasks| ==> a.tasks[s].state != TASK_FREE)
          || Requested(file) <= 0 || NoFit(a.bits, Requested(file)))
    else
      && |b.tasks| == |a.tasks|
      && exists slot ::
           && 1 <= slot < |a.tasks| && a.tasks[slot].state == TASK_FREE
           && (forall s :: 1 <= s < slot ==> a.tasks[s].state != TASK_FREE)
           && b.tasks[slot].IsRunnable() && b.tasks[slot].heapLimit == Requested(file)
           && FirstFit(a.bits, Requested(file), b.tasks[slot].heapBase)
           && b.bits == Painted(a.bits, b.tasks[slot].heapBase, Requested(file), true)
           && b.tasks[parent].state == (if wait then slot else TASK_RUNNING)
           && forall s :: 0 <= s < |a.tasks| && s != slot && s != parent ==> b.tasks[s] == a.tasks[s]
  }

  /** The cells of a task, and no others, become free with its slot, and whoever waited for it runs. */
  ghost predicate Finished(a: Moment, id: nat, b: Moment)
    requires id < |a.tasks|
  {
    && Released(a.owners, b.owners, id)
    && |b.bits| == |a.bits| == |a.owners| && |b.tasks| == |a.tasks|
    && (forall i :: 0 <= i < |a.bits| ==>
          (b.bits[i] <==> a.bits[i] && !(a.owners[i].Owned? && a.owners[i].task == id)))
    && b.tasks[id].state == TASK_FREE && EmptyHanded(b.tasks[id])
    && forall s :: 0 <= s < |a.tasks| && s != id ==>
         b.tasks[s] == if a.tasks[s].WaitingFor() == id then a.tasks[s].(state := TASK_RUNNING) else a.tasks[s]
  }

  /** What one operation does; an illegal one does nothing. */
  ghost predicate Did(a: Moment, op: Op, b: Moment) {
    if !Legal(a, op) then b == a
    else match op
      case MallocOp(id, size) => |a.tasks[id].table| == 4 && Allocated(a, id, size, b)
      case ExecOp(id, wait, file) => Started(a, id, wait, file, b)
      case EndOp(id) => Finished(a, id, b)
  }

  class Kernel {
    const heapSize: nat
    const taskCount: nat
    const bitmap: array<bool>
    var tasks: seq<Task>
    ghost var owners: seq<Owner>
    ghost var births: seq<nat>
    ghost var clock: nat

    ghost predicate Shape()
      reads this, bitmap
    {
      bitmap.Length == heapSize && |tasks| == |births| == taskCount && 0 < taskCount <= 128
    }

    ghost predicate Valid()
      reads this, bitmap
    {
      Shape() && StateValid(bitmap[..], tasks, owners, births, clock)
    }

    /** Sets or clears the bits of a run of cells. */
    method Mark(start: nat, size: nat, value: bool)
      requires start + size <= bitmap.Length
      modifies bitmap
      ensures bitmap[..] == Painted(old(bitmap[..]), start, size, value)
    {
      for k := 0 to size
        invariant bitmap[..] == Painted(old(bitmap[..]), start, k, value)
      {
        bitmap[start + k] := value;
      }
    }

    /** The search that both allocators use: the lowest run of `size` free cells, or -1. */
    method FindRun(size: int) returns (start: int)
      ensures start == -1 ==> NoFit(bitmap[..], size)
      ensures start != -1 ==> FirstFit(bitmap[..], size, start)
    {
      var consecutive: nat := 0;
      start := -1;
      for i := 0 to bitmap.Length
        invariant Searched(bitmap[..], size, i, consecutive, start)
      {
        if !bitmap[i] {
          SearchFree(bitmap[..], size, i, consecutive, start);
          if consecutive == 0 {
            start := i;
          }
          consecutive := consecutive + 1;
          if consecutive == size {
            return start;
          }
        } else {
          SearchUsed(bitmap[..], size, i, consecutive, start);
          consecutive := 0;
        }
      }
      return -1;
    }

    /** First-fit allocation for a task. It fails only for want of a positive size, of a long
        enough run, or of a place in the task's table. */
    method Malloc(id: nat, size: int) returns (ptr: int)
      requires Valid() && id < taskCount && tasks[id].IsActive()
      modifies this`tasks, this`owners, bitmap
      ensures Valid()
      ensures ptr == -1 ==>
                && bitmap[..] == old(bitmap[..]) && tasks == old(tasks) && owners == old(owners)
                && (size <= 0 || NoFit(bitmap[..], size) || forall k :: 0 <= k < MAX_ALLOCATIONS ==> tasks[id].table[k].ptr != -1)
      ensures ptr != -1 ==>
                && FirstFit(old(bitmap[..]), size, ptr)
                && bitmap[..] == Painted(old(bitmap[..]), ptr, size, true)
                && exists k :: 0 <= k < MAX_ALLOCATIONS && old(tasks)[id].table[k].ptr == -1
                     && (forall j :: 0 <= j < k ==> old(tasks)[id].table[j].ptr != -1)
                     && tasks == old(tasks)[id := WithBlock(old(tasks)[id], k, Block(ptr, size))]
                     && owners == Painted(old(owners), ptr, size, Owned(id, k))
    {
      if size <= 0 {
        return -1;
      }
      assert TableOk(tasks[id], id, |bitmap[..]|);
      ptr := FindRun(size);
      if ptr == -1 {
        return;
      }
      var slot: nat := 0;
      while slot < MAX_ALLOCATIONS && tasks[id].table[slot].ptr != -1
        invariant slot <= MAX_ALLOCATIONS
        invariant forall k :: 0 <= k < slot ==> tasks[id].table[k].ptr != -1
      {
        slot := slot + 1;
      }
      if slot == MAX_ALLOCATIONS {
        return -1;
      }
      AllocateKeepsHeap(bitmap[..], tasks, owners, id, slot, ptr, size);
      BlockKeepsRest(tasks, births, clock, id, slot, Block(ptr, size));
      Mark(ptr, size, true);
      tasks := tasks[id := WithBlock(tasks[id], slot, Block(ptr, size))];
      owners := Painted(owners, ptr, size, Owned(id, slot));
    }

    /** Frees the first allocation of the task at `ptr`, if there is one. */
    method Free(id: nat, ptr: int)
      requires Valid() && 0 < id < taskCount && ptr != -1
      modifies this`tasks, this`owners, bitmap
      ensures Valid()
      ensures (forall k :: 0 <= k < MAX_ALLOCATIONS ==> old(tasks)[id].table[k].ptr != ptr) ==>
                bitmap[..] == old(bitmap[..]) && tasks == old(tasks) && owners == old(owners)
      ensures forall k :: 0 <= k < MAX_ALLOCATIONS && old(tasks)[id].table[k].ptr == ptr ==>
                var b := old(tasks)[id].table[k];
                && b.Fits(heapSize)
                && bitmap[..] == Painted(old(bitmap[..]), b.ptr, b.size, false)
                && tasks == old(tasks)[id := WithBlock(old(tasks)[id], k, Block(-1, b.size))]
                && owners == Painted(old(owners), b.ptr, b.size, Nobody)
    {
      assert TableOk(tasks[id], id, |bitmap[..]|);
      OneBlockPerStart(bitmap[..], tasks, owners, id, ptr);
      for i := 0 to MAX_ALLOCATIONS
        invariant forall k :: 0 <= k < i ==> tasks[id].table[k].ptr != ptr
        invariant bitmap[..] == old(bitmap[..]) && tasks == old(tasks) && owners == old(owners)
      {
        if tasks[id].table[i].ptr == ptr {
          var size := tasks[id].table[i].size;
          ReleaseKeepsHeap(bitmap[..], tasks, owners, id, i, size);
          BlockKeepsRest(tasks, births, clock, id, i, Block(-1, size));
          Mark(ptr, size, false);
          tasks := tasks[id := WithBlock(tasks[id], i, Block(-1, size))];
          owners := Painted(owners, ptr, size, Nobody);
          return;
        }
      }
    }

    /** Task 0 runs from the start, with its heap allocated in advance. */
    constructor (size: nat, count: nat)
      requires 0 < count <= 128
      ensures Valid() && heapSize == size && taskCount == count
      ensures tasks[0].IsRunnable()
      ensures forall id :: 0 < id < count ==> tasks[id].state == TASK_FREE && |tasks[id].table| == 4
      ensures size >= 128 ==>
                && Block(tasks[0].heapBase, tasks[0].heapLimit) == tasks[0].table[0] == Block(0, 128)
                && forall i :: 0 <= i < size ==> (bitmap[i] <==> i < 128)
      ensures size < 128 ==> EmptyHanded(tasks[0]) && bitmap[..] == seq(size, _ => false)
    {
      heapSize := size;
      taskCount := count;
      bitmap := new bool[size](_ => false);
      var none := seq(MAX_ALLOCATIONS, _ => Block(-1, 0));
      tasks := seq(count, _ => Task(TASK_FREE, -1, 0, none));
      owners := seq(size, _ => Nobody);
      births := seq(count, _ => 0);
      clock := 0;
      new;
      tasks := tasks[0 := tasks[0].(state := TASK_RUNNING)];
      assert bitmap[..] == seq(size, _ => false);
      NewState(bitmap[..], tasks, owners, births);
      var heap := Malloc(0, DAEMON_HEAP);
      if heap != -1 {
        DaemonSegment(bitmap[..], tasks, owners, heap, DAEMON_HEAP);
        DaemonKeepsWaits(tasks, births, clock, heap, DAEMON_HEAP);
        tasks := tasks[0 := tasks[0].(heapBase := heap, heapLimit := DAEMON_HEAP)];
      }
      assert size >= DAEMON_HEAP ==> FreeRun(seq(size, _ => false), 0, DAEMON_HEAP);
    }

    /** Loads an executable into a free slot. It fails for a missing file, a short or foreign
        header, or want of memory, and then changes nothing. */
    method LoadTask(slot: nat, file: Executable) returns (ok: bool)
      requires Valid() && 1 <= slot < taskCount && tasks[slot].state == TASK_FREE
      modifies this`tasks, this`owners, this`births, this`clock, bitmap
      ensures Valid()
      ensures !ok ==>
                && bitmap[..] == old(bitmap[..]) && tasks == old(tasks) && owners == old(owners)
                && births == old(births) && clock == old(clock)
                && (Requested(file) <= 0 || NoFit(bitmap[..], Requested(file)))
      ensures AsksFor(file, Requested(file)) && (ok ==> tasks[slot].heapLimit == Requested(file) > 0)
      ensures ok ==>
                && births == old(births)[slot := old(clock) + 1] && clock == old(clock) + 1
                && exists base: nat ::
                     && FirstFit(old(bitmap[..]), Requested(file), base)
                     && bitmap[..] == Painted(old(bitmap[..]), base, Requested(file), true)
                     && owners == Painted(old(owners), base, Requested(file), Owned(slot, SEGMENT))
                     && tasks == old(tasks)[slot := old(tasks)[slot].(heapBase := base, heapLimit := Requested(file), state := TASK_RUNNING)]
    {
      hide HeapOk, WaitsOk, AsksFor;
      RequestedIsAsked(file);
      if file.Missing? {
        return false;
      }
      var size: int;
      if |file.header| >= 4 {
        if file.header[0] == 0xAD && file.header[1] == 0x01 {
          size := ToInt(file.header[2], file.header[3]);
        } else {
          return false;
        }
      } else {
        return false;
      }
      var found := FindRun(size);
      if found == -1 {
        return false;
      }
      var base: nat := found;
      assert FirstFit(old(bitmap[..]), Requested(file), base);
      LoadKeepsState(bitmap[..], tasks, owners, births, clock, slot, base, size);
      Mark(base, size, true);
      tasks := tasks[slot := tasks[slot].(heapBase := base, heapLimit := size)];
      owners := Painted(owners, base, size, Owned(slot, SEGMENT));
      births, clock := births[slot := clock + 1], clock + 1;
      tasks := tasks[slot := tasks[slot].(state := TASK_RUNNING)];
      assert tasks == old(tasks)[slot := WithBlock(old(tasks)[slot], SEGMENT, Block(base, size)).(state := TASK_RUNNING)];
      ok := true;
    }

    /** The lowest free slot behind the daemon's, or none. */
    method FreeSlot() returns (slot: nat)
      requires |tasks| == taskCount
      ensures 1 <= slot && forall s :: 1 <= s < slot && s < taskCount ==> tasks[s].state != TASK_FREE
      ensures slot < taskCount ==> tasks[slot].state == TASK_FREE
    {
      slot := 1;
      while slot < taskCount && tasks[slot].state != TASK_FREE
        invariant 1 <= slot && (slot <= taskCount || slot == 1)
        invariant forall s :: 1 <= s < slot && s < taskCount ==> tasks[s].state != TASK_FREE
      {
        slot := slot + 1;
      }
    }

    /** The exec system call: loads into the lowest free slot from 1 on; a parent that asks to
        wait is paused until the child ends. */
    method Exec(parent: nat, wait: bool, file: Executable)
      requires Valid() && parent < taskCount && tasks[parent].IsRunnable()
      modifies this`tasks, this`owners, this`births, this`clock, bitmap
      ensures Valid()
      ensures tasks == old(tasks) || exists slot ::
                && 1 <= slot < taskCount && old(tasks)[slot].state == TASK_FREE
                && (forall s :: 1 <= s < slot ==> old(tasks)[s].state != TASK_FREE)
                && tasks[slot].IsRunnable() && tasks[slot].heapLimit == Requested(file)
                && FirstFit(old(bitmap[..]), Requested(file), tasks[slot].heapBase)
                && bitmap[..] == Painted(old(bitmap[..]), tasks[slot].heapBase, Requested(file), true)
                && tasks[parent].state == (if wait then slot else TASK_RUNNING)
                && forall s :: 0 <= s < taskCount && s != slot && s != parent ==> tasks[s] == old(tasks)[s]
      ensures tasks == old(tasks) ==>
                bitmap[..] == old(bitmap[..]) && owners == old(owners) && births == old(births) && clock == old(clock)
      ensures tasks == old(tasks) ==>
                || (forall s :: 1 <= s < taskCount ==> tasks[s].state != TASK_FREE)
                || Requested(file) <= 0 || NoFit(bitmap[..], Requested(file))
    {
      hide HeapOk, WaitsOk, NoFit, FirstFit, Requested, Painted;
      var slot := FreeSlot();
      if slot < taskCount {
        ghost var was, wasBirths, wasClock := tasks, births, clock;
        var success := LoadTask(slot, file);
        if success {
          if wait {
            BirthKeepsWaits(was, wasBirths, wasClock, slot, tasks[slot], parent, true);
            assert was[slot := tasks[slot]] == tasks;
            WaitKeepsState(bitmap[..], tasks, owners, births, clock, parent, slot);
            tasks := tasks[parent := tasks[parent].(state := slot)];
          }
        }
      }
    }

    /** Releases the blocks in the task's table, one after the other. */
    method FreeTable(id: nat)
      requires Valid() && 0 < id < taskCount
      modifies this`tasks, this`owners, bitmap
      ensures Valid()
      ensures ReleasedUpTo(old(owners), owners, id, MAX_ALLOCATIONS)
      ensures |tasks[id].table| == MAX_ALLOCATIONS && forall k :: 0 <= k < MAX_ALLOCATIONS ==> tasks[id].table[k].ptr == -1
      ensures tasks == old(tasks)[id := old(tasks)[id].(table := tasks[id].table)]
    {
      assert TableOk(tasks[id], id, |bitmap[..]|);
      for i := 0 to MAX_ALLOCATIONS
        invariant Valid() && ReleasedUpTo(old(owners), owners, id, i)
        invariant |tasks[id].table| == MAX_ALLOCATIONS && forall k :: 0 <= k < i ==> tasks[id].table[k].ptr == -1
        invariant tasks == old(tasks)[id := old(tasks)[id].(table := tasks[id].table)]
      {
        PaintedIsReleased(bitmap[..], tasks, owners, id, i);
        var ptr := tasks[id].table[i].ptr;
        if ptr != -1 {
          Free(id, ptr);
        }
      }
    }

    method ReleaseSegment(id: nat)
      requires Valid() && 0 < id < taskCount
      modifies this`tasks, this`owners, bitmap
      ensures Valid()
      ensures |owners| == |old(owners)| && forall i :: 0 <= i < |owners| ==>
                owners[i] == if old(owners)[i] == Owned(id, SEGMENT) then Nobody else old(owners)[i]
      ensures tasks[id].heapBase == -1
      ensures tasks == old(tasks)[id := old(tasks)[id].(heapBase := -1, heapLimit := tasks[id].heapLimit)]
    {
      PaintedIsReleased(bitmap[..], tasks, owners, id, SEGMENT);
      var base := tasks[id].heapBase;
      if base != -1 {
        ReleaseKeepsHeap(bitmap[..], tasks, owners, id, SEGMENT, 0);
        BlockKeepsRest(tasks, births, clock, id, SEGMENT, Block(-1, 0));
        Mark(base, tasks[id].heapLimit, false);
        owners := Painted(owners, base, tasks[id].heapLimit, Nobody);
        tasks := tasks[id := tasks[id].(heapBase := -1, heapLimit := 0)];
      }
    }

    method WakeWaiters(id: nat)
      requires |tasks| == taskCount && id < taskCount
      modifies this`tasks
      ensures |tasks| == taskCount
      ensures Woken(old(tasks), id) == tasks[id := old(tasks)[id].(state := TASK_FREE)]
      ensures tasks[id] == old(tasks)[id] || tasks[id] == old(tasks)[id].(state := TASK_RUNNING)
    {
      ghost var was := tasks;
      for i := 0 to taskCount
        invariant |tasks| == taskCount
        invariant forall s :: 0 <= s < taskCount ==>
                    tasks[s] == if s < i && was[s].WaitingFor() == id then was[s].(state := TASK_RUNNING) else was[s]
      {
        if tasks[i].WaitingFor() == id {
          tasks := tasks[i := tasks[i].(state := TASK_RUNNING)];
        }
      }
    }

    /** Ends a task: all its memory is released and nothing else, and whoever waited for it runs. */
    method Terminate(id: nat)
      requires Valid() && 0 < id < taskCount
      modifies this`tasks, this`owners, bitmap
      ensures Valid()
      ensures Released(old(owners), owners, id)
      ensures forall i :: 0 <= i < heapSize ==>
                (bitmap[i] <==> old(bitmap[i]) && !(old(owners)[i].Owned? && old(owners)[i].task == id))
      ensures tasks[id].state == TASK_FREE && EmptyHanded(tasks[id])
      ensures forall s :: 0 <= s < taskCount && s != id ==>
                tasks[s] == if old(tasks)[s].WaitingFor() == id then old(tasks)[s].(state := TASK_RUNNING) else old(tasks)[s]
    {
      hide HeapOk, WaitsOk;
      FreeTable(id);
      ghost var middle := owners;
      ReleaseSegment(id);
      ReleasedInTwo(old(bitmap[..]), old(tasks), old(owners), middle, owners, id);
      EndKeepsState(bitmap[..], tasks, owners, births, clock, id);
      WakeWaiters(id);
      tasks := tasks[id := tasks[id].(state := TASK_FREE)];
      OnlyOwnBits(bitmap[..], old(bitmap[..]), tasks, old(tasks), owners, old(owners), id);
    }

    ghost function Now(): Moment
      reads this, bitmap
    {
      Moment(bitmap[..], tasks, owners, births, clock)
    }

    method Perform(op: Op)
      requires Valid()
      modifies this`tasks, this`owners, this`births, this`clock, bitmap
      ensures Valid() && Did(old(Now()), op, Now())
    {
      hide HeapOk, WaitsOk, NoFit, FirstFit, Requested, Painted, Allocated, Started, Finished;
      ghost var before := Now();
      if op.id < taskCount && tasks[op.id].IsRunnable() && (op.EndOp? ==> op.id > 0) {
        match op
        case MallocOp(id, size) =>
          Allocate(id, size);
        case ExecOp(id, wait, file) =>
          Start(id, wait, file);
        case EndOp(id) =>
          Finish(id);
      }
    }

    method Allocate(id: nat, size: int)
      requires Valid() && id < taskCount && tasks[id].IsActive()
      modifies this`tasks, this`owners, bitmap
      ensures Valid() && |old(tasks)[id].table| == 4 && Allocated(old(Now()), id, size, Now())
    {
      hide WaitsOk, NoFit, FirstFit, Painted;
      assert TableOk(tasks[id], id, |bitmap[..]|);
      var ptr := Malloc(id, size);
    }

    method Start(id: nat, wait: bool, file: Executable)
      requires Valid() && id < taskCount && tasks[id].IsRunnable()
      modifies this`tasks, this`owners, this`births, this`clock, bitmap
      ensures Valid() && Started(old(Now()), id, wait, file, Now())
    {
      hide HeapOk, WaitsOk, NoFit, FirstFit, Requested, Painted;
      Exec(id, wait, file);
    }

    method Finish(id: nat)
      requires Valid() && 0 < id < taskCount
      modifies this`tasks, this`owners, bitmap
      ensures Valid() && Finished(old(Now()), id, Now())
    {
      hide WaitsOk;
      Terminate(id);
    }

    /** Any run of the system: each operation does what it is to do, and everything stays in order. */
    method Run(ops: seq<Op>) returns (ghost moments: seq<Moment>)
      requires Valid()
      modifies this`tasks, this`owners, this`births, this`clock, bitmap
      ensures Valid() && |moments| == |ops| + 1 && moments[0] == old(Now()) && moments[|ops|] == Now()
      ensures forall n :: 0 <= n < |ops| ==> InOrder(moments[n]) && Did(moments[n], ops[n], moments[n + 1])
    {
      hide StateValid, Did;
      moments := [Now()];
      for n := 0 to |ops|
        invariant Valid() && |moments| == n + 1 && moments[0] == old(Now()) && moments[n] == Now()
        invariant forall k :: 0 <= k < n ==> InOrder(moments[k]) && Did(moments[k], ops[k], moments[k + 1])
      {
        Perform(ops[n]);
        moments := moments + [Now()];
      }
    }
  }

  lemma NewState(bits: seq<bool>, tasks: seq<Task>, owners: seq<Owner>, births: seq<nat>)
    requires |owners| == |bits| && |births| == |tasks| && |tasks| > 0
    requires forall i :: 0 <= i < |bits| ==> !bits[i] && owners[i] == Nobody
    requires forall id :: 0 <= id < |tasks| ==>
      EmptyHanded(tasks[id]) && births[id] == 0 && tasks[id].state == if id == 0 then TASK_RUNNING else TASK_FREE
    ensures StateValid(bits, tasks, owners, births, 0)
  {
    forall id | 0 <= id < |tasks| ensures TableOk(tasks[id], id, |bits|) && StateOk(tasks, births, id) {
      assert EmptyHanded(tasks[id]);
    }
    forall id: nat, k: nat, i: nat | i < |owners| ensures !InBlock(tasks, id, k, i) {
      if id < |tasks| && k <= SEGMENT {
        assert EmptyHanded(tasks[id]);
      }
    }
  }

  lemma DaemonKeepsWaits(tasks: seq<Task>, births: seq<nat>, clock: nat, base: int, limit: int)
    requires WaitsOk(tasks, births, clock) && |tasks| > 0
    ensures WaitsOk(tasks[0 := tasks[0].(heapBase := base, heapLimit := limit)], births, clock)
  {
    var after := tasks[0 := tasks[0].(heapBase := base, heapLimit := limit)];
    forall i | 0 <= i < |after| ensures StateOk(after, births, i) {
      assert StateOk(tasks, births, i);
    }
  }

  /** No two allocations of a task start at the same cell. */
  lemma OneBlockPerStart(bits: seq<bool>, tasks: seq<Task>, owners: seq<Owner>, id: nat, ptr: int)
    requires HeapOk(bits, tasks, owners) && id < |tasks| && |tasks[id].table| == MAX_ALLOCATIONS && ptr != -1
    ensures forall j, k | 0 <= j < MAX_ALLOCATIONS && 0 <= k < MAX_ALLOCATIONS
              :: tasks[id].table[j].ptr == ptr && tasks[id].table[k].ptr == ptr ==> j == k
  {
    forall j, k | 0 <= j < MAX_ALLOCATIONS && 0 <= k < MAX_ALLOCATIONS
                  && tasks[id].table[j].ptr == ptr && tasks[id].table[k].ptr == ptr
      ensures j == k
    {
      assert BlockOf(tasks[id], id, j).Fits(|bits|) && BlockOf(tasks[id], id, k).Fits(|bits|);
      assert InBlock(tasks, id, j, ptr) && InBlock(tasks, id, k, ptr);
    }
  }
}
