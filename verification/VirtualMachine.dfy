/** The virtual machine (src/VirtualMachine.cpp) and its code streaming (src/Kernel.cpp). A
    program is never in memory as a whole: a window of 32 bytes is read from its file, refilled
    when it is used up, and thrown away by a jump. The theorem is that this simulates a machine
    over the flat program, as long as execution stays inside the program; behind the program it may
    execute what the window held before. */
module VirtualMachine {
  import opened SectorMap
  import Kernel

  const HEADER: nat := 4
  const WINDOW: nat := 32
  const STACK_SIZE: nat := 64
  const TEXT_SIZE: nat := 127
  const STDOUT: int := 1
  const STDERR: int := 2

  const EXIT: Byte := 0x00
  const PRINT: Byte := 0x01
  const READ: Byte := 0x02
  const PRTC: Byte := 0x03
  const PRTE: Byte := 0x04
  const PRTS: Byte := 0x05
  const PUSH: Byte := 0x10
  const ADD: Byte := 0x11
  const SUB: Byte := 0x12
  const EQ: Byte := 0x13
  const DUP: Byte := 0x14
  const POP: Byte := 0x15
  const JMP: Byte := 0x20
  const JIF: Byte := 0x21
  const SYS: Byte := 0x30
  const SLEEP: Byte := 0x42
  const MALLOC: Byte := 0x50
  const LOAD: Byte := 0x51
  const STORE: Byte := 0x52

  /** What a program shows to the outside. */
  datatype Output =
    | Number(fd: int, val: int)
    | Character(fd: int, c: Byte)
    | Text(text: seq<Byte>)
    | StackOverflow
    | StackUnderflow
    | ReadFault(addr: int)
    | WriteFault(addr: int)
    | SystemCall(id: int)
    | Malloc(size: int)

  /** What other parts of the system make of a task: the heap is shared, a system call takes its
      arguments from the stack and leaves its results there, and a task can be ended from outside. */
  datatype Change = Change(heap: seq<int>, stack: seq<int>, active: bool)

  /** What the kernel answers during one step; `call` is the effect of a system call. */
  datatype Answers = Answers(read: int, malloc: int, ticks: nat, call: Change)

  /** A 16-bit signed integer. */
  function Wrap(n: int): int {
    var m := n % 0x1_0000;
    if m >= 0x8000 then m - 0x1_0000 else m
  }

  function LowByte(n: int): Byte {
    (n % 0x100) as Byte
  }

  // ------------------------------------------------------------ the code stream

  /** The window, the next byte in it, and the file position behind it. */
  datatype Stream = Stream(window: seq<Byte>, index: nat, filePos: nat)

  /** Reads up to a window's worth of bytes over the old ones. */
  function Refilled(file: seq<Byte>, s: Stream): Stream
    requires |s.window| == WINDOW && s.filePos <= |file|
  {
    var n := Min(WINDOW, |file| - s.filePos);
    Stream(file[s.filePos..s.filePos + n] + s.window[n..], 0, s.filePos + n)
  }

  /** A jump discards the window; a target outside the file leaves the file position alone. */
  function Jumped(file: seq<Byte>, s: Stream, addr: int): Stream {
    var pos := Wrap(addr + HEADER);
    Stream(s.window, WINDOW, if 0 <= pos <= |file| then pos else s.filePos)
  }

  /** Fetching finds nothing: the window is used up and so is the file. */
  predicate AtEnd(file: seq<Byte>, s: Stream) {
    s.index >= WINDOW && s.filePos >= |file|
  }

  /** The stream from which the next byte is taken, that byte, and the stream behind it. */
  function Ready(file: seq<Byte>, s: Stream): Stream
    requires |s.window| == WINDOW && s.filePos <= |file|
  {
    if s.index >= WINDOW then Refilled(file, s) else s
  }

  function NextByte(file: seq<Byte>, s: Stream): Byte
    requires |s.window| == WINDOW && s.filePos <= |file| && !AtEnd(file, s)
  {
    Ready(file, s).window[Ready(file, s).index]
  }

  function After(file: seq<Byte>, s: Stream): (r: Stream)
    requires |s.window| == WINDOW && s.filePos <= |file|
    ensures |r.window| == WINDOW && r.filePos <= |file|
  {
    var r := Ready(file, s);
    if AtEnd(file, s) then s else r.(index := r.index + 1)
  }

  /** The window holds the file's bytes from `start` on, as many as there are. */
  predicate Synced(file: seq<Byte>, s: Stream, start: nat) {
    && |s.window| == WINDOW && s.filePos <= |file| && s.index <= WINDOW
    && (s.index < WINDOW ==>
          && start <= s.filePos == start + Min(WINDOW, |file| - start)
          && s.window[..s.filePos - start] == file[start..s.filePos])
  }

  /** The address, in the flat code, of the next byte. */
  function Pc(s: Stream, start: nat): int {
    (if s.index < WINDOW then start + s.index else s.filePos) - HEADER
  }

  function StartAfter(file: seq<Byte>, s: Stream, start: nat): nat {
    if s.index >= WINDOW then s.filePos else start
  }

  function Code(file: seq<Byte>): seq<Byte>
    requires |file| >= HEADER
  {
    file[HEADER..]
  }

  /** Inside the code a fetch gives the byte at the program counter and moves one on. */
  lemma FetchInside(file: seq<Byte>, s: Stream, start: nat)
    requires |file| >= HEADER && Synced(file, s, start) && 0 <= Pc(s, start) < |Code(file)|
    ensures !AtEnd(file, s) && NextByte(file, s) == Code(file)[Pc(s, start)]
    ensures Pc(After(file, s), StartAfter(file, s, start)) == Pc(s, start) + 1
  {
    var r := Ready(file, s);
    if s.index >= WINDOW {
      var n := Min(WINDOW, |file| - s.filePos);
      assert r.window[..n] == file[s.filePos..s.filePos + n];
      assert r.window[0] == r.window[..n][0];
    } else {
      assert r.window[r.index] == r.window[..s.filePos - start][r.index];
    }
  }

  /** A fetch keeps the window in step with the file, wherever it happens. */
  lemma FetchKeepsSynced(file: seq<Byte>, s: Stream, start: nat)
    requires |file| >= HEADER && Synced(file, s, start) && !AtEnd(file, s)
    ensures Synced(file, After(file, s), StartAfter(file, s, start))
  {
    if s.index >= WINDOW {
      var n := Min(WINDOW, |file| - s.filePos);
      assert Refilled(file, s).window[..n] == file[s.filePos..s.filePos + n];
    }
  }

  /** A jump reaches its target exactly when the target, behind the header, is a position of the
      file that a 16-bit integer can hold. */
  predicate Reachable(addr: int, size: nat) {
    0 <= addr + HEADER < 0x8000 && addr <= size
  }

  lemma JumpReaches(file: seq<Byte>, s: Stream, start: nat, addr: int)
    requires |file| >= HEADER && Synced(file, s, start) && -0x8000 <= addr < 0x8000
    ensures Synced(file, Jumped(file, s, addr), start)
    ensures Pc(Jumped(file, s, addr), start) == addr
       <==> Reachable(addr, |Code(file)|) || addr == s.filePos - HEADER
  {}

  /** Behind the last byte of the code the machine stops exactly when the window is used up;
      otherwise it executes what an earlier window left behind. */
  lemma EndOfCode(file: seq<Byte>, s: Stream, start: nat)
    requires |file| >= HEADER && Synced(file, s, start) && Pc(s, start) == |Code(file)|
    ensures AtEnd(file, s) <==> s.index == WINDOW
    ensures !AtEnd(file, s) ==> Ready(file, s) == s && s.index >= s.filePos - start
  {}

  // ------------------------------------------------------------ the flat machine

  /** A machine with the whole program in memory. */
  datatype Flat = Flat(pc: int, stack: seq<int>, heap: seq<int>, active: bool, wakeUp: int, out: seq<Output>)

  function Shown(s: Flat, o: Output): Flat {
    s.(out := s.out + [o])
  }

  function Ended(s: Flat): Flat {
    s.(active := false)
  }

  function Top(s: Flat): int
    requires s.stack != []
  {
    s.stack[|s.stack| - 1]
  }

  function Popped(s: Flat): Flat
    requires s.stack != []
  {
    s.(stack := s.stack[..|s.stack| - 1])
  }

  function Changed(s: Flat, c: Change): Flat {
    s.(heap := c.heap, stack := c.stack, active := s.active && c.active)
  }

  /** A change keeps the heap's size and the stack's bounds. */
  predicate Keeps(c: Change, heapSize: nat) {
    |c.heap| == heapSize && |c.stack| <= STACK_SIZE
  }

  function Pushed(s: Flat, v: int): Flat {
    s.(stack := s.stack + [v])
  }

  function Operand(code: seq<Byte>, pc: int): int
    requires 0 <= pc && pc + 1 < |code|
  {
    Kernel.ToInt(code[pc], code[pc + 1])
  }

  /** How many values an instruction needs on the stack. */
  function Needs(op: Byte): nat {
    if op == ADD || op == SUB || op == EQ || op == STORE then 2
    else if op in {DUP, POP, JIF, PRINT, PRTC, PRTE, PRTS, SYS, SLEEP, MALLOC, LOAD} then 1
    else 0
  }

  /** Whether it needs room for one more. */
  predicate NeedsRoom(op: Byte) {
    op == PUSH || op == DUP || op == READ
  }

  predicate HasOperand(op: Byte) {
    op == PUSH || op == JMP || op == JIF
  }

  function Binary(op: Byte, a: int, b: int): int {
    if op == ADD then Wrap(a + b) else if op == SUB then Wrap(a - b) else if a == b then 1 else 0
  }

  /** The zero-terminated text at a heap address, cut at the size of the text buffer. */
  function TextAt(heap: seq<int>, addr: int, room: nat): seq<Byte>
    decreases room
  {
    if room == 0 || addr < 0 || addr >= |heap| || heap[addr] == 0 then []
    else [LowByte(heap[addr])] + TextAt(heap, addr + 1, room - 1)
  }

  /** A C string ends at its first zero byte. */
  function CString(bytes: seq<Byte>): seq<Byte> {
    if bytes == [] || bytes[0] == 0 then [] else [bytes[0]] + CString(bytes[1..])
  }

  function Printing(op: Byte, s: Flat, task: Kernel.Task): Flat
    requires op in {PRINT, PRTC, PRTE, PRTS} && s.stack != []
  {
    var v, t := Top(s), Popped(s);
    if op == PRINT then Shown(Shown(t, Number(STDOUT, v)), Character(STDOUT, 10))
    else if op == PRTC then Shown(t, Character(STDOUT, LowByte(v)))
    else if op == PRTE then Shown(Shown(t, Number(STDERR, v)), Character(STDERR, 10))
    else Shown(t, Text(CString(TextAt(s.heap, Kernel.PhysAddr(task, v), TEXT_SIZE))))
  }

  function Asking(op: Byte, s: Flat, answers: Answers): Flat
    requires op in {READ, SYS, SLEEP, MALLOC} && (op == READ || s.stack != [])
  {
    if op == READ then Pushed(s, if answers.read != -1 then answers.read else 0)
    else if op == SYS then Changed(Shown(Popped(s), SystemCall(Top(s))), answers.call)
    else if op == SLEEP then Popped(s).(wakeUp := (answers.ticks + Top(s)) % 0x1_0000_0000)
    else Shown(Pushed(Popped(s), if answers.malloc == -1 then 0 else answers.malloc), Malloc(Top(s)))
  }

  function Memory(op: Byte, s: Flat, task: Kernel.Task): Flat
    requires op in {LOAD, STORE} && |s.stack| >= Needs(op)
  {
    var phys := Kernel.PhysAddr(task, Top(s));
    var t := Popped(s);
    if op == LOAD then
      if 0 <= phys < |s.heap| then Pushed(t, s.heap[phys]) else Ended(Shown(t, ReadFault(phys)))
    else
      if 0 <= phys < |s.heap| then Popped(t).(heap := s.heap[phys := Top(t)]) else Ended(Shown(Popped(t), WriteFault(phys)))
  }

  /** The effect of an instruction that has its values, its room and its operand. */
  function Effect(op: Byte, operand: int, s: Flat, answers: Answers, task: Kernel.Task): Flat
    requires |s.stack| >= Needs(op)
  {
    if op == PUSH then Pushed(s, operand)
    else if op == ADD || op == SUB || op == EQ then
      Pushed(Popped(Popped(s)), Binary(op, Top(Popped(s)), Top(s)))
    else if op == DUP then Pushed(s, Top(s))
    else if op == POP then Popped(s)
    else if op == JMP then s.(pc := operand)
    else if op == JIF then if Top(s) != 0 then Popped(s).(pc := operand) else Popped(s)
    else if op in {PRINT, PRTC, PRTE, PRTS} then Printing(op, s, task)
    else if op in {READ, SYS, SLEEP, MALLOC} then Asking(op, s, answers)
    else if op in {LOAD, STORE} then Memory(op, s, task)
    else if op == EXIT then Ended(s)
    else s
  }

  /** The checks an instruction passes before it does anything. */
  predicate Proceeds(op: Byte, s: Flat) {
    |s.stack| >= Needs(op) && (NeedsRoom(op) ==> |s.stack| < STACK_SIZE)
  }

  /** The instruction at the program counter lies inside the code, and a jump stays in reach. */
  predicate Whole(code: seq<Byte>, s: Flat) {
    && 0 <= s.pc < |code|
    && (HasOperand(code[s.pc]) && Proceeds(code[s.pc], s) ==>
          && s.pc + 2 < |code|
          && (code[s.pc] == JMP || (code[s.pc] == JIF && Top(s) != 0) ==> Reachable(Operand(code, s.pc + 1), |code|)))
  }

  /** The end of a task whose instruction fails its checks. */
  function Refused(op: Byte, s: Flat): Flat {
    Ended(Shown(s, if |s.stack| < Needs(op) then StackUnderflow else StackOverflow))
  }

  function FlatStep(code: seq<Byte>, s: Flat, answers: Answers, task: Kernel.Task): Flat
    requires Whole(code, s)
  {
    var op := code[s.pc];
    if !Proceeds(op, s) then Refused(op, s.(pc := s.pc + 1))
    else if HasOperand(op) then Effect(op, Operand(code, s.pc + 1), s.(pc := s.pc + 3), answers, task)
    else Effect(op, 0, s.(pc := s.pc + 1), answers, task)
  }

  /** One turn of a task: what others did to its memory since its last one, and its step. */
  datatype Turn = Turn(before: Change, answers: Answers)

  predicate FlatTurnWhole(code: seq<Byte>, s: Flat, turn: Turn) {
    Changed(s, turn.before).active ==> Whole(code, Changed(s, turn.before))
  }

  function FlatTurn(code: seq<Byte>, s: Flat, turn: Turn, task: Kernel.Task): Flat
    requires FlatTurnWhole(code, s, turn)
  {
    var t := Changed(s, turn.before);
    if t.active then FlatStep(code, t, turn.answers, task) else t
  }

  function FlatRun(code: seq<Byte>, s: Flat, run: seq<Turn>, task: Kernel.Task): Flat
    requires Inside(code, s, run, task)
    decreases |run|
  {
    if run == [] || !s.active then s else FlatRun(code, FlatTurn(code, s, run[0], task), run[1..], task)
  }

  /** The flat program never leaves its code during the run. */
  predicate Inside(code: seq<Byte>, s: Flat, run: seq<Turn>, task: Kernel.Task)
    decreases |run|
  {
    run == [] || !s.active
    || (FlatTurnWhole(code, s, run[0]) && Inside(code, FlatTurn(code, s, run[0], task), run[1..], task))
  }

  // ------------------------------------------------------------ the instruction set, by its numbers

  /** n is the signed 16-bit integer that agrees with m in its lower 16 bits. */
  ghost predicate Is16(n: int, m: int) {
    -0x8000 <= n < 0x8000 && (n - m) % 0x1_0000 == 0
  }

  ghost predicate TextByte(t: seq<Byte>, heap: seq<int>, addr: int, i: nat)
    requires i < |t|
  {
    0 <= addr + i < |heap| && heap[addr + i] % 256 == t[i] as int && t[i] != 0
  }

  /** The text at a heap address: bytes up to the first value whose low byte is zero, to the end of the
      heap, or to the 127 that fit. */
  ghost predicate IsText(t: seq<Byte>, heap: seq<int>, addr: int) {
    && |t| <= 127
    && (forall i: nat :: i < |t| ==> TextByte(t, heap, addr, i))
    && (|t| == 127 || addr + |t| < 0 || addr + |t| >= |heap| || heap[addr + |t|] % 256 == 0)
  }

  /** How many values the instruction takes from the stack. */
  function Takes(op: int): nat {
    if op in {0x11, 0x12, 0x13, 0x52} then 2
    else if op in {0x01, 0x03, 0x04, 0x05, 0x14, 0x15, 0x21, 0x30, 0x42, 0x50, 0x51} then 1
    else 0
  }

  /** Two values on top give way to one: their sum, difference or equality. */
  ghost predicate Calculates(op: int, before: seq<int>, after: seq<int>) {
    var k := |before| - 2;
    && k >= 0 && |after| == k + 1 && after[..k] == before[..k]
    && if op == 0x11 then Is16(after[k], before[k] + before[k + 1])
       else if op == 0x12 then Is16(after[k], before[k] - before[k + 1])
       else after[k] in {0, 1} && (after[k] == 1 <==> before[k] == before[k + 1])
  }

  /** PUSH, JMP and JIF, with n the operand. */
  ghost predicate MovesOn(op: int, n: int, s: Flat, s': Flat) {
    if op == 0x10 then
      s' == s.(pc := s.pc + 3, stack := s.stack + [n])
    else if op == 0x20 then
      s' == s.(pc := n)
    else
      && s.stack != []
      && s' == s.(pc := if s.stack[|s.stack| - 1] != 0 then n else s.pc + 3, stack := s.stack[..|s.stack| - 1])
  }

  /** PRINT, PRTC, PRTE and PRTS, with v the value taken and p its heap-wide address. */
  ghost predicate Prints(op: int, v: int, p: int, s: Flat, s': Flat) {
    && s' == s.(pc := s.pc + 1, stack := s'.stack, out := s'.out)
    && if op == 0x01 then s'.out == s.out + [Number(1, v), Character(1, 10)]
       else if op == 0x04 then s'.out == s.out + [Number(2, v), Character(2, 10)]
       else
         && |s'.out| == |s.out| + 1 && s'.out[..|s.out|] == s.out
         && match s'.out[|s.out|]
            case Character(fd, c) => op == 0x03 && fd == 1 && c as int == v % 256
            case Text(t) => op == 0x05 && IsText(t, s.heap, p)
            case _ => false
  }

  /** LOAD and STORE, with p the heap-wide address. */
  ghost predicate Accesses(op: int, p: int, s: Flat, s': Flat) {
    var k := |s.stack| - 1;
    if op == 0x51 then
      && k >= 0
      && if 0 <= p < |s.heap| then s' == s.(pc := s.pc + 1, stack := s.stack[..k] + [s.heap[p]])
         else s' == s.(pc := s.pc + 1, stack := s.stack[..k], out := s.out + [ReadFault(p)], active := false)
    else
      && k >= 1
      && if 0 <= p < |s.heap| then s' == s.(pc := s.pc + 1, stack := s.stack[..k - 1], heap := s.heap[p := s.stack[k - 1]])
         else s' == s.(pc := s.pc + 1, stack := s.stack[..k - 1], out := s.out + [WriteFault(p)], active := false)
  }

  /** READ, SYS, SLEEP and MALLOC, with the kernel's answers. */
  ghost predicate Asks(op: int, s: Flat, s': Flat, answers: Answers) {
    var k := |s.stack| - 1;
    if op == 0x02 then
      s' == s.(pc := s.pc + 1, stack := s.stack + [if answers.read == -1 then 0 else answers.read])
    else
      && k >= 0
      && if op == 0x30 then
           s' == s.(pc := s.pc + 1, out := s.out + [SystemCall(s.stack[k])], stack := answers.call.stack,
                    heap := answers.call.heap, active := s.active && answers.call.active)
         else if op == 0x42 then
           && s' == s.(pc := s.pc + 1, stack := s.stack[..k], wakeUp := s'.wakeUp)
           && 0 <= s'.wakeUp < 0x1_0000_0000 && (s'.wakeUp - (answers.ticks + s.stack[k])) % 0x1_0000_0000 == 0
         else
           s' == s.(pc := s.pc + 1, out := s.out + [Malloc(s.stack[k])],
                    stack := s.stack[..k] + [if answers.malloc == -1 then 0 else answers.malloc])
  }

  /** What one step does, by the number of its instruction in the code. */
  ghost predicate Obeys(code: seq<Byte>, s: Flat, s': Flat, answers: Answers, task: Kernel.Task)
    requires 0 <= s.pc < |code|
  {
    var op, k := code[s.pc] as int, |s.stack|;
    if k < Takes(op) then
      s' == s.(pc := s.pc + 1, out := s.out + [StackUnderflow], active := false)
    else if op in {0x02, 0x10, 0x14} && k >= 64 then
      s' == s.(pc := s.pc + 1, out := s.out + [StackOverflow], active := false)
    else if op in {0x10, 0x20, 0x21} then
      && s.pc + 2 < |code|
      && exists n :: Is16(n, code[s.pc + 1] as int + 256 * code[s.pc + 2] as int) && MovesOn(op, n, s, s')
    else if op in {0x11, 0x12, 0x13} then
      s' == s.(pc := s.pc + 1, stack := s'.stack) && Calculates(op, s.stack, s'.stack)
    else if op == 0x14 then
      s' == s.(pc := s.pc + 1, stack := s.stack + [s.stack[k - 1]])
    else if op == 0x15 then
      s' == s.(pc := s.pc + 1, stack := s.stack[..k - 1])
    else if op in {0x01, 0x03, 0x04, 0x05} then
      s'.stack == s.stack[..k - 1] && Prints(op, s.stack[k - 1], Located(task, s.stack[k - 1]), s, s')
    else if op in {0x51, 0x52} then
      Accesses(op, Located(task, s.stack[k - 1]), s, s')
    else if op in {0x02, 0x30, 0x42, 0x50} then
      Asks(op, s, s', answers)
    else
      s' == s.(pc := s.pc + 1, active := s.active && op != 0)
  }

  /** Addresses below the size of the task's segment count from its start. */
  function Located(task: Kernel.Task, addr: int): int {
    if 0 <= addr < task.heapLimit then task.heapBase + addr else addr
  }

  lemma {:induction false} TextIsText(heap: seq<int>, addr: int, room: nat)
    ensures var t := CString(TextAt(heap, addr, room));
            && |t| <= room
            && (forall i: nat :: i < |t| ==> TextByte(t, heap, addr, i))
            && (|t| == room || addr + |t| < 0 || addr + |t| >= |heap| || heap[addr + |t|] % 256 == 0)
    decreases room
  {
    if room > 0 && 0 <= addr < |heap| && heap[addr] != 0 {
      var all, more := TextAt(heap, addr, room), TextAt(heap, addr + 1, room - 1);
      assert all == [LowByte(heap[addr])] + more && all[1..] == more;
      if heap[addr] % 256 != 0 {
        TextIsText(heap, addr + 1, room - 1);
        var t, u := CString(all), CString(more);
        assert t == [LowByte(heap[addr])] + u;
        forall i: nat | i < |t| ensures TextByte(t, heap, addr, i) {
          assert i > 0 ==> TextByte(u, heap, addr + 1, i - 1);
        }
      } else {
        assert CString(all) == [];
      }
    }
  }

  lemma OperandIs16(code: seq<Byte>, pc: int)
    requires 0 <= pc && pc + 1 < |code|
    ensures Is16(Operand(code, pc), code[pc] as int + 256 * code[pc + 1] as int)
  {}

  lemma BinaryCalculates(op: Byte, s: Flat)
    requires op in {0x11, 0x12, 0x13} && |s.stack| >= 2
    ensures Calculates(op as int, s.stack, Pushed(Popped(Popped(s)), Binary(op, Top(Popped(s)), Top(s))).stack)
  {}

  lemma PrintingPrints(op: Byte, s: Flat, task: Kernel.Task)
    requires op in {0x01, 0x03, 0x04, 0x05} && s.stack != []
    ensures var s' := Printing(op, s.(pc := s.pc + 1), task);
            s'.stack == s.stack[..|s.stack| - 1] && Prints(op as int, Top(s), Located(task, Top(s)), s, s')
  {
    hide TextAt, CString;
    TextIsText(s.heap, Located(task, Top(s)), 127);
  }

  lemma MemoryAccesses(op: Byte, s: Flat, task: Kernel.Task)
    requires op in {0x51, 0x52} && |s.stack| >= Takes(op as int)
    ensures Accesses(op as int, Located(task, Top(s)), s, Memory(op, s.(pc := s.pc + 1), task))
  {}

  lemma AskingAsks(op: Byte, s: Flat, answers: Answers)
    requires op in {0x02, 0x30, 0x42, 0x50} && |s.stack| >= Takes(op as int)
    ensures Asks(op as int, s, Asking(op, s.(pc := s.pc + 1), answers), answers)
  {
    if op == 0x42 {
      SameRemainder(answers.ticks + Top(s));
    }
  }

  lemma SameRemainder(n: int)
    ensures (n % 0x1_0000_0000 - n) % 0x1_0000_0000 == 0
  {}

  lemma StepObeys(code: seq<Byte>, s: Flat, answers: Answers, task: Kernel.Task)
    requires Whole(code, s)
    ensures Obeys(code, s, FlatStep(code, s, answers, task), answers, task)
  {
    hide Binary, Printing, Memory, Asking, Calculates, Prints, Accesses, Asks, Operand, Is16, Located, Reachable;
    var op := code[s.pc];
    if Proceeds(op, s) {
      if HasOperand(op) {
        OperandIs16(code, s.pc + 1);
        assert MovesOn(op as int, Operand(code, s.pc + 1), s, FlatStep(code, s, answers, task));
      } else if op in {ADD, SUB, EQ} {
        BinaryCalculates(op, s.(pc := s.pc + 1));
      } else if op in {PRINT, PRTC, PRTE, PRTS} {
        PrintingPrints(op, s, task);
      } else if op in {LOAD, STORE} {
        MemoryAccesses(op, s, task);
      } else if op in {READ, SYS, SLEEP, MALLOC} {
        AskingAsks(op, s, answers);
      }
    }
  }

  // ------------------------------------------------------------ one step, anywhere

  function ByteOrZero(file: seq<Byte>, s: Stream): Byte
    requires |s.window| == WINDOW && s.filePos <= |file|
  {
    if AtEnd(file, s) then 0 else NextByte(file, s)
  }

  /** The state of a task apart from its program counter, which the stream carries. */
  function Bare(s: Flat): Flat {
    s.(pc := 0)
  }

  predicate Jumps(op: Byte, s: Flat)
    requires |s.stack| >= Needs(op)
  {
    op == JMP || (op == JIF && Top(s) != 0)
  }

  /** An instruction behind its checks whose operand, if it has one, is cut off at the end of the
      stream where that ends; then the task is ended, and what is left of the instruction is done. */
  function StreamOperand(file: seq<Byte>, s: Stream): (int, Stream, bool)
    requires |s.window| == WINDOW && s.filePos <= |file|
  {
    var t := After(file, s);
    (Kernel.ToInt(ByteOrZero(file, s), ByteOrZero(file, t)), After(file, t), !AtEnd(file, s) && !AtEnd(file, t))
  }

  /** What an instruction does once it is fetched, in any state. */
  function Executed(file: seq<Byte>, op: Byte, s: Stream, f: Flat, answers: Answers, task: Kernel.Task): (Stream, Flat)
    requires |s.window| == WINDOW && s.filePos <= |file|
  {
    if !Proceeds(op, f) then (s, Refused(op, f))
    else if HasOperand(op) then
      var (n, t, whole) := StreamOperand(file, s);
      (if Jumps(op, f) then Jumped(file, t, n) else t,
       Effect(op, n, if whole then f else Ended(f), answers, task))
    else (s, Effect(op, 0, f, answers, task))
  }

  /** One step of the machine in any state, inside its program or behind it. */
  function StreamStep(file: seq<Byte>, s: Stream, f: Flat, answers: Answers, task: Kernel.Task): (Stream, Flat)
    requires |s.window| == WINDOW && s.filePos <= |file|
  {
    if AtEnd(file, s) then (s, Ended(f))
    else Executed(file, NextByte(file, s), After(file, s), f, answers, task)
  }

  /** The program counter plays no part in what an instruction does to the rest. */
  lemma EffectBare(op: Byte, operand: int, s: Flat, t: Flat, answers: Answers, task: Kernel.Task)
    requires |s.stack| >= Needs(op) && Bare(s) == Bare(t)
    ensures Bare(Effect(op, operand, s, answers, task)) == Bare(Effect(op, operand, t, answers, task))
  {
    hide Printing, Memory, Asking, Wrap;
    if op in {PRINT, PRTC, PRTE, PRTS} {
      PrintingBare(op, s, t, task);
    } else if op in {LOAD, STORE} {
      MemoryBare(op, s, t, task);
    } else if op in {READ, SYS, SLEEP, MALLOC} {
      AskingBare(op, s, t, answers);
    }
  }

  lemma PrintingBare(op: Byte, s: Flat, t: Flat, task: Kernel.Task)
    requires op in {PRINT, PRTC, PRTE, PRTS} && s.stack != [] && Bare(s) == Bare(t)
    ensures Bare(Printing(op, s, task)) == Bare(Printing(op, t, task))
  {
    hide TextAt, CString, LowByte;
  }

  lemma MemoryBare(op: Byte, s: Flat, t: Flat, task: Kernel.Task)
    requires op in {LOAD, STORE} && |s.stack| >= Needs(op) && Bare(s) == Bare(t)
    ensures Bare(Memory(op, s, task)) == Bare(Memory(op, t, task))
  {}

  lemma AskingBare(op: Byte, s: Flat, t: Flat, answers: Answers)
    requires op in {READ, SYS, SLEEP, MALLOC} && (op == READ || s.stack != []) && Bare(s) == Bare(t)
    ensures Bare(Asking(op, s, answers)) == Bare(Asking(op, t, answers))
  {}

  lemma ExecutedBare(file: seq<Byte>, op: Byte, s: Stream, f: Flat, g: Flat, answers: Answers, task: Kernel.Task)
    requires |s.window| == WINDOW && s.filePos <= |file| && Bare(f) == Bare(g)
    ensures Executed(file, op, s, f, answers, task).0 == Executed(file, op, s, g, answers, task).0
    ensures Bare(Executed(file, op, s, f, answers, task).1) == Bare(Executed(file, op, s, g, answers, task).1)
  {
    hide Effect, StreamOperand, Jumped;
    if Proceeds(op, f) {
      var (n, t, whole) := StreamOperand(file, s);
      EffectBare(op, 0, f, g, answers, task);
      EffectBare(op, n, f, g, answers, task);
      EffectBare(op, n, Ended(f), Ended(g), answers, task);
    }
  }

  lemma TextStep(heap: seq<int>, addr: int, room: nat, before: seq<Byte>)
    requires 0 <= addr < |heap| && room > 0
    ensures before + TextAt(heap, addr, room) ==
              if heap[addr] == 0 then before else before + [LowByte(heap[addr])] + TextAt(heap, addr + 1, room - 1)
  {
    hide LowByte;
  }

  lemma NoText(heap: seq<int>, addr: int, room: nat)
    requires room == 0 || addr < 0 || addr >= |heap|
    ensures TextAt(heap, addr, room) == []
  {}

  // ------------------------------------------------------------ the streamed machine

  method Overwrite(a: array<int>, v: seq<int>)
    requires |v| <= a.Length
    modifies a
    ensures a[..|v|] == v
  {
    for i := 0 to |v|
      invariant a[..i] == v[..i]
    {
      a[i] := v[i];
    }
  }

  class Machine {
    const file: seq<Byte>
    const task: Kernel.Task
    const window: array<Byte>
    const stack: array<int>
    const heap: array<int>
    var index: nat
    var filePos: nat
    var sp: int
    var active: bool
    var wakeUp: int
    var out: seq<Output>
    ghost var start: nat

    ghost predicate Shape()
      reads this, window, stack, heap
    {
      && |file| >= HEADER && window.Length == WINDOW && stack.Length == STACK_SIZE
      && stack != heap && -1 <= sp < STACK_SIZE
      && filePos <= |file| && index <= WINDOW
    }

    ghost predicate Valid()
      reads this, window, stack, heap
    {
      Shape() && Synced(file, StreamNow(), start)
    }

    ghost function StreamNow(): Stream
      reads this, window
    {
      Stream(window[..], index, filePos)
    }

    ghost function Abstract(): Flat
      reads this, window, stack, heap
      requires Shape()
    {
      Flat(Pc(StreamNow(), start), stack[..sp + 1], heap[..], active, wakeUp, out)
    }

    /** A freshly loaded task: the header is read, and the first window after it, over whatever
        the window held before. */
    constructor (executable: seq<Byte>, stale: seq<Byte>, owner: Kernel.Task, memory: array<int>)
      requires |executable| >= HEADER && |stale| == WINDOW
      ensures Valid() && fresh(window) && fresh(stack) && heap == memory && file == executable && task == owner
      ensures Abstract() == Flat(0, [], memory[..], true, 0, []) && window.Length == 32 && stack.Length == 64
      ensures StreamNow() == Refilled(executable, Stream(stale, WINDOW, HEADER))
    {
      file, task, heap := executable, owner, memory;
      window := new Byte[WINDOW](i requires 0 <= i < WINDOW => stale[i]);
      stack := new int[STACK_SIZE];
      index, filePos, start := WINDOW, HEADER, HEADER;
      sp, active, wakeUp, out := -1, true, 0, [];
      new;
      FillWindow();
    }

    /** Reads up to a window's worth of bytes over the old ones. */
    method FillWindow()
      requires Shape()
      modifies this`index, this`filePos, window
      ensures Shape() && StreamNow() == Refilled(file, old(StreamNow()))
    {
      var n := Min(WINDOW, |file| - filePos);
      for i := 0 to n
        modifies window
        invariant window[..i] == file[filePos..filePos + i]
        invariant window[i..] == old(window[i..])
      {
        window[i] := file[filePos + i];
      }
      assert window[..] == window[..n] + window[n..];
      assert old(window[..])[n..] == old(window[n..]);
      filePos := filePos + n;
      index := 0;
    }

    method Terminate()
      modifies this`active
      ensures !active
    {
      active := false;
    }

    method RefillBuffer()
      requires Shape() && index >= WINDOW
      modifies this`active, this`index, this`filePos, this`start, window
      ensures Shape()
      ensures old(filePos) >= |file| ==> !active && StreamNow() == old(StreamNow()) && start == old(start)
      ensures old(filePos) < |file| ==>
                && active == old(active) && start == old(filePos)
                && StreamNow() == Refilled(file, old(StreamNow()))
    {
      if filePos < |file| {
        start := filePos;
        FillWindow();
      } else {
        Terminate();
      }
    }

    method Jump(addr: int)
      requires Valid()
      modifies this`index, this`filePos
      ensures Valid() && StreamNow() == Jumped(file, old(StreamNow()), addr)
    {
      var pos := Wrap(addr + HEADER);
      if 0 <= pos <= |file| {
        filePos := pos;
      }
      index := WINDOW;
    }

    /** The next byte of the window; refilled when it is used up. With no byte left the task
        ends. */
    method FetchByte() returns (b: Byte)
      requires Valid() && (active || AtEnd(file, StreamNow()))
      modifies this`active, this`index, this`filePos, this`start, window
      ensures Valid() && StreamNow() == After(file, old(StreamNow()))
      ensures b == ByteOrZero(file, old(StreamNow()))
      ensures active == (old(active) && !AtEnd(file, old(StreamNow())))
      ensures 0 <= Pc(old(StreamNow()), old(start)) < |Code(file)| ==>
                && active == old(active) && b == Code(file)[Pc(old(StreamNow()), old(start))]
                && Pc(StreamNow(), start) == Pc(old(StreamNow()), old(start)) + 1
    {
      ghost var was, wasStart := StreamNow(), start;
      if 0 <= Pc(was, wasStart) < |Code(file)| {
        FetchInside(file, was, wasStart);
      }
      if !AtEnd(file, was) {
        FetchKeepsSynced(file, was, wasStart);
      }
      if index >= WINDOW {
        RefillBuffer();
        if !active {
          return 0;
        }
      }
      b := window[index];
      index := index + 1;
    }

    /** A two-byte operand, wherever it lies relative to the windows. */
    method FetchInt() returns (n: int)
      requires Valid() && active
      modifies this`active, this`index, this`filePos, this`start, window
      ensures Valid() && (n, StreamNow(), active) == StreamOperand(file, old(StreamNow()))
      ensures 0 <= Pc(old(StreamNow()), old(start)) && Pc(old(StreamNow()), old(start)) + 1 < |Code(file)| ==>
                && active && n == Operand(Code(file), Pc(old(StreamNow()), old(start)))
                && Is16(n, Code(file)[Pc(old(StreamNow()), old(start))] as int
                           + 256 * Code(file)[Pc(old(StreamNow()), old(start)) + 1] as int)
                && Pc(StreamNow(), start) == Pc(old(StreamNow()), old(start)) + 2
    {
      hide Synced;
      ghost var at := Pc(StreamNow(), start);
      if 0 <= at && at + 1 < |Code(file)| {
        OperandIs16(Code(file), at);
      }
      var low := FetchByte();
      var high := FetchByte();
      n := Kernel.ToInt(low, high);
    }

    method Push(v: int)
      requires Valid() && sp < STACK_SIZE - 1
      modifies this`sp, stack
      ensures Valid() && Abstract() == Pushed(old(Abstract()), v)
    {
      sp := sp + 1;
      stack[sp] := v;
    }

    method Pop() returns (v: int)
      requires Valid() && sp >= 0
      modifies this`sp
      ensures Valid() && sp == old(sp) - 1
      ensures v == Top(old(Abstract())) && Abstract() == Popped(old(Abstract()))
    {
      v := stack[sp];
      sp := sp - 1;
    }

    method Write(o: Output)
      requires Valid()
      modifies this`out
      ensures Valid() && Abstract() == Shown(old(Abstract()), o)
    {
      out := out + [o];
    }

    /** Copies heap values into a text buffer, up to a zero, the heap's end or the buffer's. */
    method ReadText(addr: int) returns (text: seq<Byte>)
      ensures text == TextAt(heap[..], addr, TEXT_SIZE)
    {
      hide LowByte, TextAt;
      var phys := addr;
      text := [];
      while 0 <= phys < heap.Length && |text| < TEXT_SIZE
        invariant |text| <= TEXT_SIZE
        invariant text + TextAt(heap[..], phys, TEXT_SIZE - |text|) == TextAt(heap[..], addr, TEXT_SIZE)
        decreases TEXT_SIZE - |text|
      {
        TextStep(heap[..], phys, TEXT_SIZE - |text|, text);
        var val := heap[phys];
        if val == 0 {
          return;
        }
        text := text + [LowByte(val)];
        phys := phys + 1;
      }
      NoText(heap[..], phys, TEXT_SIZE - |text|);
    }

    /** Ends the task with a message when the stack does not hold `count` values. */
    method CheckUnderflow(count: nat) returns (ok: bool)
      requires Valid() && active
      modifies this`active, this`out
      ensures Valid() && ok == (|old(Abstract()).stack| >= count)
      ensures Abstract() == if ok then old(Abstract()) else Ended(Shown(old(Abstract()), StackUnderflow))
    {
      ok := true;
      if sp < count - 1 {
        Write(StackUnderflow);
        Terminate();
        ok := false;
      }
    }

    method CheckOverflow() returns (ok: bool)
      requires Valid() && active
      modifies this`active, this`out
      ensures Valid() && ok == (|old(Abstract()).stack| < STACK_SIZE)
      ensures Abstract() == if ok then old(Abstract()) else Ended(Shown(old(Abstract()), StackOverflow))
    {
      ok := true;
      if sp >= STACK_SIZE - 1 {
        Write(StackOverflow);
        Terminate();
        ok := false;
      }
    }

    method StepBinary(op: Byte)
      requires Valid() && (op == ADD || op == SUB || op == EQ) && sp >= 1
      modifies this`sp, stack
      ensures Valid() && Abstract() == Pushed(Popped(Popped(old(Abstract()))),
                                              Binary(op, Top(Popped(old(Abstract()))), Top(old(Abstract()))))
    {
      hide Synced;
      if op == ADD {
        var a := Pop();
        var b := Pop();
        Push(Wrap(a + b));
      } else if op == SUB {
        var b := Pop();
        var a := Pop();
        Push(Wrap(a - b));
      } else {
        var a := Pop();
        var b := Pop();
        Push(if a == b then 1 else 0);
      }
    }

    method StepPrinting(op: Byte)
      requires Valid() && op in {PRINT, PRTC, PRTE, PRTS} && sp >= 0
      modifies this`sp, this`out
      ensures Valid() && Abstract() == Printing(op, old(Abstract()), task)
    {
      hide Synced;
      var val := Pop();
      if op == PRINT {
        Write(Number(STDOUT, val));
        Write(Character(STDOUT, 10));
      } else if op == PRTC {
        Write(Character(STDOUT, LowByte(val)));
      } else if op == PRTE {
        Write(Number(STDERR, val));
        Write(Character(STDERR, 10));
      } else {
        var text := ReadText(Kernel.PhysAddr(task, val));
        Write(Text(CString(text)));
      }
    }

    /** Others write the heap and the stack, and may end the task. */
    method Disturb(c: Change)
      requires Valid() && Keeps(c, heap.Length)
      modifies this`sp, this`active, stack, heap
      ensures Valid() && Abstract() == Changed(old(Abstract()), c)
    {
      hide Synced;
      Overwrite(heap, c.heap);
      Overwrite(stack, c.stack);
      sp := |c.stack| - 1;
      active := active && c.active;
      assert heap[..] == heap[..heap.Length];
    }

    method StepAsking(op: Byte, answers: Answers)
      requires Valid() && op in {READ, SYS, SLEEP, MALLOC} && Keeps(answers.call, heap.Length)
      requires if op == READ then sp < STACK_SIZE - 1 else sp >= 0
      modifies this`sp, this`out, this`wakeUp, this`active, stack, heap
      ensures Valid() && Abstract() == Asking(op, old(Abstract()), answers)
    {
      hide Synced;
      if op == READ {
        var val := answers.read;
        Push(if val != -1 then val else 0);
      } else if op == SYS {
        var id := Pop();
        Write(SystemCall(id));
        Disturb(answers.call);
      } else if op == SLEEP {
        var ms := Pop();
        wakeUp := (answers.ticks + ms) % 0x1_0000_0000;
      } else {
        var size := Pop();
        Write(Malloc(size));
        var addr := answers.malloc;
        Push(if addr == -1 then 0 else addr);
      }
    }

    method StepMemory(op: Byte)
      requires Valid() && op in {LOAD, STORE} && sp >= Needs(op) - 1
      modifies this`sp, this`out, this`active, stack, heap
      ensures Valid() && Abstract() == Memory(op, old(Abstract()), task)
    {
      hide Synced;
      var addr := Pop();
      var phys := Kernel.PhysAddr(task, addr);
      if op == LOAD {
        if 0 <= phys < heap.Length {
          Push(heap[phys]);
        } else {
          Write(ReadFault(phys));
          Terminate();
        }
      } else {
        Store(phys);
      }
    }

    method Store(phys: int)
      requires Valid() && sp >= 0
      modifies this`sp, this`out, this`active, heap
      ensures Valid()
      ensures var s := old(Abstract());
              Abstract() == if 0 <= phys < |s.heap| then Popped(s).(heap := s.heap[phys := Top(s)])
                            else Ended(Shown(Popped(s), WriteFault(phys)))
    {
      hide Synced;
      var val := Pop();
      if 0 <= phys < heap.Length {
        heap[phys] := val;
      } else {
        Write(WriteFault(phys));
        Terminate();
      }
    }

    /** The instructions with an operand, behind their checks. */
    method StepOperand(op: Byte, ghost answers: Answers)
      requires Valid() && active && HasOperand(op)
      requires if op == PUSH then sp < STACK_SIZE - 1 else op == JIF ==> sp >= 0
      modifies this`active, this`index, this`filePos, this`start, this`sp, window, stack
      ensures Valid()
      ensures var f := old(Abstract());
              var (n, u, whole) := StreamOperand(file, old(StreamNow()));
              && StreamNow() == (if Jumps(op, f) then Jumped(file, u, n) else u)
              && Bare(Abstract()) == Bare(Effect(op, n, if whole then f else Ended(f), answers, task))
      ensures var f := old(Abstract());
              0 <= f.pc && f.pc + 1 < |Code(file)|
              && (Jumps(op, f) ==> Reachable(Operand(Code(file), f.pc), |Code(file)|)) ==>
                Abstract() == Effect(op, Operand(Code(file), f.pc), f.(pc := f.pc + 2), answers, task)
    {
      hide Synced, Jumped, StreamOperand, Operand, Code, Reachable;
      var n := FetchInt();
      if op == PUSH {
        Push(n);
      } else {
        OperandRange(file, old(StreamNow()));
        Branch(op, n, answers);
      }
    }

    /** JMP and JIF with their target. */
    method Branch(op: Byte, n: int, ghost answers: Answers)
      requires Valid() && (op == JMP || op == JIF) && (op == JIF ==> sp >= 0) && -0x8000 <= n < 0x8000
      modifies this`index, this`filePos, this`sp
      ensures Valid()
      ensures StreamNow() == if Jumps(op, old(Abstract())) then Jumped(file, old(StreamNow()), n) else old(StreamNow())
      ensures Bare(Abstract()) == Bare(Effect(op, n, old(Abstract()), answers, task))
      ensures (Jumps(op, old(Abstract())) ==> Reachable(n, |Code(file)|)) ==>
                Abstract() == Effect(op, n, old(Abstract()), answers, task)
    {
      hide Synced, Jumped;
      if op == JMP {
        JumpReaches(file, StreamNow(), start, n);
        Jump(n);
      } else {
        var condition := Pop();
        if condition != 0 {
          JumpReaches(file, StreamNow(), start, n);
          Jump(n);
        }
      }
    }

    /** An instruction, once it is fetched. */
    method Execute(op: Byte, answers: Answers)
      requires Valid() && active && Keeps(answers.call, heap.Length)
      modifies this`active, this`index, this`filePos, this`start, this`sp, this`out, this`wakeUp, window, stack, heap
      ensures Valid()
      ensures var (s, f) := Executed(file, op, old(StreamNow()), old(Abstract()), answers, task);
              StreamNow() == s && Bare(Abstract()) == Bare(f)
      ensures var f := old(Abstract());
              Abstract() == if !Proceeds(op, f) then Refused(op, f)
                else if !HasOperand(op) then Effect(op, 0, f, answers, task)
                else if 0 <= f.pc && f.pc + 1 < |Code(file)|
                        && (Jumps(op, f) ==> Reachable(Operand(Code(file), f.pc), |Code(file)|))
                then Effect(op, Operand(Code(file), f.pc), f.(pc := f.pc + 2), answers, task)
                else Abstract()
    {
      hide Synced, Effect, StreamOperand, Jumped;
      var ok := CheckUnderflow(Needs(op));
      if !ok {
        return;
      }
      if NeedsRoom(op) {
        ok := CheckOverflow();
        if !ok {
          return;
        }
      }
      if HasOperand(op) {
        StepOperand(op, answers);
      } else {
        StepPlain(op, answers);
      }
    }

    /** One instruction, in any state. Inside the program it does what it does in flat memory. */
    method RunStep(answers: Answers)
      requires Valid() && active && Keeps(answers.call, heap.Length)
      modifies this`active, this`index, this`filePos, this`start, this`sp, this`out, this`wakeUp, window, stack, heap
      ensures Valid()
      ensures var (s, f) := StreamStep(file, old(StreamNow()), old(Abstract()), answers, task);
              StreamNow() == s && Bare(Abstract()) == Bare(f)
      ensures Whole(Code(file), old(Abstract())) ==>
                Abstract() == FlatStep(Code(file), old(Abstract()), answers, task)
      ensures Whole(Code(file), old(Abstract())) ==> Obeys(Code(file), old(Abstract()), Abstract(), answers, task)
    {
      hide Synced, Effect, Executed, Obeys;
      ghost var before := Abstract();
      if Whole(Code(file), before) {
        StepObeys(Code(file), before, answers, task);
      }
      var op := FetchByte();
      if !active {
        return;
      }
      ExecutedBare(file, op, StreamNow(), Abstract(), before, answers, task);
      Execute(op, answers);
    }

    /** The instructions without an operand, behind their checks. */
    method StepPlain(op: Byte, answers: Answers)
      requires Valid() && active && !HasOperand(op) && Proceeds(op, Abstract()) && Keeps(answers.call, heap.Length)
      modifies this`active, this`sp, this`out, this`wakeUp, stack, heap
      ensures Valid() && Abstract() == Effect(op, 0, old(Abstract()), answers, task)
    {
      hide Synced, Printing, Asking, Memory;
      if op == ADD || op == SUB || op == EQ {
        StepBinary(op);
      } else if op == DUP {
        Push(stack[sp]);
      } else if op == POP {
        var _ := Pop();
      } else if op in {PRINT, PRTC, PRTE, PRTS} {
        StepPrinting(op);
      } else if op in {READ, SYS, SLEEP, MALLOC} {
        StepAsking(op, answers);
      } else if op in {LOAD, STORE} {
        StepMemory(op);
      } else if op == EXIT {
        Terminate();
      }
    }

    /** A whole run through windows and jumps, with anything done to the task's memory between its
        steps: as long as it stays inside the program it is a run of the flat program. */
    method Run(run: seq<Turn>)
      requires Valid() && forall i :: 0 <= i < |run| ==> Keeps(run[i].before, heap.Length) && Keeps(run[i].answers.call, heap.Length)
      modifies this`active, this`index, this`filePos, this`start, this`sp, this`out, this`wakeUp, window, stack, heap
      ensures Valid()
      ensures Inside(Code(file), old(Abstract()), run, task) ==>
                Abstract() == FlatRun(Code(file), old(Abstract()), run, task)
    {
      hide Synced, FlatStep, Whole, StreamStep;
      ghost var inside := Inside(Code(file), Abstract(), run, task);
      ghost var goal := if inside then FlatRun(Code(file), Abstract(), run, task) else Abstract();
      var n := 0;
      while n < |run| && active
        invariant 0 <= n <= |run| && Valid()
        invariant inside ==> Inside(Code(file), Abstract(), run[n..], task)
        invariant inside ==> FlatRun(Code(file), Abstract(), run[n..], task) == goal
      {
        assert run[n..][1..] == run[n + 1..] && run[n..][0] == run[n];
        Disturb(run[n].before);
        if active {
          RunStep(run[n].answers);
        }
        n := n + 1;
      }
    }
  }

  /** An operand is a signed 16-bit integer. */
  lemma OperandRange(file: seq<Byte>, s: Stream)
    requires |s.window| == WINDOW && s.filePos <= |file|
    ensures -0x8000 <= StreamOperand(file, s).0 < 0x8000
  {}

  /** READ, then what is left behind it in the window. */
  lemma StaleSteps(file: seq<Byte>, f: Flat, typed: int, call: Change, task: Kernel.Task)
    requires |file| == HEADER + 1 && file[HEADER] == READ && typed != -1 && f.stack == []
    ensures var answers := Answers(typed, 0, 0, call);
            var (s, g) := StreamStep(file, Refilled(file, Stream(seq(WINDOW, _ => PRINT), WINDOW, HEADER)), f, answers, task);
            && g == Pushed(f, typed) && |s.window| == WINDOW && s.filePos <= |file|
            && forall h :: Bare(h) == Bare(g) ==>
                 Bare(StreamStep(file, s, h, answers, task).1)
                 == Bare(Shown(Shown(f, Number(STDOUT, typed)), Character(STDOUT, 10)))
  {}

  /** A program of one instruction, loaded over a window left by other code, that never prints:
      its second step prints what the first one read. */
  method StaleByteIsExecuted(owner: Kernel.Task, memory: array<int>, typed: int) returns (m: Machine)
    requires typed != -1
    modifies memory
    ensures m.Valid() && m.active && Code(m.file) == [READ]
    ensures m.out == [Number(STDOUT, typed), Character(STDOUT, 10)]
  {
    hide StreamStep, FlatStep, Whole, Synced, Refilled;
    var file: seq<Byte> := [0xAD, 0x01, 0, 1, READ];
    m := new Machine(file, seq(WINDOW, _ => PRINT), owner, memory);
    var answers := Answers(typed, 0, 0, Change(memory[..], [], true));
    StaleSteps(file, m.Abstract(), typed, answers.call, owner);
    m.RunStep(answers);
    m.RunStep(answers);
  }

  /** What STORE puts into the task's segment, LOAD takes from it, and nothing else of the heap changes. */
  lemma StoredIsLoaded(code: seq<Byte>, s: Flat, value: int, addr: int, rest: seq<int>, first: Answers, second: Answers,
                       task: Kernel.Task)
    requires 0 <= s.pc < |code| - 1 && code[s.pc] == 0x52 && code[s.pc + 1] == 0x51
    requires s.stack == rest + [addr, value, addr]
    requires 0 <= addr < task.heapLimit && 0 <= task.heapBase + addr < |s.heap|
    ensures Whole(code, s) && Whole(code, FlatStep(code, s, first, task))
    ensures var t := FlatStep(code, FlatStep(code, s, first, task), second, task);
            t == s.(pc := s.pc + 2, stack := rest + [value], heap := s.heap[task.heapBase + addr := value])
  {
    hide Effect;
    StepObeys(code, s, first, task);
    var t := FlatStep(code, s, first, task);
    assert t.stack == rest + [addr];
    StepObeys(code, t, second, task);
  }

  lemma OperandReadsBack(x: int, n: int)
    requires -0x8000 <= x < 0x8000 && Is16(n, LowByte(x) as int + 256 * LowByte(x / 256) as int)
    ensures n == x
  {}

  /** PUSH with a number's two bytes pushes the number. */
  lemma PushesNumber(code: seq<Byte>, s: Flat, x: int, answers: Answers, task: Kernel.Task)
    requires -0x8000 <= x < 0x8000 && 0 <= s.pc && s.pc + 2 < |code| && |s.stack| < 64
    requires code[s.pc] == 0x10 && code[s.pc + 1] == LowByte(x) && code[s.pc + 2] == LowByte(x / 256)
    ensures Whole(code, s)
    ensures forall t :: Obeys(code, s, t, answers, task) ==> t == s.(pc := s.pc + 3, stack := s.stack + [x])
  {
    hide Is16, LowByte;
    var bytes := code[s.pc + 1] as int + 256 * code[s.pc + 2] as int;
    forall n | Is16(n, bytes) ensures n == x {
      OperandReadsBack(x, n);
    }
  }

  lemma CalculatesOnce(code: seq<Byte>, s: Flat, answers: Answers, task: Kernel.Task)
    requires 0 <= s.pc < |code| && |s.stack| == 2 && code[s.pc] in {0x11, 0x12, 0x13}
    ensures Whole(code, s)
    ensures forall t :: Obeys(code, s, t, answers, task) ==>
              t.active == s.active && t.heap == s.heap && Calculates(code[s.pc] as int, s.stack, t.stack)
  {
    hide Calculates;
  }

  /** A program that pushes two numbers and calculates with them. */
  method Calculate(op: Byte, x: int, y: int, owner: Kernel.Task, memory: array<int>) returns (m: Machine)
    requires op in {0x11, 0x12, 0x13} && -0x8000 <= x < 0x8000 && -0x8000 <= y < 0x8000
    modifies memory
    ensures m.Valid() && m.active && m.sp == 0 && memory[..] == old(memory[..])
    ensures op == 0x11 ==> Is16(m.stack[0], x + y)
    ensures op == 0x12 ==> Is16(m.stack[0], x - y)
    ensures op == 0x13 ==> m.stack[0] == if x == y then 1 else 0
  {
    hide StreamStep, FlatStep, Synced, Refilled, Is16, LowByte, Whole, Obeys;
    var file: seq<Byte> := [0xAD, 0x01, 0, 1, 0x10, LowByte(x), LowByte(x / 256), 0x10, LowByte(y), LowByte(y / 256), op];
    m := new Machine(file, seq(WINDOW, _ => 0), owner, memory);
    var answers := Answers(0, 0, 0, Change(memory[..], [], true));
    PushesNumber(Code(file), m.Abstract(), x, answers, owner);
    m.RunStep(answers);
    PushesNumber(Code(file), m.Abstract(), y, answers, owner);
    m.RunStep(answers);
    CalculatesOnce(Code(file), m.Abstract(), answers, owner);
    m.RunStep(answers);
  }
}
