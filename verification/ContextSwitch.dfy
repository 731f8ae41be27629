/** context_switch on a byte-addressed machine, the frame sys_create_task builds for it, and runs of many
    tasks that switch among each other. */
module ContextSwitch {
  import opened Memory

  const FRAME := 20            // four saved registers and a return address
  const TASK_STACK_SIZE := 8192

  /** What a task resumes with: its callee-saved registers, where it continues, and its stack level. */
  datatype Context = Context(edi: uint32, esi: uint32, ebx: uint32, ebp: uint32, eip: uint32, esp: nat)

  datatype Machine = Machine(mem: seq<byte>, regs: Context)

  /** The context a stack frame at sp stands for. */
  function FrameAt(m: seq<byte>, sp: nat): (c: Context)
    requires sp + FRAME <= |m|
  {
    Context(LoadWord(m, sp), LoadWord(m, sp + 4), LoadWord(m, sp + 8), LoadWord(m, sp + 12), LoadWord(m, sp + 16),
            sp + FRAME)
  }

  lemma FrameKept(m: seq<byte>, r: seq<byte>, lo: nat, hi: nat, sp: nat)
    requires SameOutside(m, r, lo, hi) && sp + FRAME <= |m|
    requires sp + FRAME <= lo || hi <= sp
    ensures FrameAt(r, sp) == FrameAt(m, sp)
  {
    LoadFrame(m, r, lo, hi, sp);
    LoadFrame(m, r, lo, hi, sp + 4);
    LoadFrame(m, r, lo, hi, sp + 8);
    LoadFrame(m, r, lo, hi, sp + 12);
    LoadFrame(m, r, lo, hi, sp + 16);
  }

  /** Two byte ranges do not meet. */
  predicate Apart(a: nat, m: nat, b: nat, n: nat) {
    a + m <= b || b + n <= a
  }

  // The machine inside a call of context_switch(old_esp_store, new_esp): the return address is at esp.

  function Cell(m: Machine): (a: nat)
    requires m.regs.esp + 12 <= |m.mem|
  {
    LoadWord(m.mem, m.regs.esp + 4)
  }

  function NewEsp(m: Machine): (a: nat)
    requires m.regs.esp + 12 <= |m.mem|
  {
    LoadWord(m.mem, m.regs.esp + 8)
  }

  /** What the caller holds, counted from its return. */
  function Caller(m: Machine): (c: Context)
    requires m.regs.esp + 4 <= |m.mem|
  {
    m.regs.(eip := LoadWord(m.mem, m.regs.esp), esp := m.regs.esp + 4)
  }

  /** There is room for the pushes, and the cell, the caller's frame and the frame to resume are apart. */
  ghost predicate Callable(m: Machine) {
    && 16 <= m.regs.esp && m.regs.esp + 12 <= |m.mem| <= TWO32
    && Cell(m) + 4 <= |m.mem| && NewEsp(m) + FRAME <= |m.mem|
    && Apart(Cell(m), 4, m.regs.esp - 16, 28)
    && Apart(Cell(m), 4, NewEsp(m), FRAME)
    && Apart(NewEsp(m), FRAME, m.regs.esp - 16, 16)
  }

  /** The caller's context is now a frame whose address is in the cell, the machine has the context of the
      frame at new_esp, and no other byte changed. */
  ghost predicate Switched(m: Machine, r: Machine)
    requires Callable(m)
  {
    var sp := m.regs.esp - 16;
    && |r.mem| == |m.mem|
    && FrameAt(r.mem, sp) == Caller(m)
    && LoadWord(r.mem, Cell(m)) == sp
    && r.regs == FrameAt(m.mem, NewEsp(m))
    && forall i :: 0 <= i < |m.mem| && !(sp <= i < sp + 16) && !(Cell(m) <= i < Cell(m) + 4) ==> r.mem[i] == m.mem[i]
  }

  /** Four pushes onto the stack below the return address make the caller's frame. */
  lemma FrameBuilt(m: Machine, m1: seq<byte>, m2: seq<byte>, m3: seq<byte>, r: seq<byte>, sp: nat)
    requires sp + 16 == m.regs.esp && sp + FRAME <= |m.mem|
    requires SameOutside(m.mem, m1, sp + 12, sp + 16) && LoadWord(m1, sp + 12) == m.regs.ebp
    requires SameOutside(m1, m2, sp + 8, sp + 12) && LoadWord(m2, sp + 8) == m.regs.ebx
    requires SameOutside(m2, m3, sp + 4, sp + 8) && LoadWord(m3, sp + 4) == m.regs.esi
    requires SameOutside(m3, r, sp, sp + 4) && LoadWord(r, sp) == m.regs.edi
    ensures SameOutside(m.mem, r, sp, sp + 16) && FrameAt(r, sp) == Caller(m)
  {
    LoadFrame(m.mem, m1, sp + 12, sp + 16, sp + 16);
    LoadFrame(m1, m2, sp + 8, sp + 12, sp + 12);
    LoadFrame(m1, m2, sp + 8, sp + 12, sp + 16);
    LoadFrame(m2, m3, sp + 4, sp + 8, sp + 8);
    LoadFrame(m2, m3, sp + 4, sp + 8, sp + 12);
    LoadFrame(m2, m3, sp + 4, sp + 8, sp + 16);
    LoadFrame(m3, r, sp, sp + 4, sp + 4);
    LoadFrame(m3, r, sp, sp + 4, sp + 8);
    LoadFrame(m3, r, sp, sp + 4, sp + 12);
    LoadFrame(m3, r, sp, sp + 4, sp + 16);
  }

  /** The pushes disturb neither the arguments nor the frame to resume. */
  lemma AfterSave(m: Machine, m1: seq<byte>)
    requires Callable(m) && SameOutside(m.mem, m1, m.regs.esp - 16, m.regs.esp)
    ensures LoadWord(m1, m.regs.esp + 4) == Cell(m) && LoadWord(m1, m.regs.esp + 8) == NewEsp(m)
    ensures FrameAt(m1, NewEsp(m)) == FrameAt(m.mem, NewEsp(m))
  {
    LoadFrame(m.mem, m1, m.regs.esp - 16, m.regs.esp, m.regs.esp + 4);
    LoadFrame(m.mem, m1, m.regs.esp - 16, m.regs.esp, m.regs.esp + 8);
    FrameKept(m.mem, m1, m.regs.esp - 16, m.regs.esp, NewEsp(m));
  }

  /** Neither does the store of esp. */
  lemma AfterStore(m: Machine, m1: seq<byte>, m2: seq<byte>)
    requires Callable(m) && SameOutside(m.mem, m1, m.regs.esp - 16, m.regs.esp)
    requires FrameAt(m1, m.regs.esp - 16) == Caller(m)
    requires SameOutside(m1, m2, Cell(m), Cell(m) + 4) && LoadWord(m2, Cell(m)) == m.regs.esp - 16
    ensures LoadWord(m2, m.regs.esp + 8) == NewEsp(m)
    ensures Switched(m, Machine(m2, FrameAt(m2, NewEsp(m))))
  {
    AfterSave(m, m1);
    LoadFrame(m1, m2, Cell(m), Cell(m) + 4, m.regs.esp + 8);
    FrameKept(m1, m2, Cell(m), Cell(m) + 4, m.regs.esp - 16);
    FrameKept(m1, m2, Cell(m), Cell(m) + 4, NewEsp(m));
  }

  class Cpu {
    const mem: array<byte>
    var eax: uint32
    var ebx: uint32
    var esi: uint32
    var edi: uint32
    var ebp: uint32
    var esp: nat
    var eip: uint32

    ghost function View(): (m: Machine)
      reads this, mem
    {
      Machine(mem[..], Context(edi, esi, ebx, ebp, eip, esp))
    }

    constructor (size: nat)
      requires size <= TWO32
      ensures mem.Length == size && fresh(mem)
    {
      mem := new byte[size](_ => 0);
      eax, ebx, esi, edi, ebp, esp, eip := 0, 0, 0, 0, 0, size, 0;
    }

    method Push(v: uint32)
      requires 4 <= esp <= mem.Length
      modifies this`esp, mem
      ensures esp == old(esp) - 4
      ensures SameOutside(old(mem[..]), mem[..], esp, esp + 4) && LoadWord(mem[..], esp) == v
    {
      esp := esp - 4;
      StoreWord(mem, esp, v);
    }

    method Pop() returns (v: uint32)
      requires esp + 4 <= mem.Length
      modifies this`esp
      ensures esp == old(esp) + 4 && v == LoadWord(mem[..], old(esp))
    {
      v := FetchWord(mem, esp);
      esp := esp + 4;
    }

    /** push ebp; push ebx; push esi; push edi. */
    method SaveRegisters()
      requires 16 <= esp && esp + 4 <= mem.Length
      modifies this`esp, mem
      ensures esp == old(esp) - 16
      ensures SameOutside(old(mem[..]), mem[..], esp, esp + 16)
      ensures FrameAt(mem[..], esp) == Caller(old(View()))
    {
      ghost var m := View();
      Push(ebp);
      ghost var m1 := mem[..];
      Push(ebx);
      ghost var m2 := mem[..];
      Push(esi);
      ghost var m3 := mem[..];
      Push(edi);
      FrameBuilt(m, m1, m2, m3, mem[..], esp);
    }

    /** pop edi; pop esi; pop ebx; pop ebp; ret. */
    method RestoreRegisters()
      requires esp + FRAME <= mem.Length
      modifies this`edi, this`esi, this`ebx, this`ebp, this`eip, this`esp
      ensures View() == Machine(mem[..], FrameAt(mem[..], old(esp)))
    {
      edi := Pop();
      esi := Pop();
      ebx := Pop();
      ebp := Pop();
      eip := Pop();
    }

    method Switch()
      requires Callable(View())
      modifies this, mem
      ensures Switched(old(View()), View())
    {
      ghost var m := View();
      SaveRegisters();
      ghost var m1 := mem[..];
      AfterSave(m, m1);
      eax := FetchWord(mem, esp + 20);
      StoreWord(mem, eax, esp);
      AfterStore(m, m1, mem[..]);
      esp := FetchWord(mem, esp + 24);
      RestoreRegisters();
    }

    /** A call context_switch(store, newEsp) as the C code makes it: the arguments pushed last first, then the
        return address.  The caller's registers, that address and the stack level with the arguments still on it
        are saved in a frame whose address is put at store, and the frame at newEsp is resumed. */
    method CallSwitch(store: uint32, newEsp: uint32, returnTo: uint32)
      requires MayCall(View(), store, newEsp)
      modifies this, mem
      ensures SwitchedBy(old(View()), View(), store, newEsp, returnTo)
    {
      ghost var m := View();
      PushCall(store, newEsp, returnTo);
      ghost var v := View();
      CallPlaced(m, v, store, newEsp, returnTo);
      Switch();
      CallSwitched(m, v, View(), store, newEsp, returnTo);
    }

    method PushCall(store: uint32, newEsp: uint32, returnTo: uint32)
      requires 12 <= esp <= mem.Length && newEsp + 20 <= mem.Length && Apart(newEsp, 20, esp - 12, 12)
      modifies this`esp, mem
      ensures Called(old(View()), View(), store, newEsp, returnTo)
    {
      ghost var m := mem[..];
      Push(newEsp);
      ghost var m1 := mem[..];
      Push(store);
      ghost var m2 := mem[..];
      Push(returnTo);
      ArgumentsPlaced(m, m1, m2, mem[..], esp, store, newEsp, returnTo);
    }

    /** The frame sys_create_task builds at the top of a new stack. */
    method BuildFrame(stackBase: nat, trampoline: uint32) returns (sp: nat)
      requires stackBase + TASK_STACK_SIZE <= mem.Length
      modifies mem
      ensures sp == stackBase + 8192 - 20
      ensures SameOutside(old(mem[..]), mem[..], sp, sp + 20)
      ensures FrameAt(mem[..], sp) == Context(0, 0, 0, 0, trampoline, stackBase + 8192)
    {
      sp := stackBase + TASK_STACK_SIZE - FRAME;
      ghost var m := mem[..];
      StoreWord(mem, sp, 0);
      ghost var m1 := mem[..];
      StoreWord(mem, sp + 4, 0);
      ghost var m2 := mem[..];
      StoreWord(mem, sp + 8, 0);
      ghost var m3 := mem[..];
      StoreWord(mem, sp + 12, 0);
      ghost var m4 := mem[..];
      StoreWord(mem, sp + 16, trampoline);
      FreshFrame(m, m1, m2, m3, m4, mem[..], sp, trampoline);
    }

    /** What sys_create_task does to memory once it has a stack and a task struct apart from all others: the
        first frame, and its address in the new task's esp.  That is the Create step of a run. */
    method NewTask(r: Room, trampoline: uint32, ghost w: World) returns (ghost w': World)
      requires Inv(w) && w.m == View()
      requires r.hi == r.lo + TASK_STACK_SIZE && RoomFits(r, mem.Length)
      requires forall t :: 0 <= t < |w.rooms| ==> RoomsApart(w.rooms[t], r)
      modifies mem
      ensures w'.m == View() && Step(w, Create(r, trampoline), w') && Inv(w')
    {
      var sp := BuildFrame(r.lo, trampoline);
      ghost var m1 := mem[..];
      StoreWord(mem, r.cell, sp);
      w' := World(View(), w.rooms + [r], w.current, w.saved + [Context(0, 0, 0, 0, trampoline, r.hi)]);
      IsCreation(w, w', m1, r, trampoline);
      StepInv(w, Create(r, trampoline), w');
    }
  }

  /** Frame (m1) and stored address together are the creation of a task. */
  lemma IsCreation(w: World, w': World, m1: seq<byte>, r: Room, trampoline: uint32)
    requires r.hi == r.lo + TASK_STACK_SIZE && RoomFits(r, |w.m.mem|)
    requires forall t :: 0 <= t < |w.rooms| ==> RoomsApart(w.rooms[t], r)
    requires SameOutside(w.m.mem, m1, r.hi - FRAME, r.hi)
    requires FrameAt(m1, r.hi - FRAME) == Context(0, 0, 0, 0, trampoline, r.hi)
    requires SameOutside(m1, w'.m.mem, r.cell, r.cell + 4) && LoadWord(w'.m.mem, r.cell) == r.hi - FRAME
    requires w'.rooms == w.rooms + [r] && w'.current == w.current
    requires w'.saved == w.saved + [Context(0, 0, 0, 0, trampoline, r.hi)]
    ensures Creates(w, r, trampoline, w')
  {
    FrameKept(m1, w'.m.mem, r.cell, r.cell + 4, r.hi - FRAME);
    OthersKept(w.m.mem, m1, w'.m.mem, w.rooms, r);
  }

  lemma OthersKept(m: seq<byte>, m1: seq<byte>, m2: seq<byte>, rooms: seq<Room>, r: Room)
    requires r.hi == r.lo + TASK_STACK_SIZE && forall t :: 0 <= t < |rooms| ==> RoomsApart(rooms[t], r)
    requires SameOutside(m, m1, r.hi - FRAME, r.hi) && SameOutside(m1, m2, r.cell, r.cell + 4)
    ensures forall t :: 0 <= t < |rooms| ==> RoomKept(m, m2, rooms[t])
  {
    forall t | 0 <= t < |rooms| ensures RoomKept(m, m2, rooms[t]) {
      assert RoomsApart(rooms[t], r);
    }
  }

  /** Machine v is m with the two arguments and the return address on the stack. */
  ghost predicate Called(m: Machine, v: Machine, store: uint32, newEsp: uint32, returnTo: uint32) {
    && 12 <= m.regs.esp <= |m.mem| == |v.mem| && newEsp + 20 <= |m.mem|
    && v.regs == m.regs.(esp := m.regs.esp - 12)
    && SameOutside(m.mem, v.mem, m.regs.esp - 12, m.regs.esp)
    && LoadWord(v.mem, v.regs.esp) == returnTo
    && LoadWord(v.mem, v.regs.esp + 4) == store && LoadWord(v.mem, v.regs.esp + 8) == newEsp
    && FrameAt(v.mem, newEsp) == FrameAt(m.mem, newEsp)
  }

  /** There is room on the stack, and stack, store and the frame to resume are apart. */
  ghost predicate MayCall(m: Machine, store: uint32, newEsp: uint32) {
    && 28 <= m.regs.esp <= |m.mem| <= TWO32 && store + 4 <= |m.mem| && newEsp + 20 <= |m.mem|
    && Apart(store, 4, m.regs.esp - 28, 28) && Apart(store, 4, newEsp, 20)
    && Apart(newEsp, 20, m.regs.esp - 28, 28)
  }

  /** The effect of the call, in terms of its arguments. */
  ghost predicate SwitchedBy(m: Machine, r: Machine, store: uint32, newEsp: uint32, returnTo: uint32)
    requires MayCall(m, store, newEsp)
  {
    && |r.mem| == |m.mem|
    && LoadWord(r.mem, store) == m.regs.esp - 28
    && FrameAt(r.mem, m.regs.esp - 28) == m.regs.(eip := returnTo, esp := m.regs.esp - 8)
    && r.regs == FrameAt(m.mem, newEsp)
    && forall i :: 0 <= i < |m.mem| && !(m.regs.esp - 28 <= i < m.regs.esp) && !(store <= i < store + 4) ==>
         r.mem[i] == m.mem[i]
  }

  lemma CallPlaced(m: Machine, v: Machine, store: uint32, newEsp: uint32, returnTo: uint32)
    requires Called(m, v, store, newEsp, returnTo) && MayCall(m, store, newEsp)
    ensures Callable(v)
  {
  }

  lemma CallSwitched(m: Machine, v: Machine, r: Machine, store: uint32, newEsp: uint32, returnTo: uint32)
    requires MayCall(m, store, newEsp) && Called(m, v, store, newEsp, returnTo) && Callable(v) && Switched(v, r)
    ensures SwitchedBy(m, r, store, newEsp, returnTo)
  {
    assert Cell(v) == store && NewEsp(v) == newEsp;
  }

  lemma ArgumentsPlaced(m: seq<byte>, m1: seq<byte>, m2: seq<byte>, r: seq<byte>, sp: nat, store: uint32,
                        newEsp: uint32, returnTo: uint32)
    requires sp + 12 <= |m| && newEsp + 20 <= |m| && Apart(newEsp, 20, sp, 12)
    requires SameOutside(m, m1, sp + 8, sp + 12) && LoadWord(m1, sp + 8) == newEsp
    requires SameOutside(m1, m2, sp + 4, sp + 8) && LoadWord(m2, sp + 4) == store
    requires SameOutside(m2, r, sp, sp + 4) && LoadWord(r, sp) == returnTo
    ensures SameOutside(m, r, sp, sp + 12)
    ensures LoadWord(r, sp + 4) == store && LoadWord(r, sp + 8) == newEsp
    ensures FrameAt(r, newEsp) == FrameAt(m, newEsp)
  {
    LoadFrame(m1, m2, sp + 4, sp + 8, sp + 8);
    LoadFrame(m2, r, sp, sp + 4, sp + 8);
    LoadFrame(m2, r, sp, sp + 4, sp + 4);
    FrameKept(m, r, sp, sp + 12, newEsp);
  }

  lemma FreshFrame(m: seq<byte>, m1: seq<byte>, m2: seq<byte>, m3: seq<byte>, m4: seq<byte>, r: seq<byte>,
                   sp: nat, trampoline: uint32)
    requires sp + FRAME <= |m|
    requires SameOutside(m, m1, sp, sp + 4) && LoadWord(m1, sp) == 0
    requires SameOutside(m1, m2, sp + 4, sp + 8) && LoadWord(m2, sp + 4) == 0
    requires SameOutside(m2, m3, sp + 8, sp + 12) && LoadWord(m3, sp + 8) == 0
    requires SameOutside(m3, m4, sp + 12, sp + 16) && LoadWord(m4, sp + 12) == 0
    requires SameOutside(m4, r, sp + 16, sp + 20) && LoadWord(r, sp + 16) == trampoline
    ensures SameOutside(m, r, sp, sp + FRAME)
    ensures FrameAt(r, sp) == Context(0, 0, 0, 0, trampoline, sp + FRAME)
  {
    LoadFrame(m1, m2, sp + 4, sp + 8, sp);
    LoadFrame(m2, m3, sp + 8, sp + 12, sp);
    LoadFrame(m2, m3, sp + 8, sp + 12, sp + 4);
    LoadFrame(m3, m4, sp + 12, sp + 16, sp);
    LoadFrame(m3, m4, sp + 12, sp + 16, sp + 4);
    LoadFrame(m3, m4, sp + 12, sp + 16, sp + 8);
    LoadFrame(m4, r, sp + 16, sp + 20, sp);
    LoadFrame(m4, r, sp + 16, sp + 20, sp + 4);
    LoadFrame(m4, r, sp + 16, sp + 20, sp + 8);
    LoadFrame(m4, r, sp + 16, sp + 20, sp + 12);
  }

  // ---------------------------------------------------------------- runs of many tasks

  /** A task's stack [lo, hi) and the address of its saved esp. */
  datatype Room = Room(lo: nat, hi: nat, cell: nat)

  /** The machine, the rooms of all tasks, who runs, and for every task the context it was last suspended
      with (or, before its first turn, the one its first frame stands for). */
  datatype World = World(m: Machine, rooms: seq<Room>, current: nat, saved: seq<Context>)

  ghost predicate RoomsApart(r: Room, q: Room) {
    && (r.hi <= q.lo || q.hi <= r.lo)
    && (r.cell + 4 <= q.cell || q.cell + 4 <= r.cell)
    && (r.cell + 4 <= q.lo || q.hi <= r.cell)
    && (q.cell + 4 <= r.lo || r.hi <= q.cell)
  }

  ghost predicate RoomFits(r: Room, size: nat) {
    r.lo <= r.hi <= size && r.cell + 4 <= size && (r.cell + 4 <= r.lo || r.hi <= r.cell)
  }

  /** A suspended task: its cell points at a frame in its own stack that holds its context. */
  ghost predicate Suspended(mem: seq<byte>, r: Room, c: Context) {
    && r.cell + 4 <= |mem| && r.hi <= |mem|
    && var sp := LoadWord(mem, r.cell);
       r.lo <= sp && sp + FRAME <= r.hi && FrameAt(mem, sp) == c
  }

  ghost predicate Inv(w: World) {
    && |w.rooms| == |w.saved| && w.current < |w.rooms| && |w.m.mem| <= TWO32
    && (forall t :: 0 <= t < |w.rooms| ==> RoomFits(w.rooms[t], |w.m.mem|))
    && (forall t, u :: 0 <= t < u < |w.rooms| ==> RoomsApart(w.rooms[t], w.rooms[u]))
    && (forall t :: 0 <= t < |w.rooms| && t != w.current ==> Suspended(w.m.mem, w.rooms[t], w.saved[t]))
  }

  /** The same bytes in a task's stack and in its cell. */
  ghost predicate RoomKept(mem: seq<byte>, mem': seq<byte>, r: Room) {
    && |mem| == |mem'|
    && forall i :: 0 <= i < |mem| && (r.lo <= i < r.hi || r.cell <= i < r.cell + 4) ==> mem'[i] == mem[i]
  }

  lemma StaysSuspended(mem: seq<byte>, mem': seq<byte>, r: Room, c: Context)
    requires Suspended(mem, r, c) && RoomKept(mem, mem', r)
    ensures Suspended(mem', r, c)
  {
    assert LoadWord(mem', r.cell) == LoadWord(mem, r.cell);
    var sp := LoadWord(mem, r.cell);
    assert forall i :: sp <= i < sp + FRAME ==> mem'[i] == mem[i];
    assert FrameAt(mem', sp) == FrameAt(mem, sp);
  }

  /** The current task computes: any registers, any memory but what belongs to the suspended tasks. */
  ghost predicate Computes(w: World, w': World) {
    && w'.rooms == w.rooms && w'.current == w.current && w'.saved == w.saved
    && |w'.m.mem| == |w.m.mem|
    && forall t :: 0 <= t < |w.rooms| && t != w.current ==> RoomKept(w.m.mem, w'.m.mem, w.rooms[t])
  }

  /** The current task is inside context_switch(&prev->esp, next->esp), on its own stack. */
  ghost predicate Calls(w: World, t: nat)
    requires Inv(w) && t < |w.rooms|
  {
    var r, q := w.rooms[w.current], w.rooms[t];
    && t != w.current
    && r.lo + 16 <= w.m.regs.esp && w.m.regs.esp + 12 <= r.hi
    && Cell(w.m) == r.cell && NewEsp(w.m) == LoadWord(w.m.mem, q.cell)
  }

  lemma CallsIsCallable(w: World, t: nat)
    requires Inv(w) && t < |w.rooms| && Calls(w, t)
    ensures Callable(w.m)
  {
    var c := w.current;
    assert Suspended(w.m.mem, w.rooms[t], w.saved[t]);
    assert RoomFits(w.rooms[c], |w.m.mem|) && RoomFits(w.rooms[t], |w.m.mem|);
    assert if c < t then RoomsApart(w.rooms[c], w.rooms[t]) else RoomsApart(w.rooms[t], w.rooms[c]);
  }

  ghost predicate SwitchesTo(w: World, t: nat, w': World)
    requires Inv(w)
  {
    && t < |w.rooms| && Calls(w, t) && Callable(w.m)
    && Switched(w.m, w'.m)
    && w'.rooms == w.rooms && w'.current == t && w'.saved == w.saved[w.current := Caller(w.m)]
  }

  /** A new task: its room is apart from all others, and its frame was built in memory nobody else owns. */
  ghost predicate Creates(w: World, r: Room, trampoline: uint32, w': World) {
    && r.hi == r.lo + TASK_STACK_SIZE && RoomFits(r, |w.m.mem|)
    && (forall t :: 0 <= t < |w.rooms| ==> RoomsApart(w.rooms[t], r))
    && w'.rooms == w.rooms + [r] && w'.current == w.current
    && w'.saved == w.saved + [Context(0, 0, 0, 0, trampoline, r.hi)]
    && |w'.m.mem| == |w.m.mem|
    && (forall t :: 0 <= t < |w.rooms| && t != w.current ==> RoomKept(w.m.mem, w'.m.mem, w.rooms[t]))
    && LoadWord(w'.m.mem, r.cell) == r.hi - FRAME
    && FrameAt(w'.m.mem, r.hi - FRAME) == Context(0, 0, 0, 0, trampoline, r.hi)
  }

  datatype Event = Compute | SwitchTo(t: nat) | Create(r: Room, trampoline: uint32)

  ghost predicate Step(w: World, e: Event, w': World)
    requires Inv(w)
  {
    match e
    case Compute => Computes(w, w')
    case SwitchTo(t) => SwitchesTo(w, t, w')
    case Create(r, trampoline) => Creates(w, r, trampoline, w')
  }

  /** A switch gives the resumed task exactly the context it was suspended with, and keeps the rest. */
  lemma SwitchInv(w: World, t: nat, w': World)
    requires Inv(w) && SwitchesTo(w, t, w')
    ensures Inv(w') && w'.m.regs == w.saved[t]
  {
    var c := w.current;
    var r := w.rooms[c];
    assert Suspended(w.m.mem, w.rooms[t], w.saved[t]);
    forall u | 0 <= u < |w.rooms| && u != t ensures Suspended(w'.m.mem, w.rooms[u], w'.saved[u]) {
      if u != c {
        assert if c < u then RoomsApart(r, w.rooms[u]) else RoomsApart(w.rooms[u], r);
        assert Suspended(w.m.mem, w.rooms[u], w.saved[u]);
        StaysSuspended(w.m.mem, w'.m.mem, w.rooms[u], w.saved[u]);
      }
    }
  }

  lemma StepInv(w: World, e: Event, w': World)
    requires Inv(w) && Step(w, e, w')
    ensures Inv(w')
    ensures e.SwitchTo? ==> w'.m.regs == w.saved[e.t]
    ensures forall t :: 0 <= t < |w.saved| && !(e.SwitchTo? && t == w.current) ==> w'.saved[t] == w.saved[t]
  {
    match e
    case SwitchTo(t) => SwitchInv(w, t, w');
    case _ =>
      forall t | 0 <= t < |w.rooms| && t != w.current ensures Suspended(w'.m.mem, w.rooms[t], w.saved[t]) {
        StaysSuspended(w.m.mem, w'.m.mem, w.rooms[t], w.saved[t]);
      }
  }

  ghost predicate Run(ws: seq<World>, es: seq<Event>) {
    && |ws| == |es| + 1 && Inv(ws[0])
    && forall i :: 0 <= i < |es| ==> StepAt(ws, es, i)
  }

  ghost predicate StepAt(ws: seq<World>, es: seq<Event>, i: nat)
    requires i < |es| && i + 1 < |ws|
  {
    Inv(ws[i]) && Step(ws[i], es[i], ws[i + 1])
  }

  /** What step i of a run leaves in the saved contexts and, if it is a switch, in the registers. */
  lemma StepEffect(ws: seq<World>, es: seq<Event>, i: nat)
    requires Run(ws, es) && i < |es|
    ensures Inv(ws[i]) && Inv(ws[i + 1]) && |ws[i].saved| <= |ws[i + 1].saved|
    ensures es[i].SwitchTo? ==>
      && ws[i].m.regs.esp + 4 <= |ws[i].m.mem|
      && es[i].t < |ws[i].saved| && ws[i + 1].m.regs == ws[i].saved[es[i].t]
      && ws[i + 1].saved[ws[i].current] == Caller(ws[i].m)
    ensures es[i].Create? ==>
      && |ws[i + 1].saved| == |ws[i].rooms| + 1
      && ws[i + 1].saved[|ws[i].rooms|] == Context(0, 0, 0, 0, es[i].trampoline, es[i].r.hi)
    ensures forall t :: 0 <= t < |ws[i].saved| && !(es[i].SwitchTo? && t == ws[i].current) ==>
      ws[i + 1].saved[t] == ws[i].saved[t]
  {
    assert StepAt(ws, es, i);
    StepInv(ws[i], es[i], ws[i + 1]);
  }

  /** From state i to state j task t does not run: its saved context stays as it is. */
  lemma {:induction false} SavedKept(ws: seq<World>, es: seq<Event>, t: nat, i: nat, j: nat)
    requires Run(ws, es) && i <= j < |ws|
    requires t < |ws[i].saved|
    requires forall k :: i <= k < j ==> ws[k].current != t
    ensures t < |ws[j].saved| && ws[j].saved[t] == ws[i].saved[t]
  {
    if i < j {
      SavedKept(ws, es, t, i, j - 1);
      StepEffect(ws, es, j - 1);
    }
  }

  /** A task suspended by switch i and next resumed by switch j gets back the registers, the return address
      and the stack level it had when it called context_switch. */
  lemma ResumeRestores(ws: seq<World>, es: seq<Event>, t: nat, i: nat, j: nat)
    requires Run(ws, es) && i < j < |es|
    requires es[i].SwitchTo? && ws[i].current == t
    requires es[j] == SwitchTo(t) && forall k :: i < k <= j ==> ws[k].current != t
    ensures ws[i].m.regs.esp + 4 <= |ws[i].m.mem|
    ensures ws[j + 1].m.regs == Caller(ws[i].m)
  {
    StepEffect(ws, es, i);
    SavedKept(ws, es, t, i + 1, j);
    StepEffect(ws, es, j);
  }

  /** A task created by step i and first resumed by switch j pops four zeros, lands in the trampoline and
      finds its stack empty. */
  lemma FirstResume(ws: seq<World>, es: seq<Event>, t: nat, i: nat, j: nat)
    requires Run(ws, es) && i < j < |es|
    requires es[i].Create? && t == |ws[i].rooms|
    requires es[j] == SwitchTo(t) && forall k :: i < k <= j ==> ws[k].current != t
    ensures ws[j + 1].m.regs == Context(0, 0, 0, 0, es[i].trampoline, es[i].r.hi)
  {
    StepEffect(ws, es, i);
    SavedKept(ws, es, t, i + 1, j);
    StepEffect(ws, es, j);
  }
}
