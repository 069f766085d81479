/**
 * The machine as the macros see it: registers, seven words below the stack pointer, the scratch array, and
 * everything else. `Run` computes on this view; `RunIsExec` relates it to the real machine.
 */
module MinirvView {
  import opened Options
  import opened MachineWords
  import opened MinirvMachine
  import opened MinirvMacros

  /** A stack word, either stored as a whole or byte by byte. */
  datatype Slot = Whole(w: Word) | Bytes(b0: Byte, b1: Byte, b2: Byte, b3: Byte)
  {
    function Value(): Word {
      if Whole? then w else Join(b0, b1, b2, b3)
    }

    function At(k: nat): Byte
      requires k < 4
    {
      if Whole? then ByteAt(w, k) else if k == 0 then b0 else if k == 1 then b1 else if k == 2 then b2 else b3
    }

    function Put(k: nat, b: Byte): Slot
      requires k < 4
    {
      if k == 0 then Bytes(b, At(1), At(2), At(3))
      else if k == 1 then Bytes(At(0), b, At(2), At(3))
      else if k == 2 then Bytes(At(0), At(1), b, At(3))
      else Bytes(At(0), At(1), At(2), b)
    }
  }

  datatype Slots = Slots(v1: Slot, v2: Slot, v3: Slot, a: Slot, b: Slot, c: Slot, d: Slot)
  {
    function Nth(n: VarNumber): Slot {
      if n == 1 then v1 else if n == 2 then v2 else if n == 3 then v3
      else if n == VAR_A then a else if n == VAR_B then b else if n == VAR_C then c else d
    }

    function With(n: VarNumber, s: Slot): Slots {
      if n == 1 then this.(v1 := s) else if n == 2 then this.(v2 := s) else if n == 3 then this.(v3 := s)
      else if n == VAR_A then this.(a := s) else if n == VAR_B then this.(b := s)
      else if n == VAR_C then this.(c := s) else this.(d := s)
    }
  }

  type Check = s: seq<Byte> | |s| == 256 witness seq(256, (i: nat) => 0 as Byte)

  datatype View = View(regs: Regs, slots: Slots, check: Check, data: Mem)

  /** The value of the stack pointer while a macro runs, and the layout. */
  datatype Env = Env(sp: Word, lay: Layout)
  {
    predicate InSlots(a: int) { sp - 28 <= a < sp }

    predicate InCheck(a: int) { lay.check <= a < lay.check + 256 }

    /** The stack words exist, are aligned, and do not overlap the scratch array. */
    ghost predicate Ok() {
      && sp % 4 == 0 && 28 <= sp
      && lay.check % 4 == 0 && lay.check + 256 <= B32
      && forall a :: InSlots(a) ==> !InCheck(a)
    }
  }

  function VarOf(distance: int): VarNumber
    requires 0 < distance <= 28
  {
    if distance <= 4 then 1 else if distance <= 8 then 2 else if distance <= 12 then 3 else if distance <= 16 then 4
    else if distance <= 20 then 5 else if distance <= 24 then 6 else 7
  }

  function ByteOf(distance: int): nat
    requires 0 < distance <= 28
  {
    4 * VarOf(distance) - distance
  }

  /** The byte of memory at `a`. */
  function ViewByte(e: Env, v: View, a: int): Byte {
    if e.InSlots(a) then v.slots.Nth(VarOf(e.sp - a)).At(ByteOf(e.sp - a))
    else if e.InCheck(a) then v.check[a - e.lay.check]
    else Peek(v.data, a)
  }

  predicate ViaSp(e: Env, v: View, rs1: Reg, imm: Imm) {
    rs1 == SP && v.regs[SP] == e.sp && -28 <= imm < 0
  }

  function Address(v: View, rs1: Reg, imm: Imm): Word {
    Plus(Get(v.regs, rs1), imm)
  }

  function LoadByte(e: Env, v: View, rs1: Reg, imm: Imm): Byte {
    if ViaSp(e, v, rs1, imm) then v.slots.Nth(VarOf(-imm)).At(ByteOf(-imm))
    else ViewByte(e, v, Address(v, rs1, imm))
  }

  /** Words are never loaded from or stored into the scratch array. */
  function LoadWord(e: Env, v: View, rs1: Reg, imm: Imm): Option<Word> {
    if ViaSp(e, v, rs1, imm) then
      if imm % 4 == 0 then Some(v.slots.Nth(VarOf(-imm)).Value()) else None
    else
      var a := Address(v, rs1, imm);
      if a % 4 != 0 || e.InCheck(a) then None
      else if e.InSlots(a) then Some(v.slots.Nth(VarOf(e.sp - a)).Value())
      else Some(PeekWord(v.data, a))
  }

  /** A byte store by its address. */
  function StoreAt(e: Env, v: View, a: Word, b: Byte): View {
    if e.InSlots(a) then
      var n := VarOf(e.sp - a);
      v.(slots := v.slots.With(n, v.slots.Nth(n).Put(ByteOf(e.sp - a), b)))
    else if e.InCheck(a) then v.(check := v.check[a - e.lay.check := b])
    else v.(data := v.data[a := b])
  }

  function StoreByte(e: Env, v: View, rs1: Reg, imm: Imm, b: Byte): View {
    if ViaSp(e, v, rs1, imm) then
      v.(slots := v.slots.With(VarOf(-imm), v.slots.Nth(VarOf(-imm)).Put(ByteOf(-imm), b)))
    else
      StoreAt(e, v, Address(v, rs1, imm), b)
  }

  function StoreWord(e: Env, v: View, rs1: Reg, imm: Imm, x: Word): Option<View> {
    if ViaSp(e, v, rs1, imm) then
      if imm % 4 == 0 then Some(v.(slots := v.slots.With(VarOf(-imm), Whole(x)))) else None
    else
      var a := Address(v, rs1, imm);
      if a % 4 != 0 || e.InCheck(a) then None
      else if e.InSlots(a) then Some(v.(slots := v.slots.With(VarOf(e.sp - a), Whole(x))))
      else Some(v.(data := PokeWord(v.data, a, x)))
  }

  function RunStep(e: Env, v: View, i: Instr): Option<View> {
    match i
    case Add(rd, rs1, rs2) => Some(v.(regs := Set(v.regs, rd, Plus(Get(v.regs, rs1), Get(v.regs, rs2)))))
    case Addi(rd, rs1, imm) => Some(v.(regs := Set(v.regs, rd, Plus(Get(v.regs, rs1), imm))))
    case Lui(rd, imm20) => Some(v.(regs := Set(v.regs, rd, UpperPart(imm20))))
    case Lw(rd, rs1, imm) =>
      (match LoadWord(e, v, rs1, imm)
       case None => None
       case Some(x) => Some(v.(regs := Set(v.regs, rd, x))))
    case Lbu(rd, rs1, imm) => Some(v.(regs := Set(v.regs, rd, LoadByte(e, v, rs1, imm))))
    case Sw(rs2, rs1, imm) => StoreWord(e, v, rs1, imm, Get(v.regs, rs2))
    case Sb(rs2, rs1, imm) => Some(StoreByte(e, v, rs1, imm, ByteAt(Get(v.regs, rs2), 0)))
    case Jalr(_, _, _) => None
  }

  function Run(e: Env, v: View, c: Code): Option<View>
    decreases c
  {
    match c
    case Nop => Some(v)
    case Do(i) => RunStep(e, v, i)
    case Then(a, b) =>
      match Run(e, v, a)
      case None => None
      case Some(w) => Run(e, w, b)
  }

  // ----- the view against the machine -----

  ghost predicate Sees(e: Env, v: View, s: Machine) {
    v.regs == s.regs && forall a :: 0 <= a < B32 ==> Peek(s.mem, a) == ViewByte(e, v, a)
  }

  lemma SlotValue(s: Slot)
    ensures s.Value() == Join(s.At(0), s.At(1), s.At(2), s.At(3))
  {
    if s.Whole? {
      JoinBytes(s.w);
    }
  }

  lemma Distances(e: Env, a: int, k: nat)
    requires e.sp % 4 == 0 && e.InSlots(a) && a % 4 == 0 && k < 4
    ensures e.InSlots(a + k) && VarOf(e.sp - (a + k)) == VarOf(e.sp - a) && ByteOf(e.sp - (a + k)) == k
  {
  }

  lemma ViaSpIsGeneral(e: Env, v: View, rs1: Reg, imm: Imm)
    requires e.Ok() && ViaSp(e, v, rs1, imm)
    ensures var a := Address(v, rs1, imm);
            a == e.sp + imm && e.InSlots(a) && !e.InCheck(a) && (imm % 4 == 0 <==> a % 4 == 0)
  {
  }

  lemma OutsideSlots(e: Env, a: int, k: nat)
    requires e.Ok() && !e.InSlots(a) && !e.InCheck(a) && a % 4 == 0 && 0 <= a < B32 && k < 4
    ensures 0 <= a + k < B32 && !e.InSlots(a + k) && !e.InCheck(a + k)
  {
  }

  /** An aligned word of the view outside the scratch array. */
  function ViewWord(e: Env, v: View, a: int): Word {
    if e.InSlots(a) then v.slots.Nth(VarOf(e.sp - a)).Value() else PeekWord(v.data, a)
  }

  lemma WordOfBytes(e: Env, v: View, a: int)
    requires e.Ok() && a % 4 == 0 && 0 <= a < B32 && !e.InCheck(a)
    ensures a + 3 < B32
    ensures ViewWord(e, v, a) ==
            Join(ViewByte(e, v, a), ViewByte(e, v, a + 1), ViewByte(e, v, a + 2), ViewByte(e, v, a + 3))
  {
    hide Join;
    if e.InSlots(a) {
      Distances(e, a, 0);
      Distances(e, a, 1);
      Distances(e, a, 2);
      Distances(e, a, 3);
      SlotValue(v.slots.Nth(VarOf(e.sp - a)));
    } else {
      OutsideSlots(e, a, 1);
      OutsideSlots(e, a, 2);
      OutsideSlots(e, a, 3);
    }
  }

  lemma LoadWordIsPeek(e: Env, v: View, s: Machine, rs1: Reg, imm: Imm)
    requires e.Ok() && Sees(e, v, s) && LoadWord(e, v, rs1, imm).Some?
    ensures var a := Plus(Get(s.regs, rs1), imm);
            a % 4 == 0 && LoadWord(e, v, rs1, imm).value == PeekWord(s.mem, a)
  {
    hide Join;
    hide ViewByte;
    var a := Address(v, rs1, imm);
    if ViaSp(e, v, rs1, imm) {
      ViaSpIsGeneral(e, v, rs1, imm);
    }
    WordOfBytes(e, v, a);
    assert LoadWord(e, v, rs1, imm).value == ViewWord(e, v, a);
  }

  lemma SlotsWith(s: Slots, n: VarNumber, m: VarNumber, x: Slot)
    ensures s.With(n, x).Nth(m) == if n == m then x else s.Nth(m)
  {
  }

  lemma StoreByteIsPoke(e: Env, v: View, s: Machine, rs1: Reg, imm: Imm, b: Byte)
    requires e.Ok() && Sees(e, v, s)
    ensures Sees(e, StoreByte(e, v, rs1, imm, b), s.(mem := s.mem[Plus(Get(s.regs, rs1), imm) := b]))
  {
    hide StoreAt;
    hide StoreByte;
    hide ViewByte;
    var a := Address(v, rs1, imm);
    var w, t := StoreByte(e, v, rs1, imm, b), s.(mem := s.mem[a := b]);
    StoreByteAt(e, v, rs1, imm, b);
    forall x | 0 <= x < B32 ensures Peek(t.mem, x) == ViewByte(e, w, x) {
      assert Peek(s.mem, x) == ViewByte(e, v, x);
      StoredByte(e, v, a, x, b);
    }
  }

  lemma StoreByteAt(e: Env, v: View, rs1: Reg, imm: Imm, b: Byte)
    requires e.Ok()
    ensures StoreByte(e, v, rs1, imm, b) == StoreAt(e, v, Address(v, rs1, imm), b)
    ensures StoreByte(e, v, rs1, imm, b).regs == v.regs
  {
    if ViaSp(e, v, rs1, imm) {
      ViaSpIsGeneral(e, v, rs1, imm);
    }
  }

  lemma StoredByte(e: Env, v: View, a: Word, x: int, b: Byte)
    requires e.Ok()
    ensures ViewByte(e, StoreAt(e, v, a, b), x) == if x == a then b else ViewByte(e, v, x)
  {
    if e.InSlots(a) && e.InSlots(x) {
      var n, k := VarOf(e.sp - a), ByteOf(e.sp - a);
      SlotsWith(v.slots, n, VarOf(e.sp - x), v.slots.Nth(n).Put(k, b));
    }
  }

  lemma StoreWordIsPoke(e: Env, v: View, s: Machine, rs1: Reg, imm: Imm, x: Word)
    requires e.Ok() && Sees(e, v, s) && StoreWord(e, v, rs1, imm, x).Some?
    ensures var a := Plus(Get(s.regs, rs1), imm);
            a % 4 == 0 && Sees(e, StoreWord(e, v, rs1, imm, x).value, s.(mem := PokeWord(s.mem, a, x)))
  {
    var a := Address(v, rs1, imm);
    if ViaSp(e, v, rs1, imm) {
      ViaSpIsGeneral(e, v, rs1, imm);
    }
    var w, t := StoreWord(e, v, rs1, imm, x).value, s.(mem := PokeWord(s.mem, a, x));
    forall y | 0 <= y < B32 ensures Peek(t.mem, y) == ViewByte(e, w, y) {
      assert Peek(s.mem, y) == ViewByte(e, v, y);
      if e.InSlots(a) {
        StoreWordInSlot(e, v, a, y, x);
      } else if a <= y < a + 4 {
        OutsideSlots(e, a, y - a);
      }
    }
  }

  lemma StoreWordInSlot(e: Env, v: View, a: int, y: int, x: Word)
    requires e.Ok() && e.InSlots(a) && a % 4 == 0
    ensures var w := v.(slots := v.slots.With(VarOf(e.sp - a), Whole(x)));
            ViewByte(e, w, y) == if a <= y < a + 4 then ByteAt(x, y - a) else ViewByte(e, v, y)
  {
    if e.InSlots(y) {
      SlotsWith(v.slots, VarOf(e.sp - a), VarOf(e.sp - y), Whole(x));
    }
    if a <= y < a + 4 {
      Distances(e, a, y - a);
    }
  }

  /** Each step of the view is a step of the machine. */
  lemma RunStepIsStep(e: Env, v: View, s: Machine, i: Instr)
    requires e.Ok() && Sees(e, v, s) && RunStep(e, v, i).Some?
    ensures Step(s, i).Some? && Sees(e, RunStep(e, v, i).value, Step(s, i).value)
  {
    match i
    case Add(_, _, _) =>
      SeesRegs(e, v, s, RunStep(e, v, i).value.regs);
    case Addi(_, _, _) =>
      SeesRegs(e, v, s, RunStep(e, v, i).value.regs);
    case Lui(_, _) =>
      SeesRegs(e, v, s, RunStep(e, v, i).value.regs);
    case Lw(_, rs1, imm) =>
      LoadWordIsPeek(e, v, s, rs1, imm);
      SeesRegs(e, v, s, RunStep(e, v, i).value.regs);
    case Lbu(_, rs1, imm) =>
      if ViaSp(e, v, rs1, imm) {
        ViaSpIsGeneral(e, v, rs1, imm);
      }
      SeesRegs(e, v, s, RunStep(e, v, i).value.regs);
    case Sw(rs2, rs1, imm) =>
      StoreWordIsPoke(e, v, s, rs1, imm, Get(v.regs, rs2));
    case Sb(rs2, rs1, imm) =>
      StoreByteIsPoke(e, v, s, rs1, imm, ByteAt(Get(v.regs, rs2), 0));
  }

  lemma SeesRegs(e: Env, v: View, s: Machine, regs: Regs)
    requires Sees(e, v, s)
    ensures Sees(e, v.(regs := regs), s.(regs := regs))
  {
    forall a | 0 <= a < B32 ensures Peek(s.mem, a) == ViewByte(e, v.(regs := regs), a) {
      assert Peek(s.mem, a) == ViewByte(e, v, a);
    }
  }

  lemma {:induction false} RunIsExec(e: Env, v: View, s: Machine, c: Code)
    requires e.Ok() && Sees(e, v, s) && Run(e, v, c).Some?
    ensures Exec(s, c).Some? && Sees(e, Run(e, v, c).value, Exec(s, c).value)
    decreases c
  {
    match c
    case Nop =>
    case Do(i) => RunStepIsStep(e, v, s, i);
    case Then(a, b) =>
      RunIsExec(e, v, s, a);
      RunIsExec(e, Run(e, v, a).value, Exec(s, a).value, b);
  }
}
