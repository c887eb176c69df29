/** The JMP command that closes every command buffer: four 32-bit words in buffer memory that the
    driver rewrites to thread the hardware-visible chain. This module works bit by bit on the first
    word and gives the decoded view on which the rest of the engine model is stated. */
module JmpWords {
  import opened Wrappers
  import BitNumbers

  const JMP_RDY_1: bv32 := 0x0400_0000
  const JMP_IE_1: bv32 := 0x0200_0000
  const OPCODE_JMP: bv32 := 0xC800_0000
  const U32: nat := 0x1_0000_0000

  /** The last four words of a command buffer, at offsets -4, -3, -2 and -1 from its end. */
  datatype Words = Words(op: bv32, lo: nat, hi: nat, id: nat)

  /** What the driver knows about the buffer a JMP should lead to. */
  datatype Target = Target(addr: nat, id: nat, size: bv32)

  /** The words as the hardware reads them. */
  datatype Jmp = Jmp(opcode: bv32, rdy: bool, ie: bool, spare: bv32, len: bv32, addr: nat, id: nat)

  /** Lengths are given to the hardware in units of eight bytes. */
  function LenUnits(size: bv32): bv32 {
    (size + 7) / 8
  }

  function Decode(w: Words): Jmp {
    Jmp(w.op >> 27, w.op & JMP_RDY_1 != 0, w.op & JMP_IE_1 != 0, w.op & 0x01FF_0000, w.op & 0xFFFF,
        w.hi * U32 + w.lo, w.id)
  }

  /** The test link_and_run_cmdbuf makes on the last command: opcode JMP. */
  predicate IsJmp(op: bv32) {
    (op >> 27) << 27 == OPCODE_JMP
  }

  /** The first word as vcmd_link_cmdbuf rewrites it: upper half kept, RDY and length set. */
  function LinkOp(op: bv32, size: bv32): bv32 {
    ((op >> 16) << 16) | JMP_RDY_1 | LenUnits(size)
  }

  /** The first word as cmdbuf_update_jmp_cmd rewrites it when there is a successor. */
  function UpdateOp(op: bv32, size: bv32, forceIe: bool): bv32 {
    ((op >> 16) << 16) | JMP_RDY_1 | (if forceIe then JMP_IE_1 else 0) | LenUnits(size)
  }

  /** The first word as cmdbuf_update_jmp_cmd rewrites it when there is none. */
  function CutOp(op: bv32): bv32 {
    ((op >> 16) << 16) & !JMP_RDY_1
  }

  /** The encoding written inline by vcmd_link_cmdbuf. The id word exists on newer hardware only. */
  function LinkWords(newHw: bool, w: Words, t: Target): Words {
    Words(LinkOp(w.op, t.size), t.addr % U32, t.addr / U32, if newHw then t.id else w.id)
  }

  /** The encoding of cmdbuf_update_jmp_cmd, used when a buffer is taken out of a linked chain. */
  function UpdateWords(newHw: bool, w: Words, next: Option<Target>, forceIe: bool): Words {
    match next
    case None => w.(op := CutOp(w.op))
    case Some(t) =>
      Words(UpdateOp(w.op, t.size, forceIe), t.addr % U32, t.addr / U32, if newHw then t.id else w.id)
  }

  /** Asking for an interrupt after this buffer. */
  function SetIeWords(w: Words): Words {
    w.(op := JMP_IE_1 | w.op)
  }

  /** The decoded effect of linking: RDY set, target filled in, opcode, IE and spare bits kept. */
  function JumpTo(newHw: bool, j: Jmp, addr: nat, id: nat, units: bv32): Jmp {
    j.(rdy := true, len := units, addr := addr, id := if newHw then id else j.id)
  }

  lemma LenFits(size: bv32)
    requires size <= 0xFFFF
    ensures LenUnits(size) & 0xFFFF_0000 == 0
  {
  }

  lemma SplitAddress(a: nat)
    ensures (a / U32) * U32 + a % U32 == a
  {
  }

  /** Linking rewrites only what it must: opcode, IE and spare bits survive, for every 32-bit word. */
  lemma LinkDecodes(newHw: bool, w: Words, t: Target)
    requires t.size <= 0xFFFF
    ensures Decode(LinkWords(newHw, w, t)) == JumpTo(newHw, Decode(w), t.addr, t.id, LenUnits(t.size))
  {
    LenFits(t.size);
    SplitAddress(t.addr);
    OpBits(w.op, LenUnits(t.size));
  }

  /** The length covers the size in bytes, with less than one unit to spare. */
  lemma LengthCovers(size: bv32)
    requires size <= 0xFFFF
    ensures size as nat <= 8 * (LenUnits(size) as nat) < size as nat + 8
  {
    BitNumbers.RoundsUp(size);
  }

  /** Where a linked JMP leads: to the target's address, with a length that covers the target, and on newer
      hardware to its id; on older hardware the id word is left alone. */
  lemma LinkLeadsTo(newHw: bool, w: Words, t: Target)
    requires t.size <= 0xFFFF
    ensures var j := Decode(LinkWords(newHw, w, t));
            && j.rdy && j.addr == t.addr && j.id == (if newHw then t.id else w.id)
            && t.size as nat <= 8 * (j.len as nat) < t.size as nat + 8
  {
    hide Decode, LenUnits, LinkWords;
    LinkDecodes(newHw, w, t);
    LengthCovers(t.size);
    IdIsKept(w);
  }

  lemma IdIsKept(w: Words)
    ensures Decode(w).id == w.id
  {
  }

  /** A JMP with IE set, linked to a buffer of 60 bytes with id 7 in the second 4 GiB, and closed again. */
  lemma LinkInstance()
    ensures var w := Words(0xCA00_0000, 0, 0, 0);
            var linked := LinkWords(true, w, Target(0x1_0000_4000, 7, 60));
            && IsJmp(w.op) && linked == Words(0xCE00_0008, 0x4000, 1, 7)
            && UpdateWords(true, linked, None, false) == linked.(op := 0xCA00_0000)
            && SetIeWords(Words(0xC800_0000, 0, 0, 0)) == w
  {
  }

  lemma OpBits(op: bv32, len: bv32)
    requires len & 0xFFFF_0000 == 0
    ensures var o := ((op >> 16) << 16) | JMP_RDY_1 | len;
            && o >> 27 == op >> 27
            && o & JMP_RDY_1 != 0
            && o & JMP_IE_1 == op & JMP_IE_1
            && o & 0x01FF_0000 == op & 0x01FF_0000
            && o & 0xFFFF == len
  {
  }

  /** Taking the pacing decision changes the IE bit and nothing else. */
  lemma SetIeDecodes(w: Words)
    ensures Decode(SetIeWords(w)) == Decode(w).(ie := true)
  {
    SetIeBits(w.op);
  }

  lemma SetIeBits(op: bv32)
    ensures var o := JMP_IE_1 | op;
            && o >> 27 == op >> 27
            && o & JMP_RDY_1 == op & JMP_RDY_1
            && o & JMP_IE_1 != 0
            && o & 0x01FF_0000 == op & 0x01FF_0000
            && o & 0xFFFF == op & 0xFFFF
  {
  }

  lemma OpsAgree(op: bv32, size: bv32)
    ensures UpdateOp(op, size, false) == LinkOp(op, size)
    ensures UpdateOp(op, size, true) == JMP_IE_1 | LinkOp(op, size)
  {
  }

  /** The two encoders in the driver agree on every bit when no interrupt is forced, and forcing one
      adds exactly the IE bit. */
  lemma EncodersAgree(newHw: bool, w: Words, t: Target)
    ensures UpdateWords(newHw, w, Some(t), false) == LinkWords(newHw, w, t)
    ensures UpdateWords(newHw, w, Some(t), true) == SetIeWords(LinkWords(newHw, w, t))
  {
    OpsAgree(w.op, t.size);
  }

  /** Without a successor the JMP is closed: RDY and the length are cleared, the rest is kept. */
  lemma CutDecodes(newHw: bool, w: Words, forceIe: bool)
    ensures Decode(UpdateWords(newHw, w, None, forceIe)) == Decode(w).(rdy := false, len := 0)
  {
    CutBits(w.op);
  }

  lemma CutBits(op: bv32)
    ensures var o := ((op >> 16) << 16) & !JMP_RDY_1;
            && o >> 27 == op >> 27
            && o & JMP_RDY_1 == 0
            && o & JMP_IE_1 == op & JMP_IE_1
            && o & 0x01FF_0000 == op & 0x01FF_0000
            && o & 0xFFFF == 0
  {
  }
}
