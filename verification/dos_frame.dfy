/**
 The stack frame between an INT 21h and its IRET: the pushes that build it, the assembler's slot
 offsets, and the C structure through which registered handlers see it.
 */
module DosFrame {
  import opened Words
  import opened FlatMemory
  import opened RealMode

  datatype Regs = Regs(
    ax: Word, bx: Word, cx: Word, dx: Word, si: Word, di: Word, bp: Word, sp: Word,
    ds: Word, es: Word, fs: Word, gs: Word, ss: Word, cs: Word, ip: Word, flags: Word)

  /** The C structure, in declaration order. */
  datatype IntRegs = IntRegs(
    di: Word, si: Word, bp: Word, sp: Word, bx: Word, dx: Word, cx: Word, ax: Word,
    gs: Word, fs: Word, es: Word, ds: Word, intnum: Word, ip: Word, cs: Word, flags: Word)

  // The byte offsets the assembler uses from BP.
  const INTR_FLAGS := 30
  const INTR_CS := 28
  const INTR_IP := 26
  const INTR_INTNUM := 24
  const INTR_DS := 22
  const INTR_ES := 20
  const INTR_FS := 18
  const INTR_GS := 16
  const INTR_AX := 14
  const INTR_CX := 12
  const INTR_DX := 10
  const INTR_BX := 8
  const INTR_SP := 6
  const INTR_BP := 4
  const INTR_SI := 2
  const INTR_DI := 0

  /** The word at byte offset `k` of the frame at ss:bp. */
  function Slot(m: Memory, masked: bool, ss: Word, bp: Word, k: int): Word {
    SegWord(m, masked, ss, Offset(bp, k))
  }

  /** The sixteen words of the frame, lowest address first. */
  function FrameWords(m: Memory, masked: bool, ss: Word, bp: Word): (r: seq<Word>)
    ensures |r| == 16
  {
    seq(16, i => Slot(m, masked, ss, bp, 2 * i))
  }

  /** A C structure of words has its fields at consecutive words. */
  function FrameOf(ws: seq<Word>): IntRegs
    requires |ws| == 16
  {
    IntRegs(ws[0], ws[1], ws[2], ws[3], ws[4], ws[5], ws[6], ws[7],
            ws[8], ws[9], ws[10], ws[11], ws[12], ws[13], ws[14], ws[15])
  }

  /** The C structure behind the far pointer ss:bp. */
  function FrameAt(m: Memory, masked: bool, ss: Word, bp: Word): IntRegs {
    FrameOf(FrameWords(m, masked, ss, bp))
  }

  /** The pushes of INT 21h and of the entry code, in order; PUSHA stores the stack pointer it starts from. */
  function PushOrder(r: Regs): (ws: seq<Word>)
    ensures |ws| == 16
  {
    [r.flags, r.cs, r.ip, 0x21, r.ds, r.es, r.fs, r.gs,
     r.ax, r.cx, r.dx, r.bx, Offset(r.sp, -16), r.bp, r.si, r.di]
  }

  /** The caller's registers as the C structure names them. */
  function FrameFor(r: Regs): IntRegs {
    IntRegs(r.di, r.si, r.bp, Offset(r.sp, -16), r.bx, r.dx, r.cx, r.ax,
            r.gs, r.fs, r.es, r.ds, 0x21, r.ip, r.cs, r.flags)
  }

  /** The caller's registers once the frame `f` has been popped, SP skipped and the stack balanced. */
  function Restored(f: IntRegs, ss: Word, sp: Word): Regs {
    Regs(f.ax, f.bx, f.cx, f.dx, f.si, f.di, f.bp, sp, f.ds, f.es, f.fs, f.gs, ss, f.cs, f.ip, f.flags)
  }

  /** Pushes leave the frame words in reverse order. */
  lemma PushedFrameWords(m: Memory, masked: bool, ss: Word, sp: Word, ws: seq<Word>, below: seq<Word>)
    requires |ws| == 16 && |below| <= 16
    ensures forall i :: 0 <= i < 16 ==>
              FrameWords(Pushed(m, masked, ss, sp, ws + below), masked, ss, Offset(sp, -32))[i] == ws[15 - i]
  {
    hide SegWord, Pushed, Offset;
    var after := Pushed(m, masked, ss, sp, ws + below);
    forall i | 0 <= i < 16 ensures FrameWords(after, masked, ss, Offset(sp, -32))[i] == ws[15 - i] {
      PushedWord(m, masked, ss, sp, ws + below, 15 - i);
      OffsetSum(sp, -32, 2 * i);
    }
  }

  /**
   After the entry pushes, and any pushes below them, the C structure at the frame holds the caller's
   registers by name, and so does every slot the assembler names.
   */
  lemma EntryFrame(m: Memory, masked: bool, r: Regs, below: seq<Word>)
    requires |below| <= 16
    ensures var after, bp := Pushed(m, masked, r.ss, r.sp, PushOrder(r) + below), Offset(r.sp, -32);
            && FrameAt(after, masked, r.ss, bp) == FrameFor(r)
            && Slot(after, masked, r.ss, bp, INTR_DI) == r.di && Slot(after, masked, r.ss, bp, INTR_SI) == r.si
            && Slot(after, masked, r.ss, bp, INTR_BP) == r.bp && Slot(after, masked, r.ss, bp, INTR_SP) == Offset(r.sp, -16)
            && Slot(after, masked, r.ss, bp, INTR_BX) == r.bx && Slot(after, masked, r.ss, bp, INTR_DX) == r.dx
            && Slot(after, masked, r.ss, bp, INTR_CX) == r.cx && Slot(after, masked, r.ss, bp, INTR_AX) == r.ax
            && Slot(after, masked, r.ss, bp, INTR_GS) == r.gs && Slot(after, masked, r.ss, bp, INTR_FS) == r.fs
            && Slot(after, masked, r.ss, bp, INTR_ES) == r.es && Slot(after, masked, r.ss, bp, INTR_DS) == r.ds
            && Slot(after, masked, r.ss, bp, INTR_INTNUM) == 0x21 && Slot(after, masked, r.ss, bp, INTR_IP) == r.ip
            && Slot(after, masked, r.ss, bp, INTR_CS) == r.cs && Slot(after, masked, r.ss, bp, INTR_FLAGS) == r.flags
  {
    var after, bp := Pushed(m, masked, r.ss, r.sp, PushOrder(r) + below), Offset(r.sp, -32);
    PushedFrameWords(m, masked, r.ss, r.sp, PushOrder(r), below);
    var ws := FrameWords(after, masked, r.ss, bp);
    SlotsAreFields(after, masked, r.ss, bp);
    hide Slot, FrameWords, Pushed, Offset;
    assert ws[0] == r.di && ws[1] == r.si && ws[2] == r.bp && ws[3] == Offset(r.sp, -16);
    assert ws[4] == r.bx && ws[5] == r.dx && ws[6] == r.cx && ws[7] == r.ax;
    assert ws[8] == r.gs && ws[9] == r.fs && ws[10] == r.es && ws[11] == r.ds;
    assert ws[12] == 0x21 && ws[13] == r.ip && ws[14] == r.cs && ws[15] == r.flags;
  }

  /** The assembler's offsets name the fields of the C structure. */
  lemma SlotsAreFields(m: Memory, masked: bool, ss: Word, bp: Word)
    ensures var f := FrameAt(m, masked, ss, bp);
            && f.di == Slot(m, masked, ss, bp, INTR_DI) && f.si == Slot(m, masked, ss, bp, INTR_SI)
            && f.bp == Slot(m, masked, ss, bp, INTR_BP) && f.sp == Slot(m, masked, ss, bp, INTR_SP)
            && f.bx == Slot(m, masked, ss, bp, INTR_BX) && f.dx == Slot(m, masked, ss, bp, INTR_DX)
            && f.cx == Slot(m, masked, ss, bp, INTR_CX) && f.ax == Slot(m, masked, ss, bp, INTR_AX)
            && f.gs == Slot(m, masked, ss, bp, INTR_GS) && f.fs == Slot(m, masked, ss, bp, INTR_FS)
            && f.es == Slot(m, masked, ss, bp, INTR_ES) && f.ds == Slot(m, masked, ss, bp, INTR_DS)
            && f.intnum == Slot(m, masked, ss, bp, INTR_INTNUM) && f.ip == Slot(m, masked, ss, bp, INTR_IP)
            && f.cs == Slot(m, masked, ss, bp, INTR_CS) && f.flags == Slot(m, masked, ss, bp, INTR_FLAGS)
  {
    hide Slot;
  }

  /** Writing one slot changes one frame word. */
  lemma SlotWritten(m: Memory, masked: bool, ss: Word, bp: Word, k: nat, w: Word)
    requires k < 16
    ensures FrameWords(WithSegWord(m, masked, ss, Offset(bp, 2 * k), w), masked, ss, bp) ==
            FrameWords(m, masked, ss, bp)[k := w]
  {
    hide SegWord, WithSegWord, Offset, OffsetsApart;
    var after := WithSegWord(m, masked, ss, Offset(bp, 2 * k), w);
    ReadBack(m, masked, ss, Offset(bp, 2 * k), w);
    forall i | 0 <= i < 16 && i != k ensures Slot(after, masked, ss, bp, 2 * i) == Slot(m, masked, ss, bp, 2 * i) {
      SlotsApart(bp, k, i);
      ReadElsewhere(m, masked, ss, Offset(bp, 2 * k), w, Offset(bp, 2 * i));
    }
  }

  lemma SlotsApart(bp: Word, k: nat, i: nat)
    requires k < 16 && i < 16 && k != i
    ensures OffsetsApart(Offset(bp, 2 * k), Offset(bp, 2 * i))
  {
  }

  lemma SlotWriteFrame(m: Memory, masked: bool, ss: Word, sp: Word, k: nat, w: Word)
    requires k < 16
    ensures SameButBelow(m, WithSegWord(m, masked, ss, Offset(Offset(sp, -32), 2 * k), w), masked, ss, sp, 32)
  {
    hide Cell, Offset;
    OffsetSum(sp, -32, 2 * k);
    OffsetNext(sp, 2 * k - 32);
    var at := Offset(sp, 2 * k - 32);
    assert Cell(masked, ss, at) == StackCell(masked, ss, sp, 32 - 2 * k);
    assert Cell(masked, ss, Offset(at, 1)) == StackCell(masked, ss, sp, 31 - 2 * k);
  }

  /** A change below the caller's frame followed by one inside it. */
  lemma FrameChangeJoined(m0: Memory, m1: Memory, m2: Memory, masked: bool, ss: Word, sp: Word)
    requires SameButBelow(m0, m1, masked, ss, sp, 36) && SameButBelow(m1, m2, masked, ss, sp, 32)
    ensures SameButBelow(m0, m2, masked, ss, sp, 36)
  {
    SameButBelowMore(m1, m2, masked, ss, sp, 32, 36);
    hide BelowStack;
  }

  /** The C structure part of `EntryFrame`. */
  lemma EntryStruct(m: Memory, masked: bool, r: Regs, below: seq<Word>)
    requires |below| <= 16
    ensures FrameAt(Pushed(m, masked, r.ss, r.sp, PushOrder(r) + below), masked, r.ss, Offset(r.sp, -32)) == FrameFor(r)
  {
    hide *;
    EntryFrame(m, masked, r, below);
  }

  /** The register that each frame word becomes; word 3, the stored stack pointer, is skipped. */
  function RegisterOf(r: Regs, i: nat): Word
    requires i < 16
  {
    [r.di, r.si, r.bp, Offset(r.sp, -16), r.bx, r.dx, r.cx, r.ax,
     r.gs, r.fs, r.es, r.ds, 0x21, r.ip, r.cs, r.flags][i]
  }

  /**
   Entry and exit are inverse around any handler. Whatever it does to memory, each register comes back
   from its slot, so every slot that still holds its word restores that register, SP is balanced, and
   a handler that leaves the frame alone, the stored SP apart, restores all registers.
   */
  lemma EntryExitInverse(m: Memory, n: Memory, masked: bool, r: Regs, below: seq<Word>)
    requires |below| <= 16
    ensures var bp := Offset(r.sp, -32);
            var after := Pushed(m, masked, r.ss, r.sp, PushOrder(r) + below);
            var out := Restored(FrameAt(n, masked, r.ss, bp), r.ss, r.sp);
            && out.ss == r.ss && out.sp == r.sp
            && (forall i :: 0 <= i < 16 && i != 3 && i != 12 ==>
                  RegisterOf(out, i) == FrameWords(n, masked, r.ss, bp)[i]
                  && FrameWords(after, masked, r.ss, bp)[i] == RegisterOf(r, i))
            && ((forall i :: 0 <= i < 16 && i != 3 ==>
                  FrameWords(n, masked, r.ss, bp)[i] == FrameWords(after, masked, r.ss, bp)[i]) ==> out == r)
  {
    PushedFrameWords(m, masked, r.ss, r.sp, PushOrder(r), below);
    var bp := Offset(r.sp, -32);
    var after := Pushed(m, masked, r.ss, r.sp, PushOrder(r) + below);
    hide Pushed, FrameWords, Offset;
    RestoredFrom(r, FrameWords(n, masked, r.ss, bp), FrameWords(after, masked, r.ss, bp));
  }

  lemma RestoredFrom(r: Regs, ws: seq<Word>, vs: seq<Word>)
    requires |ws| == |vs| == 16 && forall i :: 0 <= i < 16 ==> vs[i] == PushOrder(r)[15 - i]
    ensures var out := Restored(FrameOf(ws), r.ss, r.sp);
            && (forall i :: 0 <= i < 16 && i != 3 && i != 12 ==> RegisterOf(out, i) == ws[i] && vs[i] == RegisterOf(r, i))
            && ((forall i :: 0 <= i < 16 && i != 3 ==> ws[i] == vs[i]) ==> out == r)
  {
    hide Offset;
    assert vs[0] == r.di && vs[1] == r.si && vs[2] == r.bp && vs[4] == r.bx && vs[5] == r.dx && vs[6] == r.cx;
    assert vs[7] == r.ax && vs[8] == r.gs && vs[9] == r.fs && vs[10] == r.es && vs[11] == r.ds;
    assert vs[13] == r.ip && vs[14] == r.cs && vs[15] == r.flags;
  }
}
