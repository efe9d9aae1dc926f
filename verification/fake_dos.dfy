/**
 The fake DOS: INT 21h from the caller's registers through the frame, the dispatch table and the
 handlers back to the caller. Handlers work on the frame's slots, which IRET turns into registers.
 */
module FakeDos {
  import opened Words
  import opened FlatMemory
  import opened RealMode
  import opened DosFrame
  import opened DispatchTable

  const PROGRAM_TERMINATED: Word := 0
  const INT21H_OUT_OF_RANGE: Word := 1
  const UNSUPPORTED_DOS44FN: Word := 3

  /** How an interrupt ends: back at the caller, with an error message and a reset, or halted outright. */
  datatype Flow = Returned | Failed(code: Word) | Stopped

  function Ascii(text: string): (r: seq<Byte>)
    requires forall i :: 0 <= i < |text| ==> text[i] < 128 as char
    ensures |r| == |text|
  {
    seq(|text|, i requires 0 <= i < |text| => text[i] as int)
  }

  /** The names that the stub's table gives to the low three bits of an error code. */
  function ErrorName(code: Word): (r: string)
    ensures |r| == 3 && forall i :: 0 <= i < |r| ==> r[i] < 128 as char
  {
    match code % 8
    case 0 => "EXI"
    case 1 => "BAF"
    case 2 => "NOI"
    case 3 => "INI"
    case 4 => "A20"
    case 5 => "FRM"
    case 6 => "DBG"
    case _ => "UEC"
  }

  const NEW_LINE: seq<Byte> := [13, 10]

  /** What is written to the console before the reset. */
  function Message(code: Word): (r: seq<Byte>)
    ensures |r| == 33 && r[..3] == Ascii(ErrorName(code))
  {
    Ascii(ErrorName(code)) + NEW_LINE + Ascii("Press any key to reboot...") + NEW_LINE
  }

  // ---- The services, on the frame ----

  function ClearCarry(flags: Word): Word {
    flags - flags % 2
  }

  function SetCarry(flags: Word): Word {
    flags - flags % 2 + 1
  }

  /** LOOP decrements before it tests, so a count of zero means 65536 turns. */
  function LoopTurns(cx: Word): nat {
    if cx == 0 then 0x1_0000 else cx
  }

  /** `n` bytes from segment:offset on, the offset wrapping at 64 KiB. */
  function BytesAt(m: Memory, masked: bool, segment: Word, offset: Word, n: nat): (r: seq<Byte>)
    ensures |r| == n
  {
    seq(n, i requires 0 <= i => m[Cell(masked, segment, Offset(offset, i))])
  }

  /** The device information table, one word for each of the three handles. */
  const DEVICE_FLAGS: seq<Word> := [0x81, 0x82, 0x82]

  /** What a service does: the frame it leaves and the text it writes, or a halt. */
  datatype Reply = Reply(flow: Flow, frame: IntRegs, text: seq<Byte>, echoed: bool)

  function Done(f: IntRegs): Reply {
    Reply(Returned, f, [], false)
  }

  /** DOS function 4A: the requested block fits if it belongs to the PSP and ends below the top of memory. */
  function Resized(f: IntRegs, psp: Word, top: Word): IntRegs {
    if f.es != psp / 16 then f.(flags := SetCarry(f.flags), ax := 9, es := Xor16(f.es, psp / 16))
    else if f.bx > top then f.(flags := SetCarry(f.flags), ax := 8, es := 0, bx := top)
    else f.(flags := ClearCarry(f.flags), ax := 0, es := 0, bx := top)
  }

  function Serve(labels: Labels, m: Memory, masked: bool, ah: Byte, f: IntRegs): Reply
    requires LaidOut(labels)
  {
    match ah
    case 0x02 => Reply(Returned, f.(ax := f.dx, flags := ClearCarry(f.flags)), [Low(f.dx)], false)
    case 0x30 => Done(f.(bx := if Low(f.ax) == 0 then 0xFD2B else 0x2B, ax := 0x1606, flags := ClearCarry(f.flags)))
    case 0x40 =>
      if f.bx != 1 then Done(f.(ax := 6, flags := SetCarry(f.flags)))
      else
        Reply(Returned, f.(ax := f.cx, flags := ClearCarry(f.flags)), BytesAt(m, masked, f.ds, f.dx, LoopTurns(f.cx)), true)
    case 0x44 =>
      if Low(f.ax) != 0 then Reply(Failed(UNSUPPORTED_DOS44FN), f, Message(UNSUPPORTED_DOS44FN), false)
      else if f.bx > 2 then Done(f.(flags := SetCarry(f.flags)))
      else Done(f.(dx := DEVICE_FLAGS[f.bx], ax := DEVICE_FLAGS[f.bx], flags := ClearCarry(f.flags)))
    case 0x4A => Done(Resized(f, labels.psp, WordAt(m, labels.psp + 2)))
    case 0x4C => Reply(Failed(PROGRAM_TERMINATED), f, Message(PROGRAM_TERMINATED), false)
    case 0x63 => Done(f.(ds := 0, si := labels.dbcs, flags := ClearCarry(f.flags)))
    case _ => Reply(Stopped, f, [], false)
  }

  /** The assembler gives different handlers different addresses. */
  predicate Distinct(l: Labels) {
    && l.notImpl !in {l.fun02, l.fun30, l.fun40, l.fun44, l.fun4a, l.fun4c, l.fun63}
    && l.fun02 !in {l.fun30, l.fun40, l.fun44, l.fun4a, l.fun4c, l.fun63}
    && l.fun30 !in {l.fun40, l.fun44, l.fun4a, l.fun4c, l.fun63}
    && l.fun40 !in {l.fun44, l.fun4a, l.fun4c, l.fun63}
    && l.fun44 !in {l.fun4a, l.fun4c, l.fun63}
    && l.fun4a !in {l.fun4c, l.fun63} && l.fun4c != l.fun63
  }

  /** The stack the interrupt uses stays clear of the table, the vectors and the PSP's memory-top word. */
  ghost predicate StackClear(labels: Labels, masked: bool, r: Regs) {
    forall a: int :: Owned(labels, a) ==> !BelowStack(masked, r.ss, r.sp, 36, a)
  }

  /**
   What INT 21h does for a caller with registers `r` and memory `m`: the handler finds the frame and
   the far call's return address pushed.
   */
  function Service(labels: Labels, masked: bool, m: Memory, r: Regs): Reply
    requires LaidOut(labels)
  {
    Serve(labels, Pushed(m, masked, r.ss, r.sp, PushOrder(r) + [0, labels.resume]), masked, High(r.ax), FrameFor(r))
  }

  /** A processor with its memory, and what it has written to the console and the serial line. */
  class Machine {
    const mem: array<Byte>
    const masked: bool
    const labels: Labels
    const port: Word
    var regs: Regs
    var console: seq<Byte>
    var serial: seq<Byte>

    constructor (mem: array<Byte>, masked: bool, labels: Labels, port: Word, regs: Regs)
      ensures this.mem == mem && this.masked == masked && this.labels == labels && this.port == port
      ensures this.regs == regs && console == [] && serial == []
    {
      this.mem, this.masked, this.labels, this.port := mem, masked, labels, port;
      this.regs, console, serial := regs, [], [];
    }

    predicate Valid() {
      mem.Length == TWO32 && LaidOut(labels) && Distinct(labels)
    }

    // ---- The stack ----

    /** Pushes word `k` of `ws`, the pushes that started at `sp0` in memory `m0`. */
    method Push(w: Word, ghost m0: Memory, ghost sp0: Word, ghost ws: seq<Word>, ghost k: nat)
      requires Valid() && k < |ws| && w == ws[k]
      requires mem[..] == Pushed(m0, masked, regs.ss, sp0, ws[..k]) && regs.sp == Offset(sp0, -2 * k)
      modifies this`regs, mem
      ensures mem[..] == Pushed(m0, masked, regs.ss, sp0, ws[..k + 1])
      ensures regs == old(regs).(sp := Offset(sp0, -2 * (k + 1)))
    {
      hide Pushed, Offset, WithSegWord, Distinct, LaidOut;
      OffsetSum(sp0, -2 * k, -2);
      assert ws[..k + 1] == ws[..k] + [w];
      PushedSnoc(m0, masked, regs.ss, sp0, ws[..k], w);
      regs := regs.(sp := Offset(regs.sp, -2));
      StoreSegWord(mem, masked, regs.ss, regs.sp, w);
    }

    /** Pops slot `k` of the frame at `bp`. */
    method Pop(ghost bp: Word, ghost k: nat) returns (w: Word)
      requires Valid() && regs.sp == Offset(bp, k)
      modifies this`regs
      ensures w == Slot(mem[..], masked, regs.ss, bp, k)
      ensures regs == old(regs).(sp := Offset(bp, k + 2))
    {
      hide Distinct, LaidOut;
      OffsetSum(bp, k, 2);
      w := LoadSegWord(mem, masked, regs.ss, regs.sp);
      regs := regs.(sp := Offset(regs.sp, 2));
    }

    /** INT 21h itself: flags, code segment and instruction pointer are pushed, and the vector is followed. */
    method Interrupt()
      requires Valid() && VectorsHold(mem[..], labels) && StackClear(labels, masked, regs)
      modifies this`regs, mem
      ensures mem[..] == Pushed(old(mem[..]), masked, regs.ss, old(regs.sp), PushOrder(old(regs))[..3])
      ensures regs == old(regs).(sp := Offset(old(regs.sp), -6), cs := 0, ip := labels.int21)
    {
      hide Pushed, Offset, Distinct, LaidOut, VectorsHold, StackClear;
      ghost var m0, r, ws := mem[..], regs, PushOrder(regs);
      OffsetZero(r.sp);
      PushedNothing(m0, masked, r.ss, r.sp);
      assert ws[..0] == [];
      Push(regs.flags, m0, r.sp, ws, 0);
      Push(regs.cs, m0, r.sp, ws, 1);
      Push(regs.ip, m0, r.sp, ws, 2);
      var vector := LoadAddress(mem, 4 * 0x21);
      VectorKept(m0, labels, masked, r, ws[..3]);
      regs := regs.(ip := vector.off, cs := vector.seg);
    }

    /** The entry code's pushes of the interrupt number and the segment registers. */
    method PushSegments(ghost m0: Memory, ghost r: Regs)
      requires Valid() && regs == r.(sp := Offset(r.sp, -6), cs := 0, ip := labels.int21)
      requires mem[..] == Pushed(m0, masked, r.ss, r.sp, PushOrder(r)[..3])
      modifies this`regs, mem
      ensures mem[..] == Pushed(m0, masked, r.ss, r.sp, PushOrder(r)[..8])
      ensures regs == old(regs).(sp := Offset(r.sp, -16))
    {
      hide Pushed, Offset, Distinct, LaidOut;
      Push(0x21, m0, r.sp, PushOrder(r), 3);
      Push(regs.ds, m0, r.sp, PushOrder(r), 4);
      Push(regs.es, m0, r.sp, PushOrder(r), 5);
      Push(regs.fs, m0, r.sp, PushOrder(r), 6);
      Push(regs.gs, m0, r.sp, PushOrder(r), 7);
    }

    /** PUSHA, first half and second half around the stack pointer it stores. */
    method PushAll(ghost m0: Memory, ghost r: Regs)
      requires Valid() && regs == r.(sp := Offset(r.sp, -16), cs := 0, ip := labels.int21)
      requires mem[..] == Pushed(m0, masked, r.ss, r.sp, PushOrder(r)[..8])
      modifies this`regs, mem
      ensures mem[..] == Pushed(m0, masked, r.ss, r.sp, PushOrder(r))
      ensures regs == old(regs).(sp := Offset(r.sp, -32))
    {
      hide Pushed, Offset, Distinct, LaidOut;
      var sp := regs.sp;
      Push(regs.ax, m0, r.sp, PushOrder(r), 8);
      Push(regs.cx, m0, r.sp, PushOrder(r), 9);
      Push(regs.dx, m0, r.sp, PushOrder(r), 10);
      Push(regs.bx, m0, r.sp, PushOrder(r), 11);
      Push(sp, m0, r.sp, PushOrder(r), 12);
      Push(regs.bp, m0, r.sp, PushOrder(r), 13);
      Push(regs.si, m0, r.sp, PushOrder(r), 14);
      Push(regs.di, m0, r.sp, PushOrder(r), 15);
      assert PushOrder(r)[..16] == PushOrder(r);
    }

    /** INT 21h and the entry code up to the far call: sixteen pushes, BP at the frame, DX:AX pointing to it. */
    method Enter()
      requires Valid() && VectorsHold(mem[..], labels) && StackClear(labels, masked, regs)
      modifies this`regs, mem
      ensures mem[..] == Pushed(old(mem[..]), masked, old(regs.ss), old(regs.sp), PushOrder(old(regs)))
      ensures var r, bp := old(regs), Offset(old(regs.sp), -32);
              && regs.ss == r.ss && regs.sp == bp && regs.bp == bp
              && regs.dx == r.ss && regs.ax == bp && regs.si == 4 * High(r.ax) && regs.cs == 0
    {
      hide Pushed, Offset, PushOrder, Distinct, LaidOut, StackClear, VectorsHold;
      ghost var m0, r := mem[..], regs;
      Interrupt();
      PushSegments(m0, r);
      PushAll(m0, r);
      var si := High(regs.ax) * 4;
      regs := regs.(bp := regs.sp, si := si, dx := regs.ss, ax := regs.sp);
    }

    /** The exit code and IRET: every register but SP comes from its slot, and SP is balanced. */
    method Leave(ghost sp: Word)
      requires Valid() && regs.sp == Offset(sp, -32)
      modifies this`regs
      ensures regs == Restored(FrameAt(mem[..], masked, old(regs.ss), Offset(sp, -32)), old(regs.ss), sp)
    {
      hide Offset, Slot, Distinct, LaidOut;
      ghost var bp := Offset(sp, -32);
      OffsetZero(bp);
      var di := Pop(bp, 0);
      var si := Pop(bp, 2);
      var bpSlot := Pop(bp, 4);
      var skipped := Pop(bp, 6);
      var bx := Pop(bp, 8);
      var dx := Pop(bp, 10);
      var cx := Pop(bp, 12);
      var ax := Pop(bp, 14);
      var gs := Pop(bp, 16);
      var fs := Pop(bp, 18);
      var es := Pop(bp, 20);
      var ds := Pop(bp, 22);
      var intnum := Pop(bp, 24);
      var ip := Pop(bp, 26);
      var cs := Pop(bp, 28);
      var flags := Pop(bp, 30);
      OffsetSum(sp, -32, 32);
      OffsetZero(sp);
      regs := Regs(ax, bx, cx, dx, si, di, bpSlot, regs.sp, ds, es, fs, gs, regs.ss, cs, ip, flags);
    }

    // ---- Handlers: BP is at the frame, which lies right below the caller's `sp` ----

    function LoadSlot(k: nat): (w: Word)
      requires Valid()
      reads this, mem
      ensures w == Slot(mem[..], masked, regs.ss, regs.bp, k)
    {
      LoadSegWord(mem, masked, regs.ss, Offset(regs.bp, k))
    }

    /** The text that function 40 writes for the frame at BP. */
    ghost function Text(): seq<Byte>
      requires Valid()
      reads this, mem
    {
      BytesAt(mem[..], masked, Frame().ds, Frame().dx, LoopTurns(Frame().cx))
    }

    ghost function Frame(): IntRegs
      requires Valid()
      reads this, mem
    {
      FrameAt(mem[..], masked, regs.ss, regs.bp)
    }

    method StoreSlot(k: nat, w: Word, ghost sp: Word)
      requires Valid() && k < 32 && k % 2 == 0 && regs.bp == Offset(sp, -32)
      modifies mem
      ensures FrameWords(mem[..], masked, regs.ss, regs.bp) ==
              old(FrameWords(mem[..], masked, regs.ss, regs.bp))[k / 2 := w]
      ensures SameButBelow(old(mem[..]), mem[..], masked, regs.ss, sp, 32)
    {
      hide SegWord, WithSegWord, Offset, BelowStack, Distinct, LaidOut;
      SlotWritten(mem[..], masked, regs.ss, regs.bp, k / 2, w);
      SlotWriteFrame(mem[..], masked, regs.ss, sp, k / 2, w);
      StoreSegWord(mem, masked, regs.ss, Offset(regs.bp, k), w);
    }

    /** Function 02: write a character. */
    method Teletype(ghost sp: Word)
      requires Valid() && regs.bp == Offset(sp, -32)
      modifies this, mem
      ensures Frame() == old(Frame()).(ax := old(Frame()).dx, flags := ClearCarry(old(Frame()).flags))
      ensures console == old(console) + [Low(old(Frame()).dx)] && serial == old(serial)
      ensures regs.ss == old(regs.ss) && regs.bp == old(regs.bp) && regs.sp == old(regs.sp)
      ensures SameButBelow(old(mem[..]), mem[..], masked, regs.ss, sp, 32)
    {
      hide Slot, Offset, BelowStack, Distinct, LaidOut, ClearCarry, Low;
      SlotsAreFields(mem[..], masked, regs.ss, regs.bp);
      var dx, flags := LoadSlot(INTR_DX), LoadSlot(INTR_FLAGS);
      console := console + [Low(dx)];
      regs := regs.(ax := dx, bx := 0);
      StoreSlot(INTR_AX, dx, sp);
      StoreSlot(INTR_FLAGS, ClearCarry(flags), sp);
    }

    /** Function 30: the version. */
    method GetVersion(ghost sp: Word)
      requires Valid() && regs.bp == Offset(sp, -32)
      modifies this`regs, mem
      ensures Frame() == old(Frame()).(bx := if Low(old(Frame()).ax) == 0 then 0xFD2B else 0x2B, ax := 0x1606,
                                       flags := ClearCarry(old(Frame()).flags))
      ensures regs.ss == old(regs.ss) && regs.bp == old(regs.bp) && regs.sp == old(regs.sp)
      ensures SameButBelow(old(mem[..]), mem[..], masked, regs.ss, sp, 32)
    {
      hide Slot, Offset, BelowStack, Distinct, LaidOut, ClearCarry;
      SlotsAreFields(mem[..], masked, regs.ss, regs.bp);
      var bx: Word := 0xFD2B;
      var ax, flags := LoadSlot(INTR_AX), LoadSlot(INTR_FLAGS);
      if Low(ax) != 0 {
        bx := Low(bx);
      }
      regs := regs.(bx := bx, ax := ax);
      StoreSlot(INTR_BX, bx, sp);
      StoreSlot(INTR_AX, 0x1606, sp);
      StoreSlot(INTR_FLAGS, ClearCarry(flags), sp);
    }

    /** Function 40: write CX bytes to the console, and to the serial line if there is one. */
    method WriteDevice(ghost sp: Word)
      requires Valid() && regs.bp == Offset(sp, -32)
      modifies this, mem
      ensures var f := old(Frame());
              if f.bx != 1 then
                Frame() == f.(ax := 6, flags := SetCarry(f.flags)) && console == old(console) && serial == old(serial)
              else
                var text := old(Text());
                && Frame() == f.(ax := f.cx, flags := ClearCarry(f.flags))
                && console == old(console) + text
                && serial == old(serial) + if port < 4 then text else []
      ensures regs.ss == old(regs.ss) && regs.bp == old(regs.bp) && regs.sp == old(regs.sp)
      ensures SameButBelow(old(mem[..]), mem[..], masked, regs.ss, sp, 32)
    {
      hide Slot, Offset, BelowStack, Distinct, LaidOut, ClearCarry, SetCarry, BytesAt, LoopTurns;
      SlotsAreFields(mem[..], masked, regs.ss, regs.bp);
      var flags := LoadSlot(INTR_FLAGS);
      if LoadSlot(INTR_BX) != 1 {
        StoreSlot(INTR_AX, 6, sp);
        StoreSlot(INTR_FLAGS, SetCarry(flags), sp);
        return;
      }
      regs := regs.(ds := LoadSlot(INTR_DS), si := LoadSlot(INTR_DX), cx := LoadSlot(INTR_CX));
      PrintLoop();
      var cx := LoadSlot(INTR_CX);
      StoreSlot(INTR_AX, cx, sp);
      StoreSlot(INTR_FLAGS, ClearCarry(flags), sp);
    }

    /** LODSB, teletype, serial, LOOP. */
    method PrintLoop()
      requires Valid()
      modifies this`regs, this`console, this`serial
      ensures var text := BytesAt(mem[..], masked, old(regs.ds), old(regs.si), LoopTurns(old(regs.cx)));
              console == old(console) + text && serial == old(serial) + if port < 4 then text else []
      ensures regs.ss == old(regs.ss) && regs.bp == old(regs.bp) && regs.sp == old(regs.sp)
    {
      hide Cell, Distinct, LaidOut;
      ghost var n: nat, r := 0, regs;
      var more := true;
      while more
        invariant mem[..] == old(mem[..])
        invariant 0 <= n <= LoopTurns(r.cx) && (more <==> n < LoopTurns(r.cx))
        invariant regs.ds == r.ds && regs.si == Offset(r.si, n) && regs.cx == Offset(r.cx, 0 - n)
        invariant regs.ss == r.ss && regs.bp == r.bp && regs.sp == r.sp
        invariant console == old(console) + BytesAt(mem[..], masked, r.ds, r.si, n)
        invariant serial == old(serial) + if port < 4 then BytesAt(mem[..], masked, r.ds, r.si, n) else []
        decreases LoopTurns(r.cx) - n
      {
        BytesNext(mem[..], masked, r.ds, r.si, n);
        LoopNext(r.cx, n);
        OffsetSum(r.si, n, 1);
        OffsetSum(r.cx, 0 - n, -1);
        var al := mem[Cell(masked, regs.ds, regs.si)];
        regs := regs.(bx := 0, si := Offset(regs.si, 1));
        console := console + [al];
        if port < 4 {
          serial := serial + [al];
        }
        regs := regs.(cx := Offset(regs.cx, -1));
        more := regs.cx != 0;
        n := n + 1;
      }
    }

    /** Function 44: device information; any other subfunction halts. */
    method DeviceInfo(ghost sp: Word) returns (flow: Flow)
      requires Valid() && regs.bp == Offset(sp, -32)
      modifies this`regs, mem
      ensures var f := old(Frame());
              if Low(f.ax) != 0 then flow == Failed(UNSUPPORTED_DOS44FN) && Frame() == f
              else if f.bx > 2 then flow == Returned && Frame() == f.(flags := SetCarry(f.flags))
              else
                && flow == Returned
                && Frame() == f.(dx := DEVICE_FLAGS[f.bx], ax := DEVICE_FLAGS[f.bx], flags := ClearCarry(f.flags))
      ensures regs.ss == old(regs.ss) && regs.bp == old(regs.bp) && regs.sp == old(regs.sp)
      ensures SameButBelow(old(mem[..]), mem[..], masked, regs.ss, sp, 32)
    {
      hide Slot, Offset, BelowStack, Distinct, LaidOut, ClearCarry, SetCarry;
      SlotsAreFields(mem[..], masked, regs.ss, regs.bp);
      var ax, bx, flags := LoadSlot(INTR_AX), LoadSlot(INTR_BX), LoadSlot(INTR_FLAGS);
      if Low(ax) != 0 {
        return Failed(UNSUPPORTED_DOS44FN);
      }
      if bx > 2 {
        StoreSlot(INTR_FLAGS, SetCarry(flags), sp);
        regs := regs.(ax := 6);
        return Returned;
      }
      regs := regs.(bx := 2 * bx);
      regs := regs.(ax := DEVICE_FLAGS[regs.bx / 2]);
      StoreSlot(INTR_DX, regs.ax, sp);
      StoreSlot(INTR_AX, regs.ax, sp);
      StoreSlot(INTR_FLAGS, ClearCarry(flags), sp);
      return Returned;
    }

    /** The memory-top word is not part of the frame below `sp`. */
    ghost predicate TopClear(sp: Word)
      requires Valid()
      reads this`regs
    {
      !BelowStack(masked, regs.ss, sp, 32, labels.psp + 2) && !BelowStack(masked, regs.ss, sp, 32, labels.psp + 3)
    }

    /** Function 4A: resize a block, through the same overwritten slots as the code. */
    method Resize(ghost sp: Word)
      requires Valid() && regs.bp == Offset(sp, -32)
      requires TopClear(sp)
      modifies this`regs, mem
      ensures Frame() == Resized(old(Frame()), labels.psp, WordAt(old(mem[..]), labels.psp + 2))
      ensures regs.ss == old(regs.ss) && regs.bp == old(regs.bp) && regs.sp == old(regs.sp)
      ensures SameButBelow(old(mem[..]), mem[..], masked, regs.ss, sp, 32)
    {
      hide Slot, Offset, BelowStack, Distinct, ClearCarry, SetCarry;
      SlotsAreFields(mem[..], masked, regs.ss, regs.bp);
      var flags, es, requested := LoadSlot(INTR_FLAGS), LoadSlot(INTR_ES), LoadSlot(INTR_BX);
      StoreSlot(INTR_FLAGS, SetCarry(flags), sp);
      StoreSlot(INTR_AX, 9, sp);
      var xored := Xor16(es, labels.psp / 16);
      StoreSlot(INTR_ES, xored, sp);
      if xored != 0 {
        return;
      }
      StoreSlot(INTR_AX, 8, sp);
      var top: Word := mem[labels.psp + 2] as int + 0x100 * mem[labels.psp + 3] as int;
      StoreSlot(INTR_BX, top, sp);
      regs := regs.(bx := requested);
      if requested > top {
        return;
      }
      StoreSlot(INTR_FLAGS, ClearCarry(flags), sp);
      StoreSlot(INTR_AX, 0, sp);
    }

    /** Function 63: the lead byte table, in the code segment. */
    method LeadBytes(ghost sp: Word)
      requires Valid() && regs.bp == Offset(sp, -32)
      modifies mem
      ensures Frame() == old(Frame()).(ds := regs.cs, si := labels.dbcs, flags := ClearCarry(old(Frame()).flags))
      ensures SameButBelow(old(mem[..]), mem[..], masked, regs.ss, sp, 32)
    {
      hide Slot, Offset, BelowStack, Distinct, LaidOut, ClearCarry;
      SlotsAreFields(mem[..], masked, regs.ss, regs.bp);
      var flags := LoadSlot(INTR_FLAGS);
      StoreSlot(INTR_DS, regs.cs, sp);
      StoreSlot(INTR_SI, labels.dbcs, sp);
      StoreSlot(INTR_FLAGS, ClearCarry(flags), sp);
    }

    /** The error exit: the message is written, and the machine is reset once a key has been pressed. */
    method Halt(code: Word) returns (flow: Flow)
      modifies this`console
      ensures flow == Failed(code) && console == old(console) + Message(code)
    {
      console := console + Message(code);
      return Failed(code);
    }

    // ---- The whole interrupt ----

    /**
     INT 21h from call to return, through its vector and the table. A function number from 80h up ends
     with a message; any other reaches its own handler, and on return every register holds what the
     service left in its slot, with SP balanced.
     */
    method Int21() returns (flow: Flow)
      requires Valid() && VectorsHold(mem[..], labels) && TableHolds(mem[..], labels)
      requires StackClear(labels, masked, regs)
      modifies this, mem
      ensures High(old(regs.ax)) >= 0x80 ==>
                && flow == Failed(INT21H_OUT_OF_RANGE)
                && console == old(console) + Message(INT21H_OUT_OF_RANGE) && serial == old(serial)
      ensures High(old(regs.ax)) < 0x80 ==>
                var reply := Service(labels, masked, old(mem[..]), old(regs));
                && flow == reply.flow
                && (flow.Returned? ==> regs == Restored(reply.frame, old(regs.ss), old(regs.sp)))
                && console == old(console) + reply.text
                && serial == old(serial) + if reply.echoed && port < 4 then reply.text else []
      ensures SameButBelow(old(mem[..]), mem[..], masked, old(regs.ss), old(regs.sp), 36)
    {
      hide Pushed, Offset, PushOrder, Distinct, LaidOut, StackClear, BelowStack, Restored, Service, TableHolds,
           VectorsHold, Message;
      ghost var m0, r := mem[..], regs;
      var ah := High(regs.ax);
      Enter();
      if ah >= 0x80 {
        PushedSameButBelow(m0, masked, r.ss, r.sp, PushOrder(r));
        SameButBelowMore(m0, mem[..], masked, r.ss, r.sp, 32, 36);
        flow := Halt(INT21H_OUT_OF_RANGE);
        return;
      }
      flow := Dispatch(ah, m0, r);
      if flow.Returned? {
        Leave(r.sp);
      }
    }

    /** The far call through the table at SI, the handler it reaches, and the far return. */
    method Dispatch(ghost ah: Byte, ghost m0: Memory, ghost r: Regs) returns (flow: Flow)
      requires Valid() && ah == High(r.ax) && ah < 0x80
      requires TableHolds(m0, labels) && StackClear(labels, masked, r)
      requires regs.ss == r.ss && regs.sp == regs.bp == Offset(r.sp, -32) && regs.cs == 0 && regs.si == 4 * ah
      requires mem[..] == Pushed(m0, masked, r.ss, r.sp, PushOrder(r))
      modifies this, mem
      ensures var reply := Service(labels, masked, m0, r);
              && flow == reply.flow
              && (flow.Returned? ==>
                    && FrameAt(mem[..], masked, r.ss, Offset(r.sp, -32)) == reply.frame
                    && regs.sp == Offset(r.sp, -32) && regs.ip == labels.resume && regs.cs == 0)
              && console == old(console) + reply.text
              && serial == old(serial) + if reply.echoed && port < 4 then reply.text else []
      ensures regs.ss == r.ss
      ensures SameButBelow(m0, mem[..], masked, r.ss, r.sp, 36)
    {
      hide Pushed, Offset, PushOrder, Distinct, LaidOut, BelowStack, FrameAt, FrameFor, TableHolds, Serve, Owned,
           SameButBelow, StackClear, SegWord;
      TableStays(m0, labels, masked, r, PushOrder(r));
      EntryWords(mem[..], labels, ah);
      EntryOffsets(ah);
      LowWord(mem[..], masked, EntryOf(ah));
      LowWord(mem[..], masked, EntryOf(ah) + 2);
      var off := LoadSegWord(mem, masked, regs.cs, Offset(INT21H_TABLE, regs.si));
      var seg := LoadSegWord(mem, masked, regs.cs, Offset(INT21H_TABLE, regs.si + 2));
      CallFar(m0, r);
      regs := regs.(ip := off, cs := seg);
      EntryStruct(m0, masked, r, [0, labels.resume]);
      TableStays(m0, labels, masked, r, PushOrder(r) + [0, labels.resume]);
      ReturnAddress(m0, labels, masked, r);
      ghost var m1 := mem[..];
      flow := Handle(ah, r.sp);
      FrameChangeJoined(m0, m1, mem[..], masked, r.ss, r.sp);
      if flow.Returned? {
        AddressKept(m1, mem[..], masked, r.ss, r.sp);
        ReturnFar();
      }
    }

    /** RETF: the return address is popped. */
    method ReturnFar()
      requires Valid()
      modifies this`regs
      ensures regs == old(regs).(ip := SegWord(mem[..], masked, old(regs.ss), old(regs.sp)),
                                 cs := SegWord(mem[..], masked, old(regs.ss), Offset(old(regs.sp), 2)),
                                 sp := Offset(old(regs.sp), 4))
    {
      hide Offset, SegWord, Distinct, LaidOut;
      OffsetSum(regs.sp, 2, 2);
      var ip := LoadSegWord(mem, masked, regs.ss, regs.sp);
      regs := regs.(sp := Offset(regs.sp, 2));
      var cs := LoadSegWord(mem, masked, regs.ss, regs.sp);
      regs := regs.(sp := Offset(regs.sp, 2), ip := ip, cs := cs);
    }

    /** The far call's pushes. */
    method CallFar(ghost m0: Memory, ghost r: Regs)
      requires Valid() && regs.ss == r.ss && regs.sp == regs.bp == Offset(r.sp, -32) && regs.cs == 0
      requires mem[..] == Pushed(m0, masked, r.ss, r.sp, PushOrder(r))
      modifies this`regs, mem
      ensures mem[..] == Pushed(m0, masked, r.ss, r.sp, PushOrder(r) + [0, labels.resume])
      ensures regs == old(regs).(sp := Offset(r.sp, -36))
      ensures SameButBelow(m0, mem[..], masked, r.ss, r.sp, 36)
    {
      hide Pushed, Offset, PushOrder, Distinct, LaidOut, BelowStack;
      ghost var ws := PushOrder(r) + [0, labels.resume];
      assert ws[..16] == PushOrder(r);
      Push(regs.cs, m0, r.sp, ws, 16);
      Push(labels.resume, m0, r.sp, ws, 17);
      assert ws[..18] == ws;
      PushedSameButBelow(m0, masked, r.ss, r.sp, ws);
    }

    /** The reply has been given: its flow, its frame if it returns, and its text on the lines. */
    ghost predicate Answered(flow: Flow, reply: Reply, console0: seq<Byte>, serial0: seq<Byte>)
      requires Valid()
      reads this, mem
    {
      && flow == reply.flow
      && (flow.Returned? ==> Frame() == reply.frame)
      && console == console0 + reply.text
      && serial == serial0 + if reply.echoed && port < 4 then reply.text else []
    }

    ghost function Promised(ah: Byte): Reply
      requires Valid()
      reads this, mem
    {
      Serve(labels, mem[..], masked, ah, Frame())
    }

    /** The handler at CS:IP, run on the frame below `sp`; it is the one of function `ah`. */
    method Handle(ghost ah: Byte, ghost sp: Word) returns (flow: Flow)
      requires Valid() && ah < 0x80 && regs.bp == Offset(sp, -32)
      requires regs.ip == Handler(labels, ah) && regs.cs == 0 && TopClear(sp)
      modifies this, mem
      ensures Answered(flow, old(Promised(ah)), old(console), old(serial))
      ensures regs.ss == old(regs.ss) && regs.bp == old(regs.bp) && regs.sp == old(regs.sp)
      ensures SameButBelow(old(mem[..]), mem[..], masked, regs.ss, sp, 32)
    {
      hide Offset, BelowStack, FrameAt, WordAt, ClearCarry, SetCarry, Resized, BytesAt, LaidOut, Message;
      flow := Returned;
      if regs.ip == labels.fun02 {
        Teletype(sp);
      } else if regs.ip == labels.fun30 {
        GetVersion(sp);
      } else if regs.ip == labels.fun40 {
        WriteDevice(sp);
      } else if regs.ip == labels.fun44 {
        flow := DeviceInfo(sp);
        if flow.Failed? {
          flow := Halt(flow.code);
        }
      } else if regs.ip == labels.fun4a {
        Resize(sp);
      } else if regs.ip == labels.fun4c {
        flow := Halt(PROGRAM_TERMINATED);
      } else if regs.ip == labels.fun63 {
        LeadBytes(sp);
      } else {
        flow := Stopped;
      }
    }
  }

  /** Pushes of at most 36 bytes leave everything alone that the stack is clear of. */
  lemma PushesClear(m: Memory, labels: Labels, masked: bool, r: Regs, ws: seq<Word>)
    requires StackClear(labels, masked, r) && |ws| <= 18
    ensures forall a: int :: 0 <= a < TWO32 && Owned(labels, a) ==> Pushed(m, masked, r.ss, r.sp, ws)[a] == m[a]
  {
    hide Pushed, BelowStack, Owned;
    PushedSameButBelow(m, masked, r.ss, r.sp, ws);
    SameButBelowMore(m, Pushed(m, masked, r.ss, r.sp, ws), masked, r.ss, r.sp, 2 * |ws|, 36);
  }

  lemma VectorKept(m: Memory, labels: Labels, masked: bool, r: Regs, ws: seq<Word>)
    requires StackClear(labels, masked, r) && VectorsHold(m, labels) && |ws| <= 18
    ensures AddressAt(Pushed(m, masked, r.ss, r.sp, ws), 4 * 0x21) == Address(labels.int21, 0)
  {
    assert VectorSet(0x21);
    assert forall a :: 4 * 0x21 <= a < 4 * 0x22 ==> Owned(labels, a);
    PushesClear(m, labels, masked, r, ws);
    hide Pushed, StackClear, Owned, AddressAt;
    AddressElsewhere(m, Pushed(m, masked, r.ss, r.sp, ws), 4 * 0x21);
  }

  /** Neither the table nor the memory-top word is touched by the pushes. */
  lemma TableStays(m: Memory, labels: Labels, masked: bool, r: Regs, ws: seq<Word>)
    requires LaidOut(labels) && TableHolds(m, labels) && StackClear(labels, masked, r) && |ws| <= 18
    ensures TableHolds(Pushed(m, masked, r.ss, r.sp, ws), labels)
    ensures WordAt(Pushed(m, masked, r.ss, r.sp, ws), labels.psp + 2) == WordAt(m, labels.psp + 2)
    ensures !BelowStack(masked, r.ss, r.sp, 32, labels.psp + 2) && !BelowStack(masked, r.ss, r.sp, 32, labels.psp + 3)
  {
    assert Owned(labels, labels.psp + 2) && Owned(labels, labels.psp + 3);
    BelowStackMonotone(masked, r.ss, r.sp, labels.psp + 2);
    BelowStackMonotone(masked, r.ss, r.sp, labels.psp + 3);
    PushesClear(m, labels, masked, r, ws);
    assert forall a: int :: INT21H_TABLE <= a < TABLE_END ==> Owned(labels, a);
    hide Pushed, TableHolds, StackClear, Owned, BelowStack;
    TableElsewhere(m, Pushed(m, masked, r.ss, r.sp, ws), labels);
  }

  /** The words that the far call reads at SI are the table's entry. */
  lemma EntryWords(m: Memory, labels: Labels, ah: Byte)
    requires TableHolds(m, labels) && ah < 0x80
    ensures WordAt(m, EntryOf(ah)) == Handler(labels, ah) && WordAt(m, EntryOf(ah) + 2) == 0
  {
    assert AddressAt(m, EntryOf(ah)) == Address(Handler(labels, ah), 0);
    hide TableHolds, Handler, WordAt;
  }

  lemma EntryOffsets(ah: Byte)
    requires ah < 0x80
    ensures 0 <= EntryOf(ah) < 0x7C00
    ensures Offset(INT21H_TABLE, 4 * ah) == EntryOf(ah) && Offset(INT21H_TABLE, 4 * ah + 2) == EntryOf(ah) + 2
  {
  }

  /** Segment zero is linear memory. */
  lemma LowWord(m: Memory, masked: bool, at: Word)
    requires at < 0xFFFF
    ensures SegWord(m, masked, 0, at) == WordAt(m, at)
  {
  }

  /** The far call's return address lies on top of the stack. */
  lemma ReturnAddress(m: Memory, labels: Labels, masked: bool, r: Regs)
    ensures var after, sp := Pushed(m, masked, r.ss, r.sp, PushOrder(r) + [0, labels.resume]), Offset(r.sp, -36);
            SegWord(after, masked, r.ss, sp) == labels.resume && SegWord(after, masked, r.ss, Offset(sp, 2)) == 0
  {
    var ws := PushOrder(r) + [0, labels.resume];
    PushedTop(m, masked, r.ss, r.sp, ws, Offset(r.sp, -36));
    hide Pushed, SegWord, Offset;
  }

  /** A handler that changes only the frame keeps the return address below it, and RETF reaches the frame. */
  lemma AddressKept(m: Memory, n: Memory, masked: bool, ss: Word, sp: Word)
    requires SameButBelow(m, n, masked, ss, sp, 32)
    ensures SegWord(n, masked, ss, Offset(sp, -36)) == SegWord(m, masked, ss, Offset(sp, -36))
    ensures SegWord(n, masked, ss, Offset(Offset(sp, -36), 2)) == SegWord(m, masked, ss, Offset(Offset(sp, -36), 2))
    ensures Offset(Offset(sp, -36), 4) == Offset(sp, -32)
  {
    OffsetSum(sp, -36, 1);
    OffsetSum(sp, -36, 2);
    OffsetSum(sp, -34, 1);
    OffsetSum(sp, -36, 4);
    NotInFrame(masked, ss, sp, 33);
    NotInFrame(masked, ss, sp, 34);
    NotInFrame(masked, ss, sp, 35);
    NotInFrame(masked, ss, sp, 36);
    hide Offset, Cell, BelowStack;
  }

  lemma NotInFrame(masked: bool, ss: Word, sp: Word, j: int)
    requires 32 < j <= 36
    ensures !BelowStack(masked, ss, sp, 32, StackCell(masked, ss, sp, j))
    ensures StackCell(masked, ss, sp, j) == Cell(masked, ss, Offset(sp, -j))
  {
    forall i: int | 1 <= i <= 32 ensures StackCell(masked, ss, sp, i) != StackCell(masked, ss, sp, j) {
      CellInjective(masked, ss, Offset(sp, -i), Offset(sp, -j));
      DepthsDiffer(sp, i, j);
      hide Cell, Offset;
    }
  }

  lemma DepthsDiffer(sp: Word, i: int, j: int)
    requires 1 <= i < j <= 36
    ensures Offset(sp, -i) != Offset(sp, -j)
  {
  }

  lemma PushedNothing(m: Memory, masked: bool, ss: Word, sp: Word)
    ensures Pushed(m, masked, ss, sp, []) == m
  {
  }

  lemma OffsetZero(sp: Word)
    ensures Offset(sp, 0) == sp
  {
  }

  lemma BytesNext(m: Memory, masked: bool, segment: Word, offset: Word, n: nat)
    ensures BytesAt(m, masked, segment, offset, n + 1) ==
            BytesAt(m, masked, segment, offset, n) + [m[Cell(masked, segment, Offset(offset, n))]]
  {
  }

  lemma LoopNext(cx: Word, n: nat)
    requires n < LoopTurns(cx)
    ensures Offset(cx, 0 - n - 1) != 0 <==> n + 1 < LoopTurns(cx)
  {
  }

  lemma BelowStackMonotone(masked: bool, ss: Word, sp: Word, a: nat)
    ensures BelowStack(masked, ss, sp, 32, a) ==> BelowStack(masked, ss, sp, 36, a)
  {
    hide StackCell;
  }

  lemma PushedSameButBelow(m: Memory, masked: bool, ss: Word, sp: Word, ws: seq<Word>)
    ensures SameButBelow(m, Pushed(m, masked, ss, sp, ws), masked, ss, sp, 2 * |ws|)
  {
    hide BelowStack, Pushed;
    forall a: int | 0 <= a < TWO32 && !BelowStack(masked, ss, sp, 2 * |ws|, a)
      ensures Pushed(m, masked, ss, sp, ws)[a] == m[a]
    {
      PushedFrame(m, masked, ss, sp, ws, a);
    }
  }

  // ---- What the interrupt promises its callers ----

  /** The caller's registers after a service has returned. */
  function After(labels: Labels, masked: bool, m: Memory, r: Regs): Regs
    requires LaidOut(labels)
  {
    Restored(Service(labels, masked, m, r).frame, r.ss, r.sp)
  }

  /** What a service leaves in the caller's registers is what it makes of them in the frame. */
  lemma AfterFields(labels: Labels, masked: bool, m: Memory, r: Regs)
    requires LaidOut(labels)
    ensures var f, out := Service(labels, masked, m, r).frame, After(labels, masked, m, r);
            && out == r.(ax := f.ax, bx := f.bx, cx := f.cx, dx := f.dx, si := f.si, di := f.di, bp := f.bp, ds := f.ds,
                         es := f.es, fs := f.fs, gs := f.gs, cs := f.cs, ip := f.ip, flags := f.flags)
  {
    hide Service, Serve;
  }

  lemma ServeKeeps(labels: Labels, m: Memory, masked: bool, ah: Byte, f: IntRegs)
    requires LaidOut(labels)
    ensures var g := Serve(labels, m, masked, ah, f).frame;
            && g == f.(ax := g.ax, bx := g.bx, dx := g.dx, si := g.si, ds := g.ds, es := g.es, flags := g.flags)
            && g.flags / 2 == f.flags / 2
            && (g.si != f.si || g.ds != f.ds ==> ah == 0x63)
            && (g.es != f.es ==> ah == 0x4A)
            && (g.dx != f.dx ==> ah == 0x44)
            && (g.bx != f.bx ==> ah == 0x30 || ah == 0x4A)
  {
    hide Xor16, BytesAt, Low, Message;
    FlagsKept(f.flags);
  }

  /**
   The caller gets back every register but these, and every flag but the carry, whatever the function and
   wherever the stack lies.
   */
  lemma ServicesPreserve(labels: Labels, masked: bool, m: Memory, r: Regs)
    requires LaidOut(labels)
    ensures var out, ah := After(labels, masked, m, r), High(r.ax);
            && out == r.(ax := out.ax, bx := out.bx, dx := out.dx, si := out.si, ds := out.ds, es := out.es,
                         flags := out.flags)
            && out.flags / 2 == r.flags / 2
            && (out.si != r.si || out.ds != r.ds ==> ah == 0x63)
            && (out.es != r.es ==> ah == 0x4A)
            && (out.dx != r.dx ==> ah == 0x44)
            && (out.bx != r.bx ==> ah == 0x30 || ah == 0x4A)
  {
    AfterFields(labels, masked, m, r);
    ServeKeeps(labels, Pushed(m, masked, r.ss, r.sp, PushOrder(r) + [0, labels.resume]), masked, High(r.ax), FrameFor(r));
    hide Serve, Pushed, PushOrder;
  }

  lemma FlagsKept(flags: Word)
    ensures ClearCarry(flags) / 2 == flags / 2 == SetCarry(flags) / 2
    ensures ClearCarry(flags) % 2 == 0 && SetCarry(flags) % 2 == 1
  {
  }

  lemma Resizes(f: IntRegs, psp: Word, top: Word)
    requires psp >= 0x10
    ensures var g := Resized(f, psp, top);
            && (g.flags % 2 == 0 <==> f.es == psp / 16 && f.bx <= top)
            && (g.flags % 2 == 0 <==> g.ax == 0)
            && (g.ax == 9 <==> f.es != psp / 16)
            && (g.ax == 8 <==> f.es == psp / 16 && f.bx > top)
            && (g.es == 0 <==> f.es == psp / 16)
            && (f.es == psp / 16 ==> g.bx == top)
            && g.es != f.es
  {
    FlagsKept(f.flags);
    Xor16Changes(f.es, psp / 16);
    hide Xor16;
  }

  /**
   Function 4A succeeds exactly for the PSP's own block and a size up to the top of memory as the caller's
   memory holds it, which it then reports; error 8 is a larger size and error 9 another block. The caller
   never gets its ES back.
   */
  lemma ResizeExactly(labels: Labels, masked: bool, m: Memory, r: Regs)
    requires LaidOut(labels) && TableHolds(m, labels) && StackClear(labels, masked, r) && High(r.ax) == 0x4A
    ensures var out, top := After(labels, masked, m, r), WordAt(m, labels.psp + 2);
            && (out.flags % 2 == 0 <==> r.es == labels.psp / 16 && r.bx <= top)
            && (out.flags % 2 == 0 <==> out.ax == 0)
            && (out.ax == 9 <==> r.es != labels.psp / 16)
            && (out.ax == 8 <==> r.es == labels.psp / 16 && r.bx > top)
            && (r.es == labels.psp / 16 ==> out.bx == top)
            && out.es != r.es
  {
    AfterFields(labels, masked, m, r);
    TableStays(m, labels, masked, r, PushOrder(r) + [0, labels.resume]);
    Resizes(FrameFor(r), labels.psp, WordAt(m, labels.psp + 2));
    hide Resized, Pushed, PushOrder, TableHolds, StackClear, WordAt, After;
  }

  lemma BytesClear(m: Memory, n: Memory, masked: bool, ss: Word, sp: Word, segment: Word, offset: Word, count: nat)
    requires SameButBelow(m, n, masked, ss, sp, 36)
    requires forall i: int :: 0 <= i < count ==> !BelowStack(masked, ss, sp, 36, Cell(masked, segment, Offset(offset, i)))
    ensures BytesAt(n, masked, segment, offset, count) == BytesAt(m, masked, segment, offset, count)
  {
    hide BelowStack, Cell, Offset;
  }

  /**
   Function 40 on the standard output handle writes the caller's own bytes, as long as the buffer is clear
   of the 36 bytes below SP: byte `i` of the text is byte `i` of the buffer, with 16-bit offset wrap, and
   there are CX of them precisely when CX is not zero. Only AX and the carry change.
   */
  lemma WriteExactly(labels: Labels, masked: bool, m: Memory, r: Regs)
    requires LaidOut(labels) && High(r.ax) == 0x40 && r.bx == 1
    requires forall i: int :: 0 <= i < LoopTurns(r.cx) ==>
               !BelowStack(masked, r.ss, r.sp, 36, Cell(masked, r.ds, Offset(r.dx, i)))
    ensures var reply := Service(labels, masked, m, r);
            && reply.flow == Returned && reply.echoed && |reply.text| == LoopTurns(r.cx)
            && (|reply.text| == r.cx <==> r.cx >= 1)
            && (forall i: int :: 0 <= i < |reply.text| ==> reply.text[i] == m[Cell(masked, r.ds, Offset(r.dx, i))])
    ensures After(labels, masked, m, r) == r.(ax := r.cx, flags := ClearCarry(r.flags))
  {
    var ws := PushOrder(r) + [0, labels.resume];
    AfterFields(labels, masked, m, r);
    PushedSameButBelow(m, masked, r.ss, r.sp, ws);
    BytesClear(m, Pushed(m, masked, r.ss, r.sp, ws), masked, r.ss, r.sp, r.ds, r.dx, LoopTurns(r.cx));
    hide Pushed, PushOrder, SameButBelow, BelowStack, Cell, Offset, ClearCarry, After;
  }

  /**
   Function 44 answers for subfunction 0 and handles up to 2, with 81h for the first and 82h for the other
   two in AX and DX. For any other handle it sets the carry and changes nothing else, so that AX holds the
   function number and never the error code 6.
   */
  lemma DeviceInfoExactly(labels: Labels, masked: bool, m: Memory, r: Regs)
    requires LaidOut(labels) && High(r.ax) == 0x44
    ensures var reply, out := Service(labels, masked, m, r), After(labels, masked, m, r);
            && (reply.flow.Returned? <==> Low(r.ax) == 0)
            && (Low(r.ax) != 0 ==> reply.flow == Failed(3))
            && (Low(r.ax) == 0 && r.bx <= 2 ==>
                  var word := if r.bx == 0 then 0x81 else 0x82;
                  out == r.(ax := word, dx := word, flags := r.flags - r.flags % 2))
            && (Low(r.ax) == 0 && r.bx > 2 ==>
                  out == r.(flags := r.flags - r.flags % 2 + 1) && out.ax == 0x4400 != 6)
  {
    AfterFields(labels, masked, m, r);
    hide Pushed, PushOrder, Message, After;
  }

  /** Only numbers with a handler return; 4C and unsupported device calls end with a message, the rest silently. */
  lemma ServedExactly(labels: Labels, masked: bool, m: Memory, r: Regs)
    requires LaidOut(labels)
    ensures var reply, ah := Service(labels, masked, m, r), High(r.ax);
            && (reply.flow.Returned? <==> ah in {0x02, 0x30, 0x40, 0x4A, 0x63} || (ah == 0x44 && Low(r.ax) == 0))
            && (reply.flow.Failed? <==> ah == 0x4C || (ah == 0x44 && Low(r.ax) != 0))
            && (ah == 0x4C ==> reply.flow == Failed(0))
            && (reply.flow.Failed? ==> reply.text == Message(reply.flow.code))
            && (reply.flow.Stopped? ==> reply.text == [])
  {
    hide Pushed, PushOrder, Message;
  }

  /**
   The other services, for their caller: function 02 writes DL and leaves DX in AX; function 30 reports
   1606h in AX and, by AL, FD2Bh or 2Bh in BX; function 40 on any other handle is error 6 and writes
   nothing; function 63 points DS:SI at the table. Nothing else changes but the carry.
   */
  lemma OtherServicesExactly(labels: Labels, masked: bool, m: Memory, r: Regs)
    requires LaidOut(labels)
    ensures var reply, out, clear := Service(labels, masked, m, r), After(labels, masked, m, r), r.flags - r.flags % 2;
            && (High(r.ax) == 0x02 ==>
                  reply.text == [r.dx % 0x100] && !reply.echoed && out == r.(ax := r.dx, flags := clear))
            && (High(r.ax) == 0x30 ==>
                  && reply.text == []
                  && out == r.(ax := 0x1606, bx := if r.ax % 0x100 == 0 then 0xFD2B else 0x2B, flags := clear))
            && (High(r.ax) == 0x40 && r.bx != 1 ==> reply.text == [] && out == r.(ax := 6, flags := clear + 1))
            && (High(r.ax) == 0x63 ==> reply.text == [] && out == r.(ds := 0, si := labels.dbcs, flags := clear))
  {
    AfterFields(labels, masked, m, r);
    hide Pushed, PushOrder, Message, After, BytesAt;
  }

  // ---- Registered handlers ----

  /**
   After any registrations, an interrupt reaches the last handler registered for its function, or the
   fake DOS's own: the table entry at SI names it, and the frame that it gets a pointer to holds the
   caller's registers. Whatever memory `n` it leaves, each register comes back from its slot, and a frame
   left alone, the stored SP apart, restores them all.
   */
  lemma RegisteredHandler(labels: Labels, masked: bool, m: Memory, history: seq<Registration>, r: Regs, n: Memory)
    requires LaidOut(labels) && TablePublished(m) && TableHolds(m, labels) && StackClear(labels, masked, r)
    requires High(r.ax) < 0x80
    ensures var entered := Pushed(CallbacksSet(m, masked, history), masked, r.ss, r.sp, PushOrder(r));
            var bp, out := Offset(r.sp, -32), Restored(FrameAt(n, masked, r.ss, Offset(r.sp, -32)), r.ss, r.sp);
            && AddressAt(entered, EntryOf(High(r.ax)))
               == (if High(r.ax) in Registered(history) then Registered(history)[High(r.ax)]
                   else Address(Handler(labels, High(r.ax)), 0))
            && FrameAt(entered, masked, r.ss, bp) == FrameFor(r)
            && (forall i :: 0 <= i < 16 && i != 3 && i != 12 ==> RegisterOf(out, i) == FrameWords(n, masked, r.ss, bp)[i])
            && ((forall i :: 0 <= i < 16 && i != 3 ==>
                  FrameWords(n, masked, r.ss, bp)[i] == FrameWords(entered, masked, r.ss, bp)[i]) ==> out == r)
  {
    var set0 := CallbacksSet(m, masked, history);
    assert PushOrder(r) + [] == PushOrder(r);
    assert AddressAt(m, EntryOf(High(r.ax))) == Address(Handler(labels, High(r.ax)), 0);
    LastRegistrationWins(m, masked, history);
    EntryKeptByPushes(set0, labels, masked, r, High(r.ax));
    EntryStruct(set0, masked, r, []);
    EntryExitInverse(set0, n, masked, r, []);
    hide *;
  }

  lemma EntryKeptByPushes(m: Memory, labels: Labels, masked: bool, r: Regs, ah: Byte)
    requires StackClear(labels, masked, r) && ah < 0x80
    ensures AddressAt(Pushed(m, masked, r.ss, r.sp, PushOrder(r)), EntryOf(ah)) == AddressAt(m, EntryOf(ah))
  {
    PushesClear(m, labels, masked, r, PushOrder(r));
    assert forall a: int :: EntryOf(ah) <= a < EntryOf(ah) + 4 ==> Owned(labels, a);
    hide Pushed, PushOrder, StackClear, Owned, AddressAt;
    AddressElsewhere(m, Pushed(m, masked, r.ss, r.sp, PushOrder(r)), EntryOf(ah));
  }
}
