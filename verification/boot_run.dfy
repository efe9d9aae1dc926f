/**
 The boot stub's run up to the program's first instruction: the fake DOS and address line 20 are set up on
 the stub's own stack, and the program's stack and entry pointers are read from the stub as it is then.
 */
module BootRun {
  import opened Words
  import opened FlatMemory
  import opened RealMode
  import opened BootImage
  import opened DispatchTable
  import A20

  /** The stub's stack ends where the dispatch table begins. */
  const STACK_BASE: Word := 0x0500
  const STACK_TOP: Word := 0x7500

  /** The bytes of stack that the two calls use. */
  predicate InStack(a: int) {
    INT21H_TABLE - 14 <= a < INT21H_TABLE
  }

  lemma StubStackCell(masked: bool, sp: Word, j: int)
    requires 1 <= j <= 14 && (sp == STACK_TOP || (sp == STACK_TOP - 2 && j <= 12))
    ensures StackCell(masked, STACK_BASE / 16, sp, j) == STACK_BASE + sp - j
  {
  }

  lemma StubStackBelow(masked: bool, a: nat)
    requires BelowStack(masked, STACK_BASE / 16, STACK_TOP - 2, 12, a)
    ensures InStack(a)
  {
    var j :| 1 <= j <= 12 && a == StackCell(masked, STACK_BASE / 16, STACK_TOP - 2, j);
    StubStackCell(masked, STACK_TOP - 2, j);
  }

  /** The stub's stack meets none of the words that the test of line 20 overwrites, and does not move with it. */
  lemma StubStackClear(masked: bool)
    ensures A20.StackClear(masked, STACK_BASE / 16, STACK_TOP - 2, 12)
    ensures A20.FixedStack(STACK_BASE / 16, STACK_TOP - 2, 12)
  {
    A20.LowSegmentFixed(STACK_BASE / 16, STACK_TOP - 2, 12);
    forall a: int | A20.Probed(masked, a) ensures !BelowStack(masked, STACK_BASE / 16, STACK_TOP - 2, 12, a) {
      if BelowStack(masked, STACK_BASE / 16, STACK_TOP - 2, 12, a) {
        StubStackBelow(masked, a);
      }
    }
  }

  /** The PSP is in the stub, behind its two pointers. */
  predicate PspInStub(labels: Labels, stubSize: nat) {
    LaidOut(labels) && LOAD_ADDRESS + 10 <= labels.psp && labels.psp + 4 <= LOAD_ADDRESS + stubSize
  }

  /** Memory differs at most in what initialisation owns and in the stub's stack. */
  ghost predicate SetUp(m: Memory, n: Memory, labels: Labels) {
    forall a: int :: 0 <= a < TWO32 && !Owned(labels, a) && !InStack(a) ==> n[a] == m[a]
  }

  /** A call pushes its return address. */
  method Call(gate: A20.Gate, returnTo: Word)
    requires gate.Valid() && gate.ss == STACK_BASE / 16 && gate.sp == STACK_TOP
    modifies gate`sp, gate.mem
    ensures gate.sp == STACK_TOP - 2
    ensures forall a :: 0 <= a < TWO32 && !InStack(a) ==> gate.mem[a] == old(gate.mem[a])
  {
    hide Low, High;
    assert Offset(STACK_TOP, -2) == STACK_TOP - 2 && Offset(STACK_TOP - 2, 1) == STACK_TOP - 1;
    StubStackCell(gate.masked, STACK_TOP, 2);
    StubStackCell(gate.masked, STACK_TOP, 1);
    gate.sp := Offset(gate.sp, -2);
    StoreSegWord(gate.mem, gate.masked, gate.ss, gate.sp, returnTo);
  }

  /** `call dosinit` and `call a20init`. */
  method SetUpMachine(gate: A20.Gate, labels: Labels, memoryKb: Word, returnTo: seq<Word>) returns (halted: bool)
    requires gate.Valid() && gate.ss == STACK_BASE / 16 && gate.sp == STACK_TOP && LaidOut(labels) && |returnTo| == 3
    modifies gate, gate.mem
    ensures halted == gate.masked && (!halted ==> gate.sp == STACK_TOP)
    ensures halted <==> old(gate.masked) && (old(gate.port) / 2 % 2 == 1 || !gate.unmasks)
    ensures SetUp(old(gate.mem[..]), gate.mem[..], labels)
    ensures TableHolds(gate.mem[..], labels) && VectorsHold(gate.mem[..], labels) && TablePublished(gate.mem[..])
    ensures WordAt(gate.mem[..], labels.psp + 2) == (memoryKb * 64) % TWO16
  {
    hide AddressAt, WordAt, TableHolds, VectorsHold, BelowStack, Owned, A20.StackClear, A20.FixedStack,
         A20.SameButEither;
    Call(gate, returnTo[0]);
    DosInit(gate.mem, labels, memoryKb);
    gate.sp := STACK_TOP;
    ghost var m1 := gate.mem[..];
    Call(gate, returnTo[1]);
    StubStackClear(true);
    StubStackClear(false);
    ghost var m2 := gate.mem[..];
    halted := gate.Init(returnTo[2]);
    StackOnly(m2, gate.mem[..]);
    TablesStay(m1, gate.mem[..], labels);
    if !halted {
      gate.sp := STACK_TOP;
    }
  }

  /** What `a20init` changes lies in the stub's stack. */
  lemma StackOnly(m: Memory, n: Memory)
    requires SameButBelow(m, n, false, STACK_BASE / 16, STACK_TOP - 2, 12)
    ensures forall a: int :: 0 <= a < TWO32 && !InStack(a) ==> n[a] == m[a]
  {
    hide BelowStack, InStack;
    forall a: int | 0 <= a < TWO32 && !InStack(a) ensures n[a] == m[a] {
      if BelowStack(false, STACK_BASE / 16, STACK_TOP - 2, 12, a) {
        StubStackBelow(false, a);
      }
    }
  }

  /** The tables and the memory-top word are clear of the stub's stack. */
  lemma TablesStay(m: Memory, n: Memory, labels: Labels)
    requires LaidOut(labels) && TableHolds(m, labels) && VectorsHold(m, labels) && TablePublished(m)
    requires forall a: int :: 0 <= a < TWO32 && !InStack(a) ==> n[a] == m[a]
    ensures TableHolds(n, labels) && VectorsHold(n, labels) && TablePublished(n)
    ensures WordAt(n, labels.psp + 2) == WordAt(m, labels.psp + 2)
  {
    TableElsewhere(m, n, labels);
    VectorsElsewhere(m, n, labels);
    AddressElsewhere(m, n, 4 * 0xFF);
    hide TableHolds, VectorsHold, AddressAt;
  }

  lemma VectorsElsewhere(m: Memory, n: Memory, labels: Labels)
    requires VectorsHold(m, labels)
    requires forall a: int :: 0 <= a < 0x400 ==> n[a] == m[a]
    ensures VectorsHold(n, labels)
  {
    hide AddressAt, Vector;
    forall k | VectorSet(k) ensures AddressAt(n, 4 * k) == Address(Vector(labels, k), 0) {
      AddressElsewhere(m, n, 4 * k);
    }
  }

  /** The stub's pointers and the image are clear of what initialisation owns and of the stack. */
  lemma StubStays(m: Memory, n: Memory, labels: Labels, stubSize: nat)
    requires PspInStub(labels, stubSize) && SetUp(m, n, labels)
    ensures AddressAt(n, LOAD_ADDRESS + 2) == AddressAt(m, LOAD_ADDRESS + 2)
    ensures AddressAt(n, LOAD_ADDRESS + 6) == AddressAt(m, LOAD_ADDRESS + 6)
    ensures forall a: int :: LOAD_ADDRESS + stubSize <= a < TWO32 ==> n[a] == m[a]
  {
    assert forall a: int :: LOAD_ADDRESS <= a < LOAD_ADDRESS + 10 ==> !Owned(labels, a) && !InStack(a);
    assert forall a: int :: LOAD_ADDRESS + stubSize <= a ==> !Owned(labels, a) && !InStack(a);
    hide Owned, InStack, AddressAt;
    AddressElsewhere(m, n, LOAD_ADDRESS + 2);
    AddressElsewhere(m, n, LOAD_ADDRESS + 6);
  }

  /** The memory that the reference loader leaves behind the patched stub. */
  function Loaded(mem: Memory, stub: seq<Byte>, file: seq<Byte>): seq<Byte>
    requires Bootable(stub, file)
  {
    var base := LoadBase(|stub|);
    BootFileLoads(mem, stub, file);
    var patched := PatchedStub(stub, Shifted(InitialStack(file), base), Shifted(InitialEntry(file), base));
    LoadProgram(Stored(mem, LOAD_ADDRESS, patched), file, base)
  }

  /** A well-formed program and a stub of whole paragraphs that fit below 1 MiB together. */
  ghost predicate Bootable(stub: seq<Byte>, file: seq<Byte>) {
    && WellFormed(file) && |stub| >= 10 && |stub| % 16 == 0
    && LOAD_ADDRESS + |stub| < 0x10_0000 && LOAD_ADDRESS + |stub| + |Image(file)| <= 0x10_0000
  }

  /** The program is where it should be once the machine is set up. */
  ghost predicate InPlace(n: Memory, mem: Memory, stub: seq<Byte>, file: seq<Byte>)
    requires Bootable(stub, file)
  {
    && |Loaded(mem, stub, file)| == TWO32
    && forall a: int :: LOAD_ADDRESS + |stub| <= a < TWO32 ==> n[a] == Loaded(mem, stub, file)[a]
  }

  lemma ProgramInPlace(mem: Memory, stub: seq<Byte>, file: seq<Byte>, m: Memory, n: Memory, labels: Labels)
    requires Bootable(stub, file) && PspInStub(labels, |stub|)
    requires m == Stored(mem, LOAD_ADDRESS, BootFile(stub, file)) && SetUp(m, n, labels)
    ensures AddressAt(n, LOAD_ADDRESS + 2) == Shifted(InitialStack(file), LoadBase(|stub|))
    ensures AddressAt(n, LOAD_ADDRESS + 6) == Shifted(InitialEntry(file), LoadBase(|stub|))
    ensures InPlace(n, mem, stub, file)
  {
    BootFileLoads(mem, stub, file);
    assert m == Loaded(mem, stub, file);
    hide SetUp, BootFile, Stored, Shifted, LoadBase, PspInStub, Loaded, AddressAt;
    StubStays(m, n, labels, |stub|);
  }

  /** The same, by the fields of the program's header. */
  lemma ProgramPointers(mem: Memory, stub: seq<Byte>, file: seq<Byte>, m: Memory, n: Memory, labels: Labels)
    requires Bootable(stub, file) && PspInStub(labels, |stub|) && |file| > HEADER_BYTES
    requires m == Stored(mem, LOAD_ADDRESS, BootFile(stub, file)) && SetUp(m, n, labels)
    ensures var h, base := HeaderAt(file), LoadBase(|stub|);
            && AddressAt(n, LOAD_ADDRESS + 2) == Address(h.initialSp, Add16(h.initialSs, base))
            && AddressAt(n, LOAD_ADDRESS + 6) == Address(h.initialIp, Add16(h.initialCs, base))
    ensures LoadBase(|stub|) == 0x7C0 + |stub| / 16 && InPlace(n, mem, stub, file)
  {
    LoadBaseOf(|stub|);
    hide *;
    ProgramInPlace(mem, stub, file, m, n, labels);
    ShiftedFields(file, LoadBase(|stub|));
  }

  /**
   From the boot file at 0000:7C00 to the program: the stub halts exactly if line 20 was masked and stays so
   through `a20enable`. When it gets to the program, the fake DOS is in place, the stack and entry pointers
   it loads are those of the file's header with the load segment added to their segments, and behind the
   stub lies the image as the reference loader leaves it.
   */
  method Start(gate: A20.Gate, labels: Labels, memoryKb: Word, returnTo: seq<Word>,
               ghost mem0: Memory, ghost stub: seq<Byte>, ghost file: seq<Byte>)
    returns (halted: bool, stack: Address, entry: Address)
    requires gate.Valid() && gate.ss == STACK_BASE / 16 && gate.sp == STACK_TOP && |returnTo| == 3
    requires Bootable(stub, file) && PspInStub(labels, |stub|)
    requires gate.mem[..] == Stored(mem0, LOAD_ADDRESS, BootFile(stub, file))
    modifies gate, gate.mem
    ensures halted == gate.masked
    ensures halted <==> old(gate.masked) && (old(gate.port) / 2 % 2 == 1 || !gate.unmasks)
    ensures !halted ==>
              && stack == Address(HeaderAt(file).initialSp, Add16(HeaderAt(file).initialSs, LoadBase(|stub|)))
              && entry == Address(HeaderAt(file).initialIp, Add16(HeaderAt(file).initialCs, LoadBase(|stub|)))
              && LoadBase(|stub|) == 0x7C0 + |stub| / 16
              && InPlace(gate.mem[..], mem0, stub, file)
    ensures TableHolds(gate.mem[..], labels) && VectorsHold(gate.mem[..], labels) && TablePublished(gate.mem[..])
    ensures WordAt(gate.mem[..], labels.psp + 2) == (memoryKb * 64) % TWO16
  {
    assert |file| > HEADER_BYTES;
    hide BootFile, Stored, Shifted, LoadBase, InPlace, SetUp, TableHolds, VectorsHold, AddressAt, WordAt, Bootable,
         LaidOut, HeaderAt, Add16;
    ghost var m := gate.mem[..];
    halted := SetUpMachine(gate, labels, memoryKb, returnTo);
    ProgramPointers(mem0, stub, file, m, gate.mem[..], labels);
    stack, entry := Address(0, 0), Address(0, 0);
    if !halted {
      stack, entry := LoadAddress(gate.mem, LOAD_ADDRESS + 2), LoadAddress(gate.mem, LOAD_ADDRESS + 6);
    }
  }
}
