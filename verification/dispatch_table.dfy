/**
 The vectors that the fake DOS sets up: the 128-entry table of INT 21h functions, the interrupt
 vectors that reach it, and later registrations of function handlers.
 */
module DispatchTable {
  import opened Words
  import opened FlatMemory
  import opened RealMode

  const INT21H_TABLE: nat := 0x7A00
  const TABLE_END: nat := 0x7C00

  /** The addresses the assembler gives to the labels, all in segment 0. */
  datatype Labels = Labels(
    notImpl: Word, int21: Word, int3: Word,
    fun02: Word, fun30: Word, fun40: Word, fun44: Word, fun4a: Word, fun4c: Word, fun63: Word,
    psp: Word, dbcs: Word, resume: Word)

  /** The program segment prefix is part of the boot stub, which is loaded behind the table. */
  predicate LaidOut(labels: Labels) {
    TABLE_END <= labels.psp <= 0xFF00 && labels.psp % 0x100 == 0
  }

  /** The label that each function number is meant to reach. */
  function Handler(labels: Labels, fn: int): Word {
    match fn
    case 0x02 => labels.fun02
    case 0x30 => labels.fun30
    case 0x40 => labels.fun40
    case 0x44 => labels.fun44
    case 0x4A => labels.fun4a
    case 0x4C => labels.fun4c
    case 0x63 => labels.fun63
    case _ => labels.notImpl
  }

  /** The label that each interrupt vector is meant to reach, where one is set. */
  function Vector(labels: Labels, n: int): Word {
    if n == 0x21 then labels.int21 else if n == 0x03 then labels.int3 else labels.notImpl
  }

  predicate VectorSet(n: int) {
    n == 0x03 || 0x20 <= n < 0x30
  }

  /** The table entry of a function. */
  function EntryOf(fn: int): int {
    INT21H_TABLE + 4 * fn
  }

  ghost predicate TableHolds(m: Memory, labels: Labels) {
    forall fn :: 0 <= fn < 0x80 ==> AddressAt(m, EntryOf(fn)) == Address(Handler(labels, fn), 0)
  }

  ghost predicate VectorsHold(m: Memory, labels: Labels) {
    forall n {:trigger VectorSet(n)} :: VectorSet(n) ==> AddressAt(m, 4 * n) == Address(Vector(labels, n), 0)
  }

  /** INT 0FFh's vector points at the table: 07A0:0000. */
  predicate TablePublished(m: Memory) {
    AddressAt(m, 4 * 0xFF) == Address(0, INT21H_TABLE / 16)
  }

  /** The bytes that initialisation may change: the table, the vectors and the PSP's memory-top word. */
  predicate Owned(labels: Labels, a: int) {
    || INT21H_TABLE <= a < TABLE_END
    || 0x20 * 4 <= a < 0x30 * 4
    || 0x03 * 4 <= a < 0x04 * 4
    || 0xFF * 4 <= a < 0x100 * 4
    || labels.psp + 2 <= a < labels.psp + 4
  }

  method StoreAddress(mem: array<Byte>, a: nat, p: Address)
    requires mem.Length == TWO32 && a + 4 <= TWO32
    modifies mem
    ensures mem[..] == WithAddress(old(mem[..]), a, p)
  {
    mem[a], mem[a + 1] := Low(p.off), High(p.off);
    mem[a + 2], mem[a + 3] := Low(p.seg), High(p.seg);
  }

  /** The fill loops: `count` far pointers to segment 0, from `di` on. */
  method FillVectors(mem: array<Byte>, di: Word, count: Word, label0: Word)
    requires mem.Length == TWO32 && di + 4 * count <= TWO16
    modifies mem
    ensures forall k :: 0 <= k < count ==> AddressAt(mem[..], di + 4 * k) == Address(label0, 0)
    ensures forall a :: 0 <= a < TWO32 && !(di <= a < di + 4 * count) ==> mem[a] == old(mem[a])
  {
    hide AddressAt, WithAddress;
    var at: nat, cx: nat := di, count;
    while cx != 0
      invariant 0 <= cx <= count && at == di + 4 * (count - cx)
      invariant forall k :: 0 <= k < count - cx ==> AddressAt(mem[..], di + 4 * k) == Address(label0, 0)
      invariant forall a :: 0 <= a < TWO32 && !(di <= a < at) ==> mem[a] == old(mem[a])
    {
      ghost var before := mem[..];
      StoreAddress(mem, at, Address(label0, 0));
      forall k | 0 <= k < count - cx
        ensures AddressAt(mem[..], di + 4 * k) == Address(label0, 0)
      {
        AddressElsewhere(before, mem[..], di + 4 * k);
      }
      at, cx := at + 4, cx - 1;
    }
  }

  lemma AddressElsewhere(m: seq<Byte>, n: seq<Byte>, a: nat)
    requires a + 4 <= |m| && |m| == |n|
    requires forall i :: a <= i < a + 4 ==> m[i] == n[i]
    ensures AddressAt(m, a) == AddressAt(n, a)
  {
  }

  /** The table entries are the offsets `t` in segment 0. */
  ghost predicate TableIs(m: Memory, t: seq<Word>)
    requires |t| == 0x80
  {
    forall fn :: 0 <= fn < 0x80 ==> AddressAt(m, EntryOf(fn)) == Address(t[fn], 0)
  }

  /** Overwrites the offset of a function's entry. */
  method PatchFunction(mem: array<Byte>, fn: nat, label0: Word, ghost t: seq<Word>)
    requires mem.Length == TWO32 && fn < 0x80
    requires |t| == 0x80 && TableIs(mem[..], t)
    modifies mem
    ensures TableIs(mem[..], t[fn := label0])
    ensures forall a :: 0 <= a < TWO32 && !(INT21H_TABLE <= a < TABLE_END) ==> mem[a] == old(mem[a])
  {
    var at := EntryOf(fn);
    ghost var before := mem[..];
    mem[at], mem[at + 1] := Low(label0), High(label0);
    assert mem[..] == WithWord(before, at, label0);
    forall f | 0 <= f < 0x80 ensures AddressAt(mem[..], EntryOf(f)) == Address(t[fn := label0][f], 0) {
      assert AddressAt(before, EntryOf(f)) == Address(t[f], 0);
      if f == fn {
        assert WordAt(mem[..], at + 2) == WordAt(before, at + 2);
      } else {
        AddressElsewhere(before, mem[..], EntryOf(f));
      }
    }
  }

  /** The table: every entry not implemented, then the seven functions. */
  method FillTable(mem: array<Byte>, labels: Labels)
    requires mem.Length == TWO32
    modifies mem
    ensures TableHolds(mem[..], labels)
    ensures forall a :: 0 <= a < TWO32 && !(INT21H_TABLE <= a < TABLE_END) ==> mem[a] == old(mem[a])
  {
    hide AddressAt;
    FillVectors(mem, INT21H_TABLE, 0x80, labels.notImpl);
    ghost var t := seq(0x80, i => labels.notImpl);
    assert TableIs(mem[..], t) by {
      forall fn | 0 <= fn < 0x80 ensures AddressAt(mem[..], EntryOf(fn)) == Address(t[fn], 0) {
        assert EntryOf(fn) == INT21H_TABLE + 4 * fn;
      }
    }
    hide TableIs;
    PatchFunction(mem, 0x02, labels.fun02, t);
    t := t[0x02 := labels.fun02];
    PatchFunction(mem, 0x30, labels.fun30, t);
    t := t[0x30 := labels.fun30];
    PatchFunction(mem, 0x40, labels.fun40, t);
    t := t[0x40 := labels.fun40];
    PatchFunction(mem, 0x44, labels.fun44, t);
    t := t[0x44 := labels.fun44];
    PatchFunction(mem, 0x4A, labels.fun4a, t);
    t := t[0x4A := labels.fun4a];
    PatchFunction(mem, 0x4C, labels.fun4c, t);
    t := t[0x4C := labels.fun4c];
    PatchFunction(mem, 0x63, labels.fun63, t);
    t := t[0x63 := labels.fun63];
    PatchedTable(mem[..], labels, t);
  }

  lemma PatchedTable(m: Memory, labels: Labels, t: seq<Word>)
    requires |t| == 0x80 && TableIs(m, t)
    requires forall fn :: 0 <= fn < 0x80 ==> t[fn] == Handler(labels, fn)
    ensures TableHolds(m, labels)
  {
    hide AddressAt, Handler;
  }

  /** The PSP's memory-top word, from the kilobytes that INT 12h reports, and the vector that publishes the table. */
  method Publish(mem: array<Byte>, labels: Labels, memoryKb: Word)
    requires mem.Length == TWO32 && LaidOut(labels)
    modifies mem
    ensures WordAt(mem[..], labels.psp + 2) == (memoryKb * 64) % TWO16 && TablePublished(mem[..])
    ensures forall a :: 0 <= a < TWO32 && !(labels.psp + 2 <= a < labels.psp + 4) && !(4 * 0xFF <= a < 4 * 0x100) ==>
              mem[a] == old(mem[a])
  {
    hide AddressAt, WithAddress, WithWord, Low, High;
    var top := (memoryKb * 64) % TWO16;
    StoreWord(mem, labels.psp + 2, top);
    ghost var m := mem[..];
    StoreAddress(mem, 4 * 0xFF, Address(0, INT21H_TABLE / 16));
    WordElsewhere(m, mem[..], labels.psp + 2);
  }

  lemma WordElsewhere(m: seq<Byte>, n: seq<Byte>, a: nat)
    requires a + 2 <= |m| && |m| == |n| && m[a] == n[a] && m[a + 1] == n[a + 1]
    ensures WordAt(m, a) == WordAt(n, a)
  {
  }

  /** A byte of the vectors that are set. */
  predicate VectorByte(a: int) {
    0x20 * 4 <= a < 0x30 * 4 || 0x03 * 4 <= a < 0x04 * 4
  }

  /** The interrupt vectors 20h to 2Fh and 3. */
  method SetVectors(mem: array<Byte>, labels: Labels)
    requires mem.Length == TWO32
    modifies mem
    ensures VectorsHold(mem[..], labels)
    ensures forall a :: 0 <= a < TWO32 && !VectorByte(a) ==> mem[a] == old(mem[a])
  {
    hide AddressAt, WithAddress, VectorsHold;
    FillVectors(mem, 0x20 * 4, 0x10, labels.notImpl);
    ghost var m0 := mem[..];
    StoreAddress(mem, 4 * 0x21, Address(labels.int21, 0));
    ghost var m1 := mem[..];
    StoreAddress(mem, 4 * 0x03, Address(labels.int3, 0));
    AddressElsewhere(m1, mem[..], 4 * 0x21);
    forall n | 0x20 <= n < 0x30 && n != 0x21 ensures AddressAt(mem[..], 4 * n) == Address(labels.notImpl, 0) {
      assert AddressAt(m0, 0x20 * 4 + 4 * (n - 0x20)) == Address(labels.notImpl, 0);
      AddressElsewhere(m0, mem[..], 4 * n);
    }
    VectorsFrom(mem[..], labels);
  }

  lemma VectorsFrom(m: Memory, labels: Labels)
    requires AddressAt(m, 4 * 0x21) == Address(labels.int21, 0) && AddressAt(m, 4 * 0x03) == Address(labels.int3, 0)
    requires forall n :: 0x20 <= n < 0x30 && n != 0x21 ==> AddressAt(m, 4 * n) == Address(labels.notImpl, 0)
    ensures VectorsHold(m, labels)
  {
    hide AddressAt;
  }

  /** Sets up the table and the vectors, with `memoryKb` the kilobytes that INT 12h reports. */
  method DosInit(mem: array<Byte>, labels: Labels, memoryKb: Word)
    requires mem.Length == TWO32 && LaidOut(labels)
    modifies mem
    ensures WordAt(mem[..], labels.psp + 2) == (memoryKb * 64) % TWO16
    ensures TableHolds(mem[..], labels) && VectorsHold(mem[..], labels) && TablePublished(mem[..])
    ensures forall a :: 0 <= a < TWO32 && !Owned(labels, a) ==> mem[a] == old(mem[a])
  {
    hide AddressAt, WordAt, TableHolds, VectorsHold;
    Publish(mem, labels, memoryKb);
    ghost var m0 := mem[..];
    FillTable(mem, labels);
    ghost var m1 := mem[..];
    SetVectors(mem, labels);
    TableElsewhere(m1, mem[..], labels);
    AddressElsewhere(m0, mem[..], 4 * 0xFF);
    WordElsewhere(m0, mem[..], labels.psp + 2);
  }

  /**
   What lies in memory then, word by word: the seven functions and everything else in the table, vectors
   20h to 2Fh and 3, and vector 0FFh, which holds the table's segment.
   */
  lemma Installed(m: Memory, labels: Labels)
    requires TableHolds(m, labels) && VectorsHold(m, labels) && TablePublished(m)
    ensures WordAt(m, 0x7A08) == labels.fun02 && WordAt(m, 0x7AC0) == labels.fun30 && WordAt(m, 0x7B00) == labels.fun40
    ensures WordAt(m, 0x7B10) == labels.fun44 && WordAt(m, 0x7B28) == labels.fun4a && WordAt(m, 0x7B30) == labels.fun4c
    ensures WordAt(m, 0x7B8C) == labels.fun63
    ensures forall fn :: 0 <= fn < 0x80 && fn !in {0x02, 0x30, 0x40, 0x44, 0x4A, 0x4C, 0x63} ==>
              WordAt(m, EntryOf(fn)) == labels.notImpl
    ensures forall fn :: 0 <= fn < 0x80 ==> EntryOf(fn) == 0x7A00 + 4 * fn && WordAt(m, EntryOf(fn) + 2) == 0
    ensures forall n :: 0x20 <= n < 0x30 ==>
              WordAt(m, 4 * n) == (if n == 0x21 then labels.int21 else labels.notImpl) && WordAt(m, 4 * n + 2) == 0
    ensures WordAt(m, 0x0C) == labels.int3 && WordAt(m, 0x0E) == 0
    ensures WordAt(m, 0x3FC) == 0 && WordAt(m, 0x3FE) == 0x7A0
  {
    hide WordAt;
    forall fn | 0 <= fn < 0x80
      ensures WordAt(m, EntryOf(fn)) == Handler(labels, fn) && WordAt(m, EntryOf(fn) + 2) == 0
    {
      assert AddressAt(m, EntryOf(fn)) == Address(Handler(labels, fn), 0);
    }
    assert EntryOf(0x02) == 0x7A08 && EntryOf(0x30) == 0x7AC0 && EntryOf(0x40) == 0x7B00 && EntryOf(0x44) == 0x7B10;
    assert EntryOf(0x4A) == 0x7B28 && EntryOf(0x4C) == 0x7B30 && EntryOf(0x63) == 0x7B8C;
    forall n | 0x20 <= n < 0x30
      ensures WordAt(m, 4 * n) == (if n == 0x21 then labels.int21 else labels.notImpl) && WordAt(m, 4 * n + 2) == 0
    {
      assert VectorSet(n);
    }
    assert VectorSet(0x03);
  }

  lemma TableElsewhere(m: Memory, n: Memory, labels: Labels)
    requires TableHolds(m, labels)
    requires forall a: int :: INT21H_TABLE <= a < TABLE_END ==> m[a] == n[a]
    ensures TableHolds(n, labels)
  {
    hide AddressAt, Handler;
    forall fn | 0 <= fn < 0x80 ensures AddressAt(n, EntryOf(fn)) == Address(Handler(labels, fn), 0) {
      AddressElsewhere(m, n, EntryOf(fn));
    }
  }

  // ---- Registering handlers ----

  /**
   Overwrites the entry of a function below 80h in the table that INT 0FFh's vector points to, wherever
   that is; `ok` is only defined on rejection.
   */
  method SetDosCallback(mem: array<Byte>, masked: bool, fn: Byte, callback: Address) returns (ok: bool)
    requires mem.Length == TWO32
    modifies mem
    ensures mem[..] == CallbackSet(old(mem[..]), masked, fn, callback)
    ensures fn >= 0x80 ==> !ok
  {
    if fn >= 0x80 {
      return false;
    }
    hide AddressAt, Cell, Offset;
    var table := LoadAddress(mem, 4 * 0xFF);
    StoreSegWord(mem, masked, table.seg, Offset(table.off, 4 * fn), callback.off);
    StoreSegWord(mem, masked, table.seg, Offset(table.off, 4 * fn + 2), callback.seg);
    ok := *;
  }

  /** The far pointer that INT 0FFh's vector holds. */
  function PublishedAt(m: Memory): Address {
    AddressAt(m, 4 * 0xFF)
  }

  function CallbackSet(m: Memory, masked: bool, fn: Byte, callback: Address): Memory {
    if fn >= 0x80 then m
    else
      var table := PublishedAt(m);
      WithSegWord(WithSegWord(m, masked, table.seg, Offset(table.off, 4 * fn), callback.off),
                  masked, table.seg, Offset(table.off, 4 * fn + 2), callback.seg)
  }

  /** With the table published, a registration overwrites exactly its function's entry. */
  lemma PublishedCallback(m: Memory, masked: bool, fn: Byte, callback: Address)
    requires TablePublished(m) && fn < 0x80
    ensures CallbackSet(m, masked, fn, callback) == WithAddress(m, EntryOf(fn), callback)
  {
    hide AddressAt, Low, High;
    assert Offset(0, 4 * fn) == 4 * fn && Offset(0, 4 * fn + 2) == 4 * fn + 2;
    EntryWord(m, masked, 4 * fn, callback.off);
    EntryWord(WithWord(m, EntryOf(fn), callback.off), masked, 4 * fn + 2, callback.seg);
    hide Offset, WithSegWord, WithWord;
  }

  lemma EntryWord(m: Memory, masked: bool, offset: Word, w: Word)
    requires offset < 0x1FF
    ensures WithSegWord(m, masked, INT21H_TABLE / 16, offset, w) == WithWord(m, INT21H_TABLE + offset, w)
  {
    hide Low, High;
  }

  datatype Registration = Registration(fn: Byte, callback: Address)

  /** Memory after a run of registrations, oldest first. */
  function CallbacksSet(m: Memory, masked: bool, history: seq<Registration>): Memory {
    if history == [] then m
    else
      var last := history[|history| - 1];
      CallbackSet(CallbacksSet(m, masked, history[..|history| - 1]), masked, last.fn, last.callback)
  }

  /** The functions registered so far, as a map that each registration below 80h updates. */
  function Registered(history: seq<Registration>): map<int, Address> {
    if history == [] then map[]
    else
      var last, before := history[|history| - 1], Registered(history[..|history| - 1]);
      if last.fn >= 0x80 then before else before[last.fn as int := last.callback]
  }

  /**
   After any run of registrations each entry holds the last handler registered for its function, or
   what it held before; the published table pointer and all other memory stay as they were.
   */
  lemma {:induction false} LastRegistrationWins(m: Memory, masked: bool, history: seq<Registration>)
    requires TablePublished(m)
    ensures forall fn :: 0 <= fn < 0x80 ==>
              AddressAt(CallbacksSet(m, masked, history), EntryOf(fn)) ==
              if fn in Registered(history) then Registered(history)[fn] else AddressAt(m, EntryOf(fn))
    ensures forall a: int :: 0 <= a < TWO32 && !(INT21H_TABLE <= a < TABLE_END) ==>
              CallbacksSet(m, masked, history)[a] == m[a]
    ensures TablePublished(CallbacksSet(m, masked, history))
  {
    hide WithAddress, AddressAt, CallbackSet;
    if history != [] {
      var n := |history| - 1;
      var before, after := CallbacksSet(m, masked, history[..n]), CallbacksSet(m, masked, history);
      LastRegistrationWins(m, masked, history[..n]);
      if history[n].fn < 0x80 {
        PublishedCallback(before, masked, history[n].fn, history[n].callback);
      } else {
        RejectedCallback(before, masked, history[n].fn, history[n].callback);
      }
      forall fn | 0 <= fn < 0x80 && fn != history[n].fn
        ensures AddressAt(after, EntryOf(fn)) == AddressAt(before, EntryOf(fn))
      {
        AddressElsewhere(before, after, EntryOf(fn));
      }
    }
    AddressElsewhere(m, CallbacksSet(m, masked, history), 4 * 0xFF);
  }

  lemma RejectedCallback(m: Memory, masked: bool, fn: Byte, callback: Address)
    requires fn >= 0x80
    ensures CallbackSet(m, masked, fn, callback) == m
  {
  }
}
