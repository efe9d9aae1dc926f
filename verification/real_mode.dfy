/**
 Real-mode addressing: far pointers, their linear addresses and normal form, and word accesses through
 segment:offset pairs with address line 20 masked or not.
 */
module RealMode {
  import opened Words
  import opened FlatMemory

  /** A far pointer in memory order: offset first, then segment. */
  datatype Address = Address(off: Word, seg: Word)

  /** The linear address of a far pointer. */
  function Linear(segment: Word, offset: Word): nat {
    segment * 0x10 + offset
  }

  /** Adding a load segment moves a far pointer by that many paragraphs exactly when the segment does not wrap. */
  lemma FarPointerMoves(segment: Word, offset: Word, base: Word)
    ensures Linear(Add16(segment, base), offset) == Linear(segment, offset) + 0x10 * base <==> segment + base < 0x1_0000
  {
  }

  /** The far pointer stored at index `a`. */
  function AddressAt(m: seq<Byte>, a: nat): Address
    requires a + 4 <= |m|
  {
    Address(WordAt(m, a), WordAt(m, a + 2))
  }

  function WithAddress(m: seq<Byte>, a: nat, p: Address): (r: seq<Byte>)
    requires a + 4 <= |m|
    ensures |r| == |m| && AddressAt(r, a) == p
    ensures forall i :: 0 <= i < |m| && !(a <= i < a + 4) ==> r[i] == m[i]
  {
    WithWord(WithWord(m, a, p.off), a + 2, p.seg)
  }

  /** The far pointer in memory at a linear address. */
  function LoadAddress(mem: array<Byte>, at: nat): (p: Address)
    requires at + 4 <= mem.Length
    reads mem
    ensures p == AddressAt(mem[..], at)
  {
    Address(mem[at] as int + 0x100 * mem[at + 1] as int, mem[at + 2] as int + 0x100 * mem[at + 3] as int)
  }

  // ---- Linear addresses and back ----

  function ToLinear(p: Address): Dword {
    Linear(p.seg, p.off)
  }

  /** The segment is narrowed to 16 bits, so addresses from 1 MiB up lose their high bits. */
  function FromLinear(linear: Dword): Address {
    Address(linear % 16, (linear / 16) % 0x1_0000)
  }

  lemma LinearOfNormal(linear: Dword)
    ensures ToLinear(FromLinear(linear)) == linear % 0x10_0000
  {
    var q, r := linear / 16, linear % 16;
    assert q == (q / 0x1_0000) * 0x1_0000 + q % 0x1_0000;
    assert linear == (q / 0x1_0000) * 0x10_0000 + ((q % 0x1_0000) * 16 + r);
  }

  /** A linear address survives the trip through a far pointer exactly below 1 MiB. */
  lemma LinearRoundTrip(linear: Dword)
    ensures ToLinear(FromLinear(linear)) == linear <==> linear < 0x10_0000
  {
    LinearOfNormal(linear);
  }

  function Normal(p: Address): Address {
    FromLinear(ToLinear(p))
  }

  /**
   The normal form has an offset below 16 and names the same byte exactly below 1 MiB; two pointers
   share it exactly when they name the same byte with address line 20 masked.
   */
  lemma NormalForm(p: Address, q: Address)
    ensures Normal(p).off < 16
    ensures ToLinear(Normal(p)) == ToLinear(p) <==> ToLinear(p) < 0x10_0000
    ensures Normal(p) == Normal(q) <==> ToLinear(p) % 0x10_0000 == ToLinear(q) % 0x10_0000
    ensures ToLinear(p) < 0x10_0000 && ToLinear(q) < 0x10_0000 ==>
              (Normal(p) == Normal(q) <==> ToLinear(p) == ToLinear(q))
  {
    NormalLinear(p);
    NormalLinear(q);
    NormalUnique(Normal(p), Normal(q));
    BelowMegabyte(ToLinear(p));
    BelowMegabyte(ToLinear(q));
    hide *;
  }

  lemma BelowMegabyte(x: Dword)
    ensures x % 0x10_0000 == x <==> x < 0x10_0000
  {
  }

  lemma NormalLinear(p: Address)
    ensures Normal(p).off < 16
    ensures ToLinear(Normal(p)) == ToLinear(p) % 0x10_0000
  {
    LinearOfNormal(ToLinear(p));
  }

  lemma NormalUnique(p: Address, q: Address)
    requires p.off < 16 && q.off < 16
    ensures ToLinear(p) == ToLinear(q) <==> p == q
  {
  }

  // ---- Accesses through segment:offset ----

  /** The address on the bus: with line 20 masked, bit 20 reads as zero. */
  function Bus(masked: bool, a: nat): nat
    requires a < 0x20_0000
  {
    if masked && a >= 0x10_0000 then a - 0x10_0000 else a
  }

  /** The memory cell of segment:offset. */
  function Cell(masked: bool, segment: Word, offset: Word): (a: nat)
    ensures a < 0x11_0000
  {
    Bus(masked, segment * 0x10 + offset)
  }

  /** Within one segment different offsets are different cells, masked or not. */
  lemma CellInjective(masked: bool, segment: Word, x: Word, y: Word)
    ensures Cell(masked, segment, x) == Cell(masked, segment, y) <==> x == y
  {
  }

  /** An offset in 16-bit arithmetic; `k` may be negative. */
  function Offset(base: Word, k: int): Word {
    (base + k) % 0x1_0000
  }

  function SegWord(m: Memory, masked: bool, segment: Word, offset: Word): Word {
    m[Cell(masked, segment, offset)] as int + 0x100 * m[Cell(masked, segment, Offset(offset, 1))] as int
  }

  function WithSegWord(m: Memory, masked: bool, segment: Word, offset: Word, w: Word): Memory {
    m[Cell(masked, segment, offset) := Low(w)][Cell(masked, segment, Offset(offset, 1)) := High(w)]
  }

  /** The word in memory at segment:offset. */
  function LoadSegWord(mem: array<Byte>, masked: bool, segment: Word, offset: Word): (w: Word)
    requires mem.Length == TWO32
    reads mem
    ensures w == SegWord(mem[..], masked, segment, offset)
  {
    mem[Cell(masked, segment, offset)] as int + 0x100 * mem[Cell(masked, segment, Offset(offset, 1))] as int
  }

  method StoreSegWord(mem: array<Byte>, masked: bool, segment: Word, offset: Word, w: Word)
    requires mem.Length == TWO32
    modifies mem
    ensures mem[..] == WithSegWord(old(mem[..]), masked, segment, offset, w)
  {
    mem[Cell(masked, segment, offset)] := Low(w);
    mem[Cell(masked, segment, Offset(offset, 1))] := High(w);
  }

  lemma ReadBack(m: Memory, masked: bool, segment: Word, offset: Word, w: Word)
    ensures SegWord(WithSegWord(m, masked, segment, offset, w), masked, segment, offset) == w
  {
    CellInjective(masked, segment, offset, Offset(offset, 1));
  }

  /** Two word offsets of one segment that share no byte. */
  predicate OffsetsApart(x: Word, y: Word) {
    x != y && x != Offset(y, 1) && Offset(x, 1) != y
  }

  lemma ReadElsewhere(m: Memory, masked: bool, segment: Word, offset: Word, w: Word, other: Word)
    requires OffsetsApart(offset, other)
    ensures SegWord(WithSegWord(m, masked, segment, offset, w), masked, segment, other) ==
            SegWord(m, masked, segment, other)
  {
    CellInjective(masked, segment, offset, other);
    CellInjective(masked, segment, Offset(offset, 1), other);
    CellInjective(masked, segment, offset, Offset(other, 1));
    CellInjective(masked, segment, Offset(offset, 1), Offset(other, 1));
  }

  // ---- The stack ----

  /** Memory after the words `ws` have been pushed, first one first, with the stack pointer at `sp` before. */
  function Pushed(m: Memory, masked: bool, ss: Word, sp: Word, ws: seq<Word>): Memory {
    if ws == [] then m
    else
      var n := |ws| - 1;
      WithSegWord(Pushed(m, masked, ss, sp, ws[..n]), masked, ss, Offset(sp, -2 * |ws|), ws[n])
  }

  lemma PushedSnoc(m: Memory, masked: bool, ss: Word, sp: Word, ws: seq<Word>, w: Word)
    ensures Pushed(m, masked, ss, sp, ws + [w]) ==
            WithSegWord(Pushed(m, masked, ss, sp, ws), masked, ss, Offset(sp, -2 * |ws| - 2), w)
  {
    hide WithSegWord, Offset;
    assert (ws + [w])[..|ws|] == ws;
  }

  lemma PushesApart(sp: Word, j: nat, k: nat)
    requires 0 < j < k <= 0x8000
    ensures OffsetsApart(Offset(sp, -2 * k), Offset(sp, -2 * j))
  {
  }

  /** Every pushed word stays readable where it was pushed, even when the stack pointer wraps. */
  lemma {:induction false} PushedWord(m: Memory, masked: bool, ss: Word, sp: Word, ws: seq<Word>, k: nat)
    requires k < |ws| <= 0x8000
    ensures SegWord(Pushed(m, masked, ss, sp, ws), masked, ss, Offset(sp, -2 * (k + 1))) == ws[k]
  {
    hide SegWord, WithSegWord, Offset, OffsetsApart;
    var n := |ws| - 1;
    var before := Pushed(m, masked, ss, sp, ws[..n]);
    if k == n {
      ReadBack(before, masked, ss, Offset(sp, -2 * |ws|), ws[n]);
    } else {
      PushedWord(m, masked, ss, sp, ws[..n], k);
      PushesApart(sp, k + 1, |ws|);
      ReadElsewhere(before, masked, ss, Offset(sp, -2 * |ws|), ws[n], Offset(sp, -2 * (k + 1)));
    }
  }

  /** The last two words pushed are on top of the stack. */
  lemma PushedTop(m: Memory, masked: bool, ss: Word, sp: Word, ws: seq<Word>, top: Word)
    requires 2 <= |ws| <= 0x8000 && top == Offset(sp, -2 * |ws|)
    ensures SegWord(Pushed(m, masked, ss, sp, ws), masked, ss, top) == ws[|ws| - 1]
    ensures SegWord(Pushed(m, masked, ss, sp, ws), masked, ss, Offset(top, 2)) == ws[|ws| - 2]
  {
    hide SegWord, Pushed, Offset;
    PushedWord(m, masked, ss, sp, ws, |ws| - 1);
    PushedWord(m, masked, ss, sp, ws, |ws| - 2);
    OffsetSum(sp, -2 * |ws|, 2);
    assert -2 * |ws| + 2 == -2 * (|ws| - 2 + 1);
  }

  /** The cell `j` bytes below the stack pointer. */
  function StackCell(masked: bool, ss: Word, sp: Word, j: int): nat {
    Cell(masked, ss, Offset(sp, -j))
  }

  /** `a` is one of the `count` bytes below ss:sp. */
  ghost predicate BelowStack(masked: bool, ss: Word, sp: Word, count: nat, a: nat) {
    exists j: int :: 1 <= j <= count && a == StackCell(masked, ss, sp, j)
  }

  /** Memory differs at most in the `count` bytes below ss:sp. */
  ghost predicate SameButBelow(m: Memory, n: Memory, masked: bool, ss: Word, sp: Word, count: nat) {
    forall a: int :: 0 <= a < TWO32 && !BelowStack(masked, ss, sp, count, a) ==> n[a] == m[a]
  }

  lemma SameButBelowJoined(m0: Memory, m1: Memory, m2: Memory, masked: bool, ss: Word, sp: Word, count: nat)
    requires SameButBelow(m0, m1, masked, ss, sp, count) && SameButBelow(m1, m2, masked, ss, sp, count)
    ensures SameButBelow(m0, m2, masked, ss, sp, count)
  {
    hide BelowStack;
  }

  lemma SameButBelowMore(m: Memory, n: Memory, masked: bool, ss: Word, sp: Word, count: nat, more: nat)
    requires SameButBelow(m, n, masked, ss, sp, count) && count <= more
    ensures SameButBelow(m, n, masked, ss, sp, more)
  {
    hide StackCell;
  }

  /** Pushes change only the bytes between the old and the new stack pointer. */
  lemma {:induction false} PushedFrame(m: Memory, masked: bool, ss: Word, sp: Word, ws: seq<Word>, a: nat)
    requires a < TWO32 && !BelowStack(masked, ss, sp, 2 * |ws|, a)
    ensures Pushed(m, masked, ss, sp, ws)[a] == m[a]
    decreases |ws|
  {
    hide Cell, Offset;
    if ws != [] {
      var n := |ws| - 1;
      PushedFrame(m, masked, ss, sp, ws[..n], a);
      OffsetNext(sp, -2 * |ws|);
      assert a != StackCell(masked, ss, sp, 2 * |ws|) && a != StackCell(masked, ss, sp, 2 * |ws| - 1);
    }
  }

  lemma OffsetNext(sp: Word, k: int)
    ensures Offset(Offset(sp, k), 1) == Offset(sp, k + 1)
  {
  }

  lemma OffsetSum(sp: Word, j: int, k: int)
    ensures Offset(Offset(sp, j), k) == Offset(sp, j + k)
  {
  }
}
