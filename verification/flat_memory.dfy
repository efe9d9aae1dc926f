/**
 The flat 4 GiB memory and the string-instruction loops that copy and fill it. Addresses and counts
 are 32-bit registers, so every range wraps at 2^32.
 */
module FlatMemory {
  import opened Words

  type Memory = m: seq<Byte> | |m| == TWO32 ghost witness seq(TWO32, i => 0)

  /** The sum of two 32-bit registers. */
  function Up(a: Dword, n: Dword): (r: Dword)
    ensures r == (a + n) % TWO32
  {
    if a + n < TWO32 then a + n else a + n - TWO32
  }

  /** The difference of two 32-bit registers: also how far `a` lies above `n`, around the address space. */
  function Down(a: Dword, n: Dword): (r: Dword)
    ensures r == (a - n) % TWO32
  {
    if n <= a then a - n else a - n + TWO32
  }

  // ---- rep movsb ----

  /** One step of an index register, downwards when the direction flag is set. */
  function Next(a: Dword, down: bool): Dword {
    if down then Down(a, 1) else Up(a, 1)
  }

  /** `rep movsb` from the given registers. */
  function RepMovsb(m: Memory, down: bool, edi: Dword, esi: Dword, ecx: Dword): Memory
    decreases ecx
  {
    if ecx == 0 then m
    else RepMovsb(m[edi := m[esi]], down, Next(edi, down), Next(esi, down), ecx - 1)
  }

  /** The direction and the start registers that the copy chooses. */
  function FlatCopied(m: Memory, target: Dword, source: Dword, count: Dword): Memory {
    if target == source then m
    else if target > source then RepMovsb(m, true, Down(Up(target, count), 1), Down(Up(source, count), 1), count)
    else RepMovsb(m, false, target, source, count)
  }

  method FlatCopy(mem: array<Byte>, target: Dword, source: Dword, count: Dword)
    requires mem.Length == TWO32
    modifies mem
    ensures mem[..] == FlatCopied(old(mem[..]), target, source, count)
  {
    hide Up, Down, Next;
    var ecx, esi, edi := count, source, target;
    if edi == esi {
      return;
    }
    var down := edi > esi;
    if down {
      esi := Up(esi, ecx);
      esi := Down(esi, 1);
      edi := Up(edi, ecx);
      edi := Down(edi, 1);
    }
    ghost var edi0, esi0 := edi, esi;
    while ecx != 0
      invariant 0 <= ecx <= count && 0 <= esi < TWO32 && 0 <= edi < TWO32
      invariant RepMovsb(mem[..], down, edi, esi, ecx) == RepMovsb(old(mem[..]), down, edi0, esi0, count)
    {
      mem[edi] := mem[esi];
      esi, edi, ecx := Next(esi, down), Next(edi, down), ecx - 1;
    }
  }

  // ---- The copy is memmove ----

  /** What `memmove` leaves at address `a`: the old source byte inside the target, the old byte elsewhere. */
  function MovedByte(m: Memory, target: Dword, source: Dword, count: Dword, a: Dword): Byte {
    if Down(a, target) < count then m[Up(source, Down(a, target))] else m[a]
  }

  /** `after` is `before` with the bytes at `source` moved to `target`, both ranges read around 2^32. */
  ghost predicate Moved(before: Memory, after: Memory, target: Dword, source: Dword, count: Dword) {
    forall a: int :: 0 <= a < TWO32 ==> after[a] == MovedByte(before, target, source, count, a)
  }

  /** An upward copy is correct unless the target starts inside the source. */
  lemma {:induction false} CopyUp(m: Memory, target: Dword, source: Dword, count: Dword, a: Dword)
    requires Down(target, source) == 0 || Down(target, source) >= count
    ensures RepMovsb(m, false, target, source, count)[a] == MovedByte(m, target, source, count, a)
    decreases count
  {
    if count != 0 {
      var next, t, s := m[target := m[source]], Up(target, 1), Up(source, 1);
      CopyUp(next, t, s, count - 1, a);
      MovedUpStep(m, target, source, count, a);
    }
  }

  lemma MovedUpStep(m: Memory, target: Dword, source: Dword, count: Dword, a: Dword)
    requires count > 0 && (Down(target, source) == 0 || Down(target, source) >= count)
    ensures MovedByte(m[target := m[source]], Up(target, 1), Up(source, 1), count - 1, a) ==
            MovedByte(m, target, source, count, a)
  {
  }

  /** What is left at `a` when the moved ranges end, rather than start, at `target` and `source`. */
  function MovedDownByte(m: Memory, target: Dword, source: Dword, count: Dword, a: Dword): Byte {
    if Down(target, a) < count then m[Down(source, Down(target, a))] else m[a]
  }

  /** A downward copy is correct unless the source ends inside the target. */
  lemma {:induction false} CopyDown(m: Memory, target: Dword, source: Dword, count: Dword, a: Dword)
    requires Down(source, target) == 0 || Down(source, target) >= count
    ensures RepMovsb(m, true, target, source, count)[a] == MovedDownByte(m, target, source, count, a)
    decreases count
  {
    if count != 0 {
      var next, t, s := m[target := m[source]], Down(target, 1), Down(source, 1);
      CopyDown(next, t, s, count - 1, a);
      MovedDownStep(m, target, source, count, a);
    }
  }

  lemma MovedDownStep(m: Memory, target: Dword, source: Dword, count: Dword, a: Dword)
    requires count > 0 && (Down(source, target) == 0 || Down(source, target) >= count)
    ensures MovedDownByte(m[target := m[source]], Down(target, 1), Down(source, 1), count - 1, a) ==
            MovedDownByte(m, target, source, count, a)
  {
  }

  /** A range named by its last address is the range named by its first. */
  lemma EndsAreStarts(m: Memory, target: Dword, source: Dword, count: Dword, a: Dword)
    requires count > 0
    ensures MovedDownByte(m, Down(Up(target, count), 1), Down(Up(source, count), 1), count, a) ==
            MovedByte(m, target, source, count, a)
  {
  }

  /** Both ranges fit between the lower address and the higher one's wrapped end. */
  predicate Separable(target: Dword, source: Dword, count: Dword) {
    (if target >= source then target - source else source - target) + count <= TWO32
  }

  lemma CopyMovesByte(m: Memory, target: Dword, source: Dword, count: Dword, a: Dword)
    requires Separable(target, source, count)
    ensures FlatCopied(m, target, source, count)[a] == MovedByte(m, target, source, count, a)
  {
    if target > source && count > 0 {
      CopyDown(m, Down(Up(target, count), 1), Down(Up(source, count), 1), count, a);
      EndsAreStarts(m, target, source, count, a);
    } else if target < source {
      CopyUp(m, target, source, count, a);
    }
  }

  /** An index register after `k` steps. */
  function Steps(a: Dword, k: Dword, down: bool): Dword {
    if down then Down(a, k) else Up(a, k)
  }

  lemma {:induction false} RepMovsbSplit(m: Memory, down: bool, edi: Dword, esi: Dword, i: Dword, j: Dword)
    requires i + j < TWO32
    ensures RepMovsb(m, down, edi, esi, i + j) ==
            RepMovsb(RepMovsb(m, down, edi, esi, i), down, Steps(edi, i, down), Steps(esi, i, down), j)
    decreases i
  {
    if i != 0 {
      StepsNext(edi, i, down);
      StepsNext(esi, i, down);
      RepMovsbSplit(m[edi := m[esi]], down, Next(edi, down), Next(esi, down), i - 1, j);
    }
  }

  lemma StepsNext(a: Dword, k: Dword, down: bool)
    requires k > 0
    ensures Steps(Next(a, down), k - 1, down) == Steps(a, k, down)
  {
  }

  /** The distance from `a` to `b` in the direction of the copy. */
  function Ahead(b: Dword, a: Dword, down: bool): Dword {
    if down then Down(a, b) else Down(b, a)
  }

  lemma {:induction false} RepMovsbFrame(m: Memory, down: bool, edi: Dword, esi: Dword, ecx: Dword, a: Dword)
    requires Ahead(a, edi, down) >= ecx
    ensures RepMovsb(m, down, edi, esi, ecx)[a] == m[a]
    decreases ecx
  {
    if ecx != 0 {
      RepMovsbFrame(m[edi := m[esi]], down, Next(edi, down), Next(esi, down), ecx - 1, a);
    }
  }

  /** All zeros except a one at `x`. */
  function Mark(x: Dword): Memory {
    seq(TWO32, i => if i == x then 1 else 0)
  }

  /** When the target overruns the rest of the source, a byte already overwritten is copied on. */
  lemma OverrunCopiesTwice(down: bool, edi: Dword, esi: Dword, count: Dword)
    requires 0 < Ahead(edi, esi, down) < count
    ensures RepMovsb(Mark(esi), down, edi, esi, count)[Steps(edi, Ahead(edi, esi, down), down)] == 1
  {
    var d := Ahead(edi, esi, down);
    var m := Mark(esi);
    var first := RepMovsb(m, down, edi, esi, d);
    if down {
      CopyDown(m, edi, esi, d, edi);
    } else {
      CopyUp(m, edi, esi, d, edi);
    }
    assert first[edi] == 1;
    var t, s := Steps(edi, d, down), Steps(esi, d, down);
    assert s == edi;
    RepMovsbSplit(m, down, edi, esi, d, count - d);
    StepsApart(t, count - d - 1, down);
    RepMovsbFrame(first[t := first[s]], down, Next(t, down), Next(s, down), count - d - 1, t);
  }

  lemma StepsApart(t: Dword, n: Dword, down: bool)
    requires n < TWO32 - 1
    ensures Ahead(t, Next(t, down), down) >= n
  {
  }

  /** The memory on which a copy of inseparable ranges is not a move. */
  lemma InseparableFails(target: Dword, source: Dword, count: Dword)
    requires !Separable(target, source, count)
    ensures exists m: Memory :: !Moved(m, FlatCopied(m, target, source, count), target, source, count)
  {
    var down := target > source;
    var edi := if down then Down(Up(target, count), 1) else target;
    var esi := if down then Down(Up(source, count), 1) else source;
    var d := Ahead(edi, esi, down);
    InseparableOverrun(target, source, count, down, edi, esi);
    OverrunCopiesTwice(down, edi, esi, count);
    OverrunMoved(target, source, count, down, edi, esi, Steps(edi, d, down));
    assert FlatCopied(Mark(esi), target, source, count) == RepMovsb(Mark(esi), down, edi, esi, count);
    hide FlatCopied, RepMovsb, MovedByte, Mark, Steps, Ahead;
    assert !Moved(Mark(esi), FlatCopied(Mark(esi), target, source, count), target, source, count);
  }

  lemma InseparableOverrun(target: Dword, source: Dword, count: Dword, down: bool, edi: Dword, esi: Dword)
    requires !Separable(target, source, count) && down == (target > source)
    requires edi == if down then Down(Up(target, count), 1) else target
    requires esi == if down then Down(Up(source, count), 1) else source
    ensures target != source && 0 < Ahead(edi, esi, down) < count
  {
  }

  /** Where the overrun shows, a move leaves the byte that lies where the target starts or ends. */
  lemma OverrunMoved(target: Dword, source: Dword, count: Dword, down: bool, edi: Dword, esi: Dword, a: Dword)
    requires count > 0 && 0 < Ahead(edi, esi, down) < count && a == Steps(edi, Ahead(edi, esi, down), down)
    requires edi == if down then Down(Up(target, count), 1) else target
    requires esi == if down then Down(Up(source, count), 1) else source
    ensures MovedByte(Mark(esi), target, source, count, a) == 0
  {
    if down {
      EndsAreStarts(Mark(esi), target, source, count, a);
      hide MovedByte;
      assert MovedDownByte(Mark(esi), edi, esi, count, a) == Mark(esi)[edi];
    } else {
      assert MovedByte(Mark(esi), target, source, count, a) == Mark(esi)[edi];
    }
  }

  /**
   `flat_copy` moves every memory's bytes correctly, overlapping or wrapping either way, exactly when
   the distance of the two addresses plus the count does not exceed 2^32.
   */
  lemma CopyIsMoveExactly(target: Dword, source: Dword, count: Dword)
    ensures (forall m: Memory :: Moved(m, FlatCopied(m, target, source, count), target, source, count))
       <==> Separable(target, source, count)
  {
    hide FlatCopied, MovedByte;
    if Separable(target, source, count) {
      forall m: Memory ensures Moved(m, FlatCopied(m, target, source, count), target, source, count) {
        forall a: int | 0 <= a < TWO32
          ensures FlatCopied(m, target, source, count)[a] == MovedByte(m, target, source, count, a)
        {
          CopyMovesByte(m, target, source, count, a);
        }
      }
    } else {
      InseparableFails(target, source, count);
    }
  }

  /** For ranges that do not wrap, overlapping in any way, the copy is memmove. */
  lemma CopyIsMemmove(m: Memory, target: Dword, source: Dword, count: Dword)
    requires target + count <= TWO32 && source + count <= TWO32
    ensures FlatCopied(m, target, source, count) ==
            m[..target] + m[source..source + count] + m[target + count..]
  {
    var after := FlatCopied(m, target, source, count);
    forall a | 0 <= a < TWO32
      ensures after[a] == (m[..target] + m[source..source + count] + m[target + count..])[a]
    {
      CopyMovesByte(m, target, source, count, a);
      MovedByteUnwrapped(m, target, source, count, a);
    }
  }

  lemma MovedByteUnwrapped(m: Memory, target: Dword, source: Dword, count: Dword, a: Dword)
    requires target + count <= TWO32 && source + count <= TWO32
    ensures MovedByte(m, target, source, count, a) ==
            if target <= a < target + count then m[source + (a - target)] else m[a]
  {
  }

  // ---- rep stosb and rep stosw ----

  /** `rep stosb` with the direction flag clear. */
  function RepStosb(m: Memory, edi: Dword, al: Byte, ecx: Dword): Memory
    decreases ecx
  {
    if ecx == 0 then m else RepStosb(m[edi := al], Up(edi, 1), al, ecx - 1)
  }

  /** `stosw` writes the low byte at EDI and the high byte above it. */
  function Stosw(m: Memory, edi: Dword, ax: Word): Memory {
    m[edi := Low(ax)][Up(edi, 1) := High(ax)]
  }

  function RepStosw(m: Memory, edi: Dword, ax: Word, ecx: Dword): Memory
    decreases ecx
  {
    if ecx == 0 then m else RepStosw(Stosw(m, edi, ax), Up(edi, 2), ax, ecx - 1)
  }

  method FlatFill(mem: array<Byte>, target: Dword, value: Byte, count: Dword)
    requires mem.Length == TWO32
    modifies mem
    ensures mem[..] == RepStosb(old(mem[..]), target, value, count)
  {
    hide Up;
    var edi, ecx := target, count;
    while ecx != 0
      invariant 0 <= ecx <= count && 0 <= edi < TWO32
      invariant RepStosb(mem[..], edi, value, ecx) == RepStosb(old(mem[..]), target, value, count)
    {
      mem[edi] := value;
      edi, ecx := Up(edi, 1), ecx - 1;
    }
  }

  method FlatFillWords(mem: array<Byte>, target: Dword, value: Word, count: Dword)
    requires mem.Length == TWO32
    modifies mem
    ensures mem[..] == RepStosw(old(mem[..]), target, value, count)
  {
    hide Up, Low, High;
    var edi, ecx := target, count;
    while ecx != 0
      invariant 0 <= ecx <= count && 0 <= edi < TWO32
      invariant RepStosw(mem[..], edi, value, ecx) == RepStosw(old(mem[..]), target, value, count)
    {
      mem[edi] := Low(value);
      mem[Up(edi, 1)] := High(value);
      edi, ecx := Up(edi, 2), ecx - 1;
    }
  }

  /** The dword fill loads EAX and counts dwords, but stores words: half of the range it is named for. */
  method FlatFillDwords(mem: array<Byte>, target: Dword, value: Dword, count: Dword)
    requires mem.Length == TWO32
    modifies mem
    ensures mem[..] == RepStosw(old(mem[..]), target, value % TWO16, count)
  {
    FlatFillWords(mem, target, value % TWO16, count);
  }

  lemma {:induction false} FilledByte(m: Memory, target: Dword, value: Byte, count: Dword, a: Dword)
    ensures RepStosb(m, target, value, count)[a] == if Down(a, target) < count then value else m[a]
    decreases count
  {
    if count != 0 {
      FilledByte(m[target := value], Up(target, 1), value, count - 1, a);
    }
  }

  /** The byte a word fill leaves at `a`: the word's low byte at even and its high byte at odd distances. */
  function WordFilledByte(m: Memory, target: Dword, value: Word, count: int, a: Dword): Byte {
    if Down(a, target) < 2 * count then if Down(a, target) % 2 == 0 then Low(value) else High(value) else m[a]
  }

  /** Whatever the count: the fill may run around the address space and over itself. */
  lemma {:induction false} FilledWord(m: Memory, target: Dword, value: Word, count: Dword, a: Dword)
    ensures RepStosw(m, target, value, count)[a] == WordFilledByte(m, target, value, count, a)
    decreases count
  {
    hide Low, High;
    if count != 0 {
      FilledWord(Stosw(m, target, value), Up(target, 2), value, count - 1, a);
      FilledWordStep(m, target, value, count, a);
    }
  }

  lemma FilledWordStep(m: Memory, target: Dword, value: Word, count: Dword, a: Dword)
    requires count > 0
    ensures WordFilledByte(Stosw(m, target, value), Up(target, 2), value, count - 1, a) ==
            WordFilledByte(m, target, value, count, a)
  {
    hide Low, High;
    var d, e := Down(a, target), Down(a, Up(target, 2));
    if d < 2 {
      assert a == if d == 0 then target else Up(target, 1);
      assert e == d + 0xFFFF_FFFE;
      ParityKept(d, 0x7FFF_FFFF);
    } else {
      assert e == d - 2;
      ParityKept(d, -1);
      assert a != target && a != Up(target, 1);
    }
  }

  lemma ParityKept(d: int, k: int)
    ensures (d + 2 * k) % 2 == d % 2
  {
  }

  /** Filling words of two equal bytes is filling twice as many of that byte, wherever the range wraps. */
  lemma FillsAgree(m: Memory, target: Dword, value: Byte, count: Dword)
    requires 2 * count < TWO32
    ensures RepStosw(m, target, value * 0x101, count) == RepStosb(m, target, value, 2 * count)
  {
    BytesOfWord(value, value);
    hide Low, High;
    forall a | 0 <= a < TWO32
      ensures RepStosw(m, target, value * 0x101, count)[a] == RepStosb(m, target, value, 2 * count)[a]
    {
      FilledWord(m, target, value * 0x101, count, a);
      FilledByte(m, target, value, 2 * count, a);
    }
  }

  /** Byte `k` of a double word. */
  function DwordByte(value: Dword, k: int): Byte {
    match k
    case 0 => Low(value % TWO16)
    case 1 => High(value % TWO16)
    case 2 => Low(value / TWO16)
    case _ => High(value / TWO16)
  }

  /** `after` is `before` with `count` dwords of `value` from `target` on. */
  ghost predicate DwordsFilled(before: Memory, after: Memory, target: Dword, value: Dword, count: Dword) {
    forall a: int :: 0 <= a < TWO32 ==>
      after[a] == if Down(a, target) < 4 * count then DwordByte(value, Down(a, target) % 4) else before[a]
  }

  /** The dword fill of every memory fills dwords. */
  ghost predicate FillsDwords(target: Dword, value: Dword, count: Dword) {
    forall m: Memory :: DwordsFilled(m, RepStosw(m, target, value % TWO16, count), target, value, count)
  }

  /**
   The dword fill fills dwords exactly when it fills none, or when its words already run around the whole
   address space and the two words of the value are equal.
   */
  lemma DwordFillExactly(target: Dword, value: Dword, count: Dword)
    ensures FillsDwords(target, value, count) <==> count == 0 || (2 * count >= TWO32 && value % TWO16 == value / TWO16)
  {
    hide DwordsFilled, RepStosw;
    if 0 < 2 * count < TWO32 {
      HalfFilled(target, value, count);
    } else if count > 0 && value % TWO16 != value / TWO16 {
      WordsDiffer(target, value, count);
    } else {
      forall m: Memory ensures DwordsFilled(m, RepStosw(m, target, value % TWO16, count), target, value, count) {
        AllFilled(m, target, value, count);
      }
    }
  }

  /** The fill stops half way. */
  lemma HalfFilled(target: Dword, value: Dword, count: Dword)
    requires 0 < 2 * count < TWO32
    ensures !FillsDwords(target, value, count)
  {
    hide RepStosw, DwordByte;
    var a := Up(target, 2 * count);
    var wanted := DwordByte(value, (2 * count) % 4);
    var m: Memory := seq(TWO32, i => if wanted == 0 then 1 else 0);
    assert Down(a, target) == 2 * count;
    FilledWord(m, target, value % TWO16, count, a);
    assert !DwordsFilled(m, RepStosw(m, target, value % TWO16, count), target, value, count);
  }

  /** Bytes 2 and 3 of the range hold the low word, not the high one. */
  lemma WordsDiffer(target: Dword, value: Dword, count: Dword)
    requires 2 * count >= TWO32 && value % TWO16 != value / TWO16
    ensures !FillsDwords(target, value, count)
  {
    hide RepStosw;
    var m: Memory := seq(TWO32, i => 0);
    FilledWord(m, target, value % TWO16, count, Up(target, 2));
    FilledWord(m, target, value % TWO16, count, Up(target, 3));
    assert Down(Up(target, 2), target) == 2 && Down(Up(target, 3), target) == 3;
    if FillsDwords(target, value, count) {
      assert DwordsFilled(m, RepStosw(m, target, value % TWO16, count), target, value, count);
      hide DwordsFilled;
      SameHalves(value);
    }
  }

  lemma SameHalves(value: Dword)
    requires Low(value % TWO16) == Low(value / TWO16) && High(value % TWO16) == High(value / TWO16)
    ensures value % TWO16 == value / TWO16
  {
  }

  lemma AllFilled(m: Memory, target: Dword, value: Dword, count: Dword)
    requires count == 0 || (2 * count >= TWO32 && value % TWO16 == value / TWO16)
    ensures DwordsFilled(m, RepStosw(m, target, value % TWO16, count), target, value, count)
  {
    hide RepStosw, Low, High, Down;
    forall a: Dword
      ensures RepStosw(m, target, value % TWO16, count)[a] ==
              if Down(a, target) < 4 * count then DwordByte(value, Down(a, target) % 4) else m[a]
    {
      FilledWord(m, target, value % TWO16, count, a);
      QuarterParity(Down(a, target));
    }
  }

  lemma QuarterParity(d: int)
    ensures d % 4 == 0 || d % 4 == 2 <==> d % 2 == 0
  {
  }
}
