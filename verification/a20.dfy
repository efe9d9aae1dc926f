/**
 The A20 probe: it writes different words at 0000:0200 and FFFF:0210, which are the same memory word
 exactly when address line 20 is masked, and restores both through the stack.
 */
module A20 {
  import opened Words
  import opened FlatMemory
  import opened RealMode

  /** The two probed addresses on the bus. */
  const LOW_PROBE: nat := 0x200

  function HighProbe(masked: bool): nat {
    if masked then LOW_PROBE else 0x10_0200
  }

  lemma ProbesAreWords(m: Memory, masked: bool, w: Word)
    ensures SegWord(m, masked, 0, 0x200) == WordAt(m, LOW_PROBE)
    ensures SegWord(m, masked, 0xFFFF, 0x210) == WordAt(m, HighProbe(masked))
    ensures WithSegWord(m, masked, 0, 0x200, w) == WithWord(m, LOW_PROBE, w)
    ensures WithSegWord(m, masked, 0xFFFF, 0x210, w) == WithWord(m, HighProbe(masked), w)
  {
  }

  /** `a` is a byte of one of the probed words. */
  predicate Probed(masked: bool, a: int) {
    LOW_PROBE <= a < LOW_PROBE + 2 || HighProbe(masked) <= a < HighProbe(masked) + 2
  }

  /** The `count` bytes below ss:sp are not probed. */
  ghost predicate StackClear(masked: bool, ss: Word, sp: Word, count: nat) {
    forall a: int :: Probed(masked, a) ==> !BelowStack(masked, ss, sp, count, a)
  }

  /** The words `ws` lie below ss:sp, first one highest. */
  ghost predicate OnStack(m: Memory, masked: bool, ss: Word, sp: Word, ws: seq<Word>) {
    forall k :: 0 <= k < |ws| ==> StackWord(m, masked, ss, sp, k) == ws[k]
  }

  /** The word that push `k` stored. */
  function StackWord(m: Memory, masked: bool, ss: Word, sp: Word, k: int): Word {
    SegWord(m, masked, ss, Offset(sp, -2 * k - 2))
  }

  /** A push keeps the words above it and everything outside the stack. */
  lemma PushKeeps(m: Memory, masked: bool, ss: Word, sp: Word, ws: seq<Word>, w: Word)
    requires |ws| < 4 && OnStack(m, masked, ss, sp, ws)
    ensures var n := WithSegWord(m, masked, ss, Offset(sp, -2 * |ws| - 2), w);
            OnStack(n, masked, ss, sp, ws + [w]) && SameButBelow(m, n, masked, ss, sp, 8)
  {
    hide SegWord, WithSegWord, OffsetsApart, BelowStack, Offset;
    var d := |ws|;
    var n := WithSegWord(m, masked, ss, Offset(sp, -2 * d - 2), w);
    ReadBack(m, masked, ss, Offset(sp, -2 * d - 2), w);
    forall k | 0 <= k < d ensures StackWord(n, masked, ss, sp, k) == ws[k] {
      PushesApart(sp, k + 1, d + 1);
      ReadElsewhere(m, masked, ss, Offset(sp, -2 * d - 2), w, Offset(sp, -2 * k - 2));
    }
    PushFrame(m, masked, ss, sp, 2 * d + 2, 8, w);
  }

  /** A word stored `k` bytes below the stack pointer changes nothing but the stack. */
  lemma PushFrame(m: Memory, masked: bool, ss: Word, sp: Word, k: int, count: nat, w: Word)
    requires 2 <= k <= count
    ensures SameButBelow(m, WithSegWord(m, masked, ss, Offset(sp, -k), w), masked, ss, sp, count)
  {
    OffsetNext(sp, -k);
    assert Cell(masked, ss, Offset(sp, -k)) == StackCell(masked, ss, sp, k);
    assert Cell(masked, ss, Offset(Offset(sp, -k), 1)) == StackCell(masked, ss, sp, k - 1);
    hide Offset, Cell, StackCell;
    forall a: int | 0 <= a < TWO32 && !BelowStack(masked, ss, sp, count, a)
      ensures WithSegWord(m, masked, ss, Offset(sp, -k), w)[a] == m[a]
    {
      assert a != StackCell(masked, ss, sp, k) && a != StackCell(masked, ss, sp, k - 1);
    }
  }

  /** Writing a probed word keeps the stack. */
  lemma ProbeKeeps(m: Memory, masked: bool, ss: Word, sp: Word, ws: seq<Word>, p: nat, w: Word)
    requires |ws| <= 4 && OnStack(m, masked, ss, sp, ws) && StackClear(masked, ss, sp, 8)
    requires p == LOW_PROBE || p == HighProbe(masked)
    ensures OnStack(WithWord(m, p, w), masked, ss, sp, ws)
  {
    hide SegWord, WithWord, StackClear, Offset;
    forall k | 0 <= k < |ws| ensures StackWord(WithWord(m, p, w), masked, ss, sp, k) == ws[k] {
      ProbeClear(m, masked, ss, sp, 2 * k + 2, p, w);
    }
  }

  lemma StackUnprobed(masked: bool, ss: Word, sp: Word, j: int)
    requires StackClear(masked, ss, sp, 8) && 1 <= j <= 8
    ensures !Probed(masked, StackCell(masked, ss, sp, j))
  {
    hide StackCell, Probed;
    assert BelowStack(masked, ss, sp, 8, StackCell(masked, ss, sp, j));
  }

  lemma ProbeClear(m: Memory, masked: bool, ss: Word, sp: Word, k: int, p: nat, w: Word)
    requires 2 <= k <= 8 && StackClear(masked, ss, sp, 8) && (p == LOW_PROBE || p == HighProbe(masked))
    ensures SegWord(WithWord(m, p, w), masked, ss, Offset(sp, -k)) == SegWord(m, masked, ss, Offset(sp, -k))
  {
    OffsetNext(sp, -k);
    StackUnprobed(masked, ss, sp, k);
    StackUnprobed(masked, ss, sp, k - 1);
    var a, b := StackCell(masked, ss, sp, k), StackCell(masked, ss, sp, k - 1);
    assert a == Cell(masked, ss, Offset(sp, -k)) && b == Cell(masked, ss, Offset(Offset(sp, -k), 1));
    hide Offset, Cell, StackCell, StackClear, BelowStack;
    UnprobedKept(m, WithWord(m, p, w), masked, p, w, a);
    UnprobedKept(m, WithWord(m, p, w), masked, p, w, b);
  }

  /** What changes only the stack keeps the probed words. */
  lemma ProbesKept(m: Memory, n: Memory, masked: bool, ss: Word, sp: Word)
    requires StackClear(masked, ss, sp, 8) && SameButBelow(m, n, masked, ss, sp, 8)
    ensures WordAt(n, LOW_PROBE) == WordAt(m, LOW_PROBE)
    ensures WordAt(n, HighProbe(masked)) == WordAt(m, HighProbe(masked))
  {
    hide BelowStack;
    assert Probed(masked, LOW_PROBE) && Probed(masked, LOW_PROBE + 1);
    assert Probed(masked, HighProbe(masked)) && Probed(masked, HighProbe(masked) + 1);
  }

  /** What the AND of the two probed words shows. */
  lemma ProbePattern()
    ensures And16(0x5555, 0xAAAA) == 0 && And16(0xAAAA, 0xAAAA) == 0xAAAA
  {
    AndSelf(0xAAAA);
    assert And(0x5, 0xA) == 0;
    AndNibble(0x5, 0xA);
    AndNibble(0x55, 0xAA);
    AndNibble(0x555, 0xAAA);
  }

  lemma AndNibble(a: nat, b: nat)
    requires And(a, b) == 0
    ensures And(16 * a + 5, 16 * b + 10) == 0
  {
    assert And(2 * a, 2 * b + 1) == 0;
    assert And(4 * a + 1, 4 * b + 2) == 0;
    assert And(8 * a + 2, 8 * b + 5) == 0;
  }

  /**
   A processor with address line 20 and port 92h. `unmasks` is the machine's answer to a write to the
   port: whether the line is unmasked after it.
   */
  class Gate {
    const mem: array<Byte>
    const unmasks: bool
    var masked: bool
    var port: Byte
    var ax: Word
    var fs: Word
    var gs: Word
    const ss: Word
    var sp: Word

    constructor (mem: array<Byte>, unmasks: bool, masked: bool, port: Byte, ax: Word, fs: Word, gs: Word, ss: Word,
                 sp: Word)
      ensures this.mem == mem && this.unmasks == unmasks
      ensures this.masked == masked && this.port == port && this.ax == ax
      ensures this.fs == fs && this.gs == gs && this.ss == ss && this.sp == sp
    {
      this.mem, this.unmasks, this.masked, this.port, this.ax := mem, unmasks, masked, port, ax;
      this.fs, this.gs, this.ss, this.sp := fs, gs, ss, sp;
    }

    predicate Valid() {
      mem.Length == TWO32
    }

    /** Pushes a word below the words `ws` that lie below `sp0`. */
    method Push(w: Word, ghost sp0: Word, ghost ws: seq<Word>)
      requires Valid() && |ws| < 4
      requires sp == Offset(sp0, -2 * |ws|) && OnStack(mem[..], masked, ss, sp0, ws)
      modifies this`sp, mem
      ensures sp == Offset(sp0, -2 * |ws| - 2) && OnStack(mem[..], masked, ss, sp0, ws + [w])
      ensures SameButBelow(old(mem[..]), mem[..], masked, ss, sp0, 8)
    {
      hide OnStack, SameButBelow, Offset, WithSegWord;
      OffsetSum(sp0, -2 * |ws|, -2);
      PushKeeps(mem[..], masked, ss, sp0, ws, w);
      sp := Offset(sp, -2);
      StoreSegWord(mem, masked, ss, sp, w);
    }

    method Pop(ghost sp0: Word, ghost ws: seq<Word>) returns (w: Word)
      requires Valid() && |ws| > 0
      requires sp == Offset(sp0, -2 * |ws|) && OnStack(mem[..], masked, ss, sp0, ws)
      modifies this`sp
      ensures sp == Offset(sp0, -2 * |ws| + 2) && w == ws[|ws| - 1]
      ensures OnStack(mem[..], masked, ss, sp0, ws[..|ws| - 1])
    {
      hide Offset, SegWord;
      OffsetSum(sp0, -2 * |ws|, 2);
      w := LoadSegWord(mem, masked, ss, sp);
      assert w == StackWord(mem[..], masked, ss, sp0, |ws| - 1);
      sp := Offset(sp, 2);
    }

    method StoreLow(w: Word, ghost sp0: Word, ghost ws: seq<Word>)
      requires Valid() && fs == 0 && |ws| <= 4
      requires StackClear(masked, ss, sp0, 8) && OnStack(mem[..], masked, ss, sp0, ws)
      modifies mem
      ensures mem[..] == WithWord(old(mem[..]), LOW_PROBE, w) && OnStack(mem[..], masked, ss, sp0, ws)
    {
      ProbesAreWords(mem[..], masked, w);
      ProbeKeeps(mem[..], masked, ss, sp0, ws, LOW_PROBE, w);
      hide *;
      StoreSegWord(mem, masked, fs, 0x200, w);
    }

    method StoreHigh(w: Word, ghost sp0: Word, ghost ws: seq<Word>)
      requires Valid() && gs == 0xFFFF && |ws| <= 4
      requires StackClear(masked, ss, sp0, 8) && OnStack(mem[..], masked, ss, sp0, ws)
      modifies mem
      ensures mem[..] == WithWord(old(mem[..]), HighProbe(masked), w) && OnStack(mem[..], masked, ss, sp0, ws)
    {
      ProbesAreWords(mem[..], masked, w);
      ProbeKeeps(mem[..], masked, ss, sp0, ws, HighProbe(masked), w);
      hide *;
      StoreSegWord(mem, masked, gs, 0x210, w);
    }

    /** The first half of the test: both probed words are saved on the stack and overwritten. */
    method Plant() returns (ghost low: Word, ghost high: Word)
      requires Valid() && StackClear(masked, ss, sp, 8)
      modifies this`fs, this`gs, this`sp, mem
      ensures fs == 0 && gs == 0xFFFF && sp == Offset(old(sp), -8)
      ensures OnStack(mem[..], masked, ss, old(sp), [old(fs), old(gs), low, high])
      ensures WordAt(mem[..], HighProbe(masked)) == 0xAAAA
      ensures WordAt(mem[..], LOW_PROBE) == if masked then 0xAAAA else 0x5555
      ensures SameButBelow(old(mem[..]), WithWord(WithWord(mem[..], HighProbe(masked), high), LOW_PROBE, low),
                           masked, ss, old(sp), 8)
    {
      hide Offset, OnStack, SameButBelow, StackClear, WithWord, WithSegWord, WordAt, SegWord, HighProbe;
      ghost var m0, sp0, f, g := mem[..], sp, fs, gs;
      StackStart(m0, masked, ss, sp0);
      Push(fs, sp0, []);
      assert [] + [f] == [f];
      ghost var m1 := mem[..];
      Push(gs, sp0, [f]);
      assert [f] + [g] == [f, g];
      ghost var m2 := mem[..];
      fs, gs := 0, 0xFFFF;
      ProbesAreWords(m2, masked, 0);
      var saved := LoadSegWord(mem, masked, fs, 0x200);
      Push(saved, sp0, [f, g]);
      assert [f, g] + [saved] == [f, g, saved];
      ghost var m3 := mem[..];
      StoreLow(0x5555, sp0, [f, g, saved]);
      ghost var m4 := mem[..];
      ProbesAreWords(m4, masked, 0);
      var second := LoadSegWord(mem, masked, gs, 0x210);
      Push(second, sp0, [f, g, saved]);
      assert [f, g, saved] + [second] == [f, g, saved, second];
      ghost var m5 := mem[..];
      StoreHigh(0xAAAA, sp0, [f, g, saved, second]);
      low, high := saved, second;
      Patterns(m0, m1, m2, m3, m4, m5, mem[..], masked, ss, sp0);
    }

    /**
     `a20test`: AX is zero exactly when line 20 is not masked, and all memory but the eight bytes below
     the stack pointer is as it was, aliased or not.
     */
    method Test()
      requires Valid() && StackClear(masked, ss, sp, 8)
      modifies this`ax, this`fs, this`gs, this`sp, mem
      ensures ax == if masked then 0xAAAA else 0
      ensures fs == old(fs) && gs == old(gs) && sp == old(sp)
      ensures SameButBelow(old(mem[..]), mem[..], masked, ss, sp, 8)
    {
      hide Offset, OnStack, SameButBelow, StackClear, WithWord, WithSegWord, WordAt, And16, SegWord, HighProbe;
      ghost var sp0, f, g := sp, fs, gs;
      StackStart(mem[..], masked, ss, sp0);
      ghost var low, high := Plant();
      ghost var ws := [f, g, low, high];
      ProbesAreWords(mem[..], masked, 0);
      ProbePattern();
      ax := LoadSegWord(mem, masked, fs, 0x200);
      ax := And16(ax, LoadSegWord(mem, masked, gs, 0x210));
      var w := Pop(sp0, ws);
      StoreHigh(w, sp0, ws[..3]);
      w := Pop(sp0, ws[..3]);
      assert ws[..3][..2] == [f, g] && [f, g][..1] == [f];
      StoreLow(w, sp0, [f, g]);
      gs := Pop(sp0, [f, g]);
      fs := Pop(sp0, [f]);
    }

    /** `a20enable`: the port is written only when its bit 1 is clear, and the machine answers the write. */
    method Enable()
      modifies this`ax, this`port, this`masked
      ensures ax / 0x100 == old(ax) / 0x100
      ensures port / 2 % 2 == 1 && port / 4 == old(port) / 4
      ensures if old(port) / 2 % 2 == 1 then port == old(port) && masked == old(masked)
              else port % 2 == 0 && masked == !unmasks
    {
      var al := port;
      if al / 2 % 2 == 0 {
        PortBits(al);
        al := al + 2;
        al := al - al % 2;
        port := al;
        masked := !unmasks;
      }
      HighByteKept(ax, al);
      ax := ax - ax % 0x100 + al;
    }

    /** A call of the test, whose return address lies on the stack meanwhile. */
    method CallTest(returnTo: Word)
      requires Valid() && StackClear(masked, ss, sp, 10)
      modifies this`ax, this`fs, this`gs, this`sp, mem
      ensures ax == if masked then 0xAAAA else 0
      ensures fs == old(fs) && gs == old(gs) && sp == old(sp)
      ensures SameButBelow(old(mem[..]), mem[..], masked, ss, sp, 10)
    {
      hide Offset, WithSegWord, BelowStack, Probed;
      ghost var m0, sp0 := mem[..], sp;
      StackDeeper(masked, ss, sp0, Offset(sp0, -2), 8);
      StackClearDeeper(masked, ss, sp0, 8);
      OffsetSum(sp0, -2, 2);
      StackStart(m0, masked, ss, sp0);
      PushFrame(m0, masked, ss, sp0, 2, 10, returnTo);
      sp := Offset(sp, -2);
      StoreSegWord(mem, masked, ss, sp, returnTo);
      ghost var m1 := mem[..];
      Test();
      sp := Offset(sp, 2);
    }

    /**
     `a20init`: it returns exactly with line 20 unmasked, and halts exactly if the line was masked and
     either port 92h was already set or the machine does not answer its write. The port is written only with
     the line masked, and then holds what `a20enable` leaves. On return SP, FS and GS are as before, and so
     is AX, unless the stack's addresses themselves change with line 20; memory changes only in the stack
     below SP, by either of its addresses.
     */
    method Init(returnTo: Word) returns (halted: bool)
      requires Valid() && StackClear(true, ss, sp, 12) && StackClear(false, ss, sp, 12)
      modifies this, mem
      ensures halted == masked
      ensures halted <==> old(masked) && (old(port) / 2 % 2 == 1 || !unmasks)
      ensures if old(masked) && old(port) / 2 % 2 == 0
              then port / 2 % 2 == 1 && port % 2 == 0 && port / 4 == old(port) / 4
              else port == old(port)
      ensures !halted ==> sp == old(sp) && fs == old(fs) && gs == old(gs)
      ensures SameButEither(old(mem[..]), mem[..], ss, old(sp), 12)
      ensures !old(masked) || FixedStack(ss, old(sp), 12) ==>
                (!halted ==> ax == old(ax)) && SameButBelow(old(mem[..]), mem[..], false, ss, old(sp), 12)
    {
      hide Offset, WithSegWord, SegWord, BelowStack, Probed, SameButBelow, SameButEither, StackClear, FixedStack;
      ghost var m0, sp0, before := mem[..], sp, ax;
      StackClearDeeper(true, ss, sp0, 10);
      StackClearDeeper(false, ss, sp0, 10);
      OffsetSum(sp0, -2, 2);
      StackStart(m0, masked, ss, sp0);
      PushedHere(m0, masked, ss, sp0, ax);
      sp := Offset(sp, -2);
      StoreSegWord(mem, masked, ss, sp, ax);
      ghost var m1 := mem[..];
      CallTest(returnTo);
      ghost var m2 := mem[..];
      KeepsPushed(m0, m1, m2, masked, ss, sp0, before);
      if ax != 0 {
        Enable();
        CallTest(returnTo);
        OtherLine(m0, m2, mem[..], masked, ss, sp0, before);
        if ax != 0 {
          return true;
        }
      }
      ax := LoadSegWord(mem, masked, ss, sp);
      sp := Offset(sp, 2);
      return false;
    }
  }

  /** Setting bit 1 and clearing bit 0 of a byte whose bit 1 is clear keeps the others. */
  lemma PortBits(al: Byte)
    requires al / 2 % 2 == 0
    ensures al + 2 < 0x100
    ensures var bits := al + 2 - (al + 2) % 2; bits / 2 % 2 == 1 && bits / 4 == al / 4 && bits % 2 == 0
  {
  }

  lemma HighByteKept(w: Word, low: Byte)
    ensures 0 <= w - w % 0x100 + low < 0x1_0000 && (w - w % 0x100 + low) / 0x100 == w / 0x100
  {
  }

  lemma StackStart(m: Memory, masked: bool, ss: Word, sp: Word)
    ensures Offset(sp, 0) == sp && OnStack(m, masked, ss, sp, [])
  {
  }

  /** The words that the test reads, in terms of the memory states it goes through. */
  lemma Patterns(m0: Memory, m1: Memory, m2: Memory, m3: Memory, m4: Memory, m5: Memory, m6: Memory,
                 masked: bool, ss: Word, sp: Word)
    requires StackClear(masked, ss, sp, 8)
    requires SameButBelow(m0, m1, masked, ss, sp, 8) && SameButBelow(m1, m2, masked, ss, sp, 8)
    requires SameButBelow(m2, m3, masked, ss, sp, 8) && SameButBelow(m4, m5, masked, ss, sp, 8)
    requires m4 == WithWord(m3, LOW_PROBE, 0x5555) && m6 == WithWord(m5, HighProbe(masked), 0xAAAA)
    ensures WordAt(m6, HighProbe(masked)) == 0xAAAA
    ensures WordAt(m6, LOW_PROBE) == if masked then 0xAAAA else 0x5555
    ensures SameButBelow(m0, WithWord(WithWord(m6, HighProbe(masked), WordAt(m4, HighProbe(masked))), LOW_PROBE,
                                      WordAt(m2, LOW_PROBE)), masked, ss, sp, 8)
  {
    hide StackClear, SameButBelow, WithWord, WordAt;
    ProbesKept(m0, m1, masked, ss, sp);
    ProbesKept(m1, m2, masked, ss, sp);
    ProbesOverlap(m3, masked, LOW_PROBE, 0x5555);
    ProbesKept(m4, m5, masked, ss, sp);
    ProbesOverlap(m5, masked, HighProbe(masked), 0xAAAA);
    SameButBelowJoined(m0, m1, m2, masked, ss, sp, 8);
    SameButBelowJoined(m0, m2, m3, masked, ss, sp, 8);
    Restores(m0, m3, m4, m5, m6, masked, ss, sp);
  }

  lemma WordApart(m: Memory, p: nat, w: Word, q: nat)
    requires p + 2 <= TWO32 && q + 2 <= TWO32 && (p + 2 <= q || q + 2 <= p)
    ensures WordAt(WithWord(m, p, w), q) == WordAt(m, q)
  {
    hide Low, High;
  }

  /** The two probed words are one word when line 20 is masked, and apart otherwise. */
  lemma ProbesOverlap(m: Memory, masked: bool, p: nat, w: Word)
    requires p == LOW_PROBE || p == HighProbe(masked)
    ensures WordAt(WithWord(m, p, w), LOW_PROBE) == if masked || p == LOW_PROBE then w else WordAt(m, LOW_PROBE)
    ensures WordAt(WithWord(m, p, w), HighProbe(masked)) ==
            if masked || p == HighProbe(masked) then w else WordAt(m, HighProbe(masked))
  {
    hide WordAt, WithWord;
    if !masked {
      WordApart(m, p, w, if p == LOW_PROBE then HighProbe(masked) else LOW_PROBE);
    }
  }

  /** Writing back the high word and then the low word restores both. */
  lemma Restores(m0: Memory, m3: Memory, m4: Memory, m5: Memory, m6: Memory, masked: bool, ss: Word, sp: Word)
    requires StackClear(masked, ss, sp, 8)
    requires SameButBelow(m0, m3, masked, ss, sp, 8) && SameButBelow(m4, m5, masked, ss, sp, 8)
    requires m4 == WithWord(m3, LOW_PROBE, 0x5555) && m6 == WithWord(m5, HighProbe(masked), 0xAAAA)
    ensures var back := WithWord(m6, HighProbe(masked), WordAt(m4, HighProbe(masked)));
            SameButBelow(m0, WithWord(back, LOW_PROBE, WordAt(m0, LOW_PROBE)), masked, ss, sp, 8)
  {
    var high := HighProbe(masked);
    var back := WithWord(m6, high, WordAt(m4, high));
    var end := WithWord(back, LOW_PROBE, WordAt(m0, LOW_PROBE));
    ProbesKept(m0, m3, masked, ss, sp);
    ProbesOverlap(m3, masked, LOW_PROBE, 0x5555);
    ProbesOverlap(back, masked, LOW_PROBE, WordAt(m0, LOW_PROBE));
    ProbedBytes(end, m0, masked);
    forall a: int | 0 <= a < TWO32 && !Probed(masked, a) && !BelowStack(masked, ss, sp, 8, a) ensures end[a] == m0[a] {
      hide WordAt, WithWord, StackClear, BelowStack, Probed;
      UnprobedKept(m3, m4, masked, LOW_PROBE, 0x5555, a);
      UnprobedKept(m5, m6, masked, high, 0xAAAA, a);
      UnprobedKept(m6, back, masked, high, WordAt(m4, high), a);
      UnprobedKept(back, end, masked, LOW_PROBE, WordAt(m0, LOW_PROBE), a);
    }
    hide *;
    SameProbedAndRest(m0, end, masked, ss, sp);
  }

  lemma SameProbedAndRest(m: Memory, n: Memory, masked: bool, ss: Word, sp: Word)
    requires forall a: int :: Probed(masked, a) ==> n[a] == m[a]
    requires forall a: int :: 0 <= a < TWO32 && !Probed(masked, a) && !BelowStack(masked, ss, sp, 8, a) ==> n[a] == m[a]
    ensures SameButBelow(m, n, masked, ss, sp, 8)
  {
    hide Probed, BelowStack;
  }

  lemma ProbedBytes(n: Memory, m: Memory, masked: bool)
    requires WordAt(n, LOW_PROBE) == WordAt(m, LOW_PROBE)
    requires WordAt(n, HighProbe(masked)) == WordAt(m, HighProbe(masked))
    ensures forall a: int :: Probed(masked, a) ==> n[a] == m[a]
  {
    SameBytes(n, m, LOW_PROBE);
    SameBytes(n, m, HighProbe(masked));
  }

  lemma UnprobedKept(m: Memory, n: Memory, masked: bool, p: nat, w: Word, a: int)
    requires p == LOW_PROBE || p == HighProbe(masked)
    requires n == WithWord(m, p, w) && 0 <= a < TWO32 && !Probed(masked, a)
    ensures n[a] == m[a]
  {
  }

  // ---- The stack around the test ----

  /** A stack pointer two bytes further down reaches only bytes that lie deeper below the old one. */
  lemma StackDeeper(masked: bool, ss: Word, sp: Word, lower: Word, count: nat)
    requires lower == Offset(sp, -2)
    ensures forall a: nat :: BelowStack(masked, ss, lower, count, a) ==> BelowStack(masked, ss, sp, count + 2, a)
    ensures forall a: nat :: BelowStack(masked, ss, sp, count, a) ==> BelowStack(masked, ss, sp, count + 2, a)
  {
    hide Offset, Cell;
    forall a: nat | BelowStack(masked, ss, lower, count, a) ensures BelowStack(masked, ss, sp, count + 2, a) {
      var j :| 1 <= j <= count && a == StackCell(masked, ss, lower, j);
      OffsetSum(sp, -2, -j);
      assert a == StackCell(masked, ss, sp, j + 2);
    }
  }

  lemma StackClearDeeper(masked: bool, ss: Word, sp: Word, count: nat)
    requires StackClear(masked, ss, sp, count + 2)
    ensures StackClear(masked, ss, Offset(sp, -2), count)
  {
    StackDeeper(masked, ss, sp, Offset(sp, -2), count);
    hide BelowStack, Offset;
  }

  /** Memory is unchanged but for the `count` bytes below ss:sp, by their addresses with line 20 masked or not. */
  ghost predicate SameButEither(m: Memory, n: Memory, ss: Word, sp: Word, count: nat) {
    forall a: int :: 0 <= a < TWO32 && !BelowStack(true, ss, sp, count, a) && !BelowStack(false, ss, sp, count, a) ==>
      n[a] == m[a]
  }

  /** The addresses of the `count` bytes below ss:sp do not depend on line 20. */
  ghost predicate FixedStack(ss: Word, sp: Word, count: nat) {
    forall j: int :: 1 <= j <= count ==> StackCell(true, ss, sp, j) == StackCell(false, ss, sp, j)
  }

  /** So it is in every segment up to F000h, the boot stub's among them. */
  lemma LowSegmentFixed(ss: Word, sp: Word, count: nat)
    requires ss <= 0xF000
    ensures FixedStack(ss, sp, count)
  {
  }

  lemma FixedBelow(ss: Word, sp: Word, count: nat, a: nat)
    requires FixedStack(ss, sp, count)
    ensures BelowStack(true, ss, sp, count, a) <==> BelowStack(false, ss, sp, count, a)
  {
    hide StackCell;
    if BelowStack(true, ss, sp, count, a) {
      var j :| 1 <= j <= count && a == StackCell(true, ss, sp, j);
      assert a == StackCell(false, ss, sp, j);
    }
    if BelowStack(false, ss, sp, count, a) {
      var j :| 1 <= j <= count && a == StackCell(false, ss, sp, j);
      assert a == StackCell(true, ss, sp, j);
    }
  }

  lemma EitherFixed(m: Memory, n: Memory, ss: Word, sp: Word, count: nat)
    requires SameButEither(m, n, ss, sp, count) && FixedStack(ss, sp, count)
    ensures SameButBelow(m, n, false, ss, sp, count)
  {
    hide BelowStack, FixedStack;
    forall a: int | 0 <= a < TWO32 && !BelowStack(false, ss, sp, count, a) ensures n[a] == m[a] {
      FixedBelow(ss, sp, count, a);
    }
  }

  lemma BelowIsEither(m: Memory, n: Memory, masked: bool, ss: Word, sp: Word, count: nat)
    requires SameButBelow(m, n, masked, ss, sp, count)
    ensures SameButEither(m, n, ss, sp, count)
  {
    hide BelowStack;
  }

  lemma EitherJoined(m0: Memory, m1: Memory, m2: Memory, ss: Word, sp: Word, count: nat)
    requires SameButEither(m0, m1, ss, sp, count) && SameButEither(m1, m2, ss, sp, count)
    ensures SameButEither(m0, m2, ss, sp, count)
  {
    hide BelowStack;
  }

  lemma PushedHere(m: Memory, masked: bool, ss: Word, sp: Word, w: Word)
    ensures var n := WithSegWord(m, masked, ss, Offset(sp, -2), w);
            SegWord(n, masked, ss, Offset(sp, -2)) == w && SameButBelow(m, n, masked, ss, sp, 12)
  {
    ReadBack(m, masked, ss, Offset(sp, -2), w);
    PushFrame(m, masked, ss, sp, 2, 12, w);
  }

  /** A call below the pushed word changes only bytes below the stack pointer before the push. */
  lemma DeeperFrame(m: Memory, n: Memory, masked: bool, ss: Word, sp: Word)
    requires SameButBelow(m, n, masked, ss, Offset(sp, -2), 10)
    ensures SameButBelow(m, n, masked, ss, sp, 12)
  {
    StackDeeper(masked, ss, sp, Offset(sp, -2), 10);
    hide BelowStack, Offset;
  }

  lemma WordKept(m: Memory, n: Memory, masked: bool, ss: Word, sp: Word)
    requires SameButBelow(m, n, masked, ss, Offset(sp, -2), 10)
    ensures SegWord(n, masked, ss, Offset(sp, -2)) == SegWord(m, masked, ss, Offset(sp, -2))
  {
    PushedNotBelow(masked, ss, sp);
    hide Offset, Cell, BelowStack;
  }

  /** A test below a pushed word keeps it. */
  lemma KeepsPushed(m0: Memory, m1: Memory, m2: Memory, masked: bool, ss: Word, sp: Word, w: Word)
    requires SegWord(m1, masked, ss, Offset(sp, -2)) == w
    requires SameButBelow(m0, m1, masked, ss, sp, 12) && SameButBelow(m1, m2, masked, ss, Offset(sp, -2), 10)
    ensures SegWord(m2, masked, ss, Offset(sp, -2)) == w
    ensures SameButBelow(m0, m2, masked, ss, sp, 12) && SameButEither(m0, m2, ss, sp, 12)
    ensures FixedStack(ss, sp, 12) ==> SameButBelow(m0, m2, false, ss, sp, 12)
  {
    hide *;
    WordKept(m1, m2, masked, ss, sp);
    DeeperFrame(m1, m2, masked, ss, sp);
    SameButBelowJoined(m0, m1, m2, masked, ss, sp, 12);
    BelowIsEither(m0, m2, masked, ss, sp, 12);
    if FixedStack(ss, sp, 12) {
      EitherFixed(m0, m2, ss, sp, 12);
    }
  }

  /** A second test, once line 20 may have changed: a word pushed with the line masked stays where its address is fixed. */
  lemma OtherLine(m0: Memory, m2: Memory, m3: Memory, masked: bool, ss: Word, sp: Word, w: Word)
    requires SegWord(m2, true, ss, Offset(sp, -2)) == w && SameButEither(m0, m2, ss, sp, 12)
    requires SameButBelow(m2, m3, masked, ss, Offset(sp, -2), 10)
    ensures SameButEither(m0, m3, ss, sp, 12)
    ensures FixedStack(ss, sp, 12) ==>
              SegWord(m3, masked, ss, Offset(sp, -2)) == w && SameButBelow(m0, m3, false, ss, sp, 12)
  {
    hide *;
    WordKept(m2, m3, masked, ss, sp);
    DeeperFrame(m2, m3, masked, ss, sp);
    BelowIsEither(m2, m3, masked, ss, sp, 12);
    EitherJoined(m0, m2, m3, ss, sp, 12);
    if FixedStack(ss, sp, 12) {
      EitherFixed(m0, m3, ss, sp, 12);
      FixedWord(m2, masked, ss, sp);
    }
  }

  lemma FixedWord(m: Memory, masked: bool, ss: Word, sp: Word)
    requires FixedStack(ss, sp, 12)
    ensures SegWord(m, masked, ss, Offset(sp, -2)) == SegWord(m, true, ss, Offset(sp, -2))
  {
    OffsetNext(sp, -2);
    hide Offset, Cell;
    assert StackCell(true, ss, sp, 2) == StackCell(false, ss, sp, 2);
    assert StackCell(true, ss, sp, 1) == StackCell(false, ss, sp, 1);
  }

  lemma PushedNotBelow(masked: bool, ss: Word, sp: Word)
    ensures !BelowStack(masked, ss, Offset(sp, -2), 10, Cell(masked, ss, Offset(sp, -2)))
    ensures !BelowStack(masked, ss, Offset(sp, -2), 10, Cell(masked, ss, Offset(Offset(sp, -2), 1)))
  {
    forall j: int | 1 <= j <= 10
      ensures StackCell(masked, ss, Offset(sp, -2), j) != Cell(masked, ss, Offset(sp, -2))
      ensures StackCell(masked, ss, Offset(sp, -2), j) != Cell(masked, ss, Offset(Offset(sp, -2), 1))
    {
      CellInjective(masked, ss, Offset(Offset(sp, -2), -j), Offset(sp, -2));
      CellInjective(masked, ss, Offset(Offset(sp, -2), -j), Offset(Offset(sp, -2), 1));
      OffsetsDiffer(Offset(sp, -2), j);
      hide Cell, Offset;
    }
  }

  lemma OffsetsDiffer(sp: Word, j: int)
    requires 1 <= j <= 10
    ensures Offset(sp, -j) != sp && Offset(sp, -j) != Offset(sp, 1)
  {
  }
}
