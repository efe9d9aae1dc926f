/**
 The relocation loop of the MZ loader, seen as a function on the program image: every table
 entry adds the load segment to the 16-bit word at its site, in table order.
 */
module Relocation {
  import opened Words

  /** Every site's word lies inside an image of `size` bytes. */
  ghost predicate InBounds(sites: seq<nat>, size: nat) {
    forall k :: 0 <= k < |sites| ==> sites[k] + 2 <= size
  }

  /** The word at `site`, increased by `base` modulo 2^16. */
  function RelocateOne(image: seq<Byte>, site: nat, base: Word): (r: seq<Byte>)
    requires site + 2 <= |image|
    ensures |r| == |image|
  {
    WithWord(image, site, Add16(WordAt(image, site), base))
  }

  /** The image after the whole table has been processed in order. */
  function Relocate(image: seq<Byte>, sites: seq<nat>, base: Word): (r: seq<Byte>)
    requires InBounds(sites, |image|)
    ensures |r| == |image|
  {
    if sites == [] then image
    else
      var n := |sites| - 1;
      RelocateOne(Relocate(image, sites[..n], base), sites[n], base)
  }

  /** The words at `a` and `b` are the same word or do not share a byte. */
  predicate Apart(a: nat, b: nat) {
    a == b || a + 2 <= b || b + 2 <= a
  }

  /** No two entries of the table overlap by exactly one byte. */
  ghost predicate Compatible(sites: seq<nat>) {
    forall i, j :: 0 <= i < |sites| && 0 <= j < |sites| ==> Apart(sites[i], sites[j])
  }

  // ---- The closed form ----

  /** A word after `times` additions of `base`. */
  function Grown(w: Word, times: nat, base: Word): Word {
    (w + times * base) % 0x1_0000
  }

  lemma GrownOnce(w: Word, times: nat, base: Word)
    ensures Add16(Grown(w, times, base), base) == Grown(w, times + 1, base)
    ensures Grown(w, 0, base) == w
  {
    MulSucc(times, base);
    ModAdd(w + times * base, base);
  }

  lemma MulSucc(n: nat, x: int)
    ensures (n + 1) * x == n * x + x && 1 * x == x && 0 * x == 0
  {
  }

  lemma ModAdd(x: int, y: int)
    ensures (x % 0x1_0000 + y) % 0x1_0000 == (x + y) % 0x1_0000
  {
  }

  /** One step seen from the word at `a`, which the site either names or avoids. */
  lemma RelocateOneWord(image: seq<Byte>, site: nat, base: Word, a: nat)
    requires site + 2 <= |image| && a + 2 <= |image| && Apart(site, a)
    ensures WordAt(RelocateOne(image, site, base), a) ==
            if site == a then Add16(WordAt(image, a), base) else WordAt(image, a)
  {
  }

  /** What the loop does to one word that every site either names or avoids. */
  lemma {:induction false} ClosedFormWord(image: seq<Byte>, sites: seq<nat>, base: Word, a: nat)
    requires InBounds(sites, |image|) && a + 2 <= |image|
    requires forall k :: 0 <= k < |sites| ==> Apart(sites[k], a)
    ensures WordAt(Relocate(image, sites, base), a) == Grown(WordAt(image, a), multiset(sites)[a], base)
  {
    hide Grown, WordAt, Add16, RelocateOne;
    GrownOnce(WordAt(image, a), 0, base);
    if sites != [] {
      var n := |sites| - 1;
      ClosedFormWord(image, sites[..n], base, a);
      assert sites == sites[..n] + [sites[n]];
      RelocateOneWord(Relocate(image, sites[..n], base), sites[n], base, a);
      GrownOnce(WordAt(image, a), multiset(sites[..n])[a], base);
    }
  }

  /** A byte that no site covers keeps its value. */
  lemma {:induction false} UntouchedByte(image: seq<Byte>, sites: seq<nat>, base: Word, i: nat)
    requires InBounds(sites, |image|) && i < |image|
    requires forall k :: 0 <= k < |sites| ==> i != sites[k] && i != sites[k] + 1
    ensures Relocate(image, sites, base)[i] == image[i]
  {
    if sites != [] {
      UntouchedByte(image, sites[..|sites| - 1], base, i);
    }
  }

  /**
   Closed form: when no two sites overlap by one byte, each site's word grows by the load segment
   once for each entry that names it, and no other byte changes.
   */
  lemma ClosedForm(image: seq<Byte>, sites: seq<nat>, base: Word)
    requires InBounds(sites, |image|) && Compatible(sites)
    ensures forall s :: s in sites ==>
              WordAt(Relocate(image, sites, base), s) == Grown(WordAt(image, s), multiset(sites)[s], base)
    ensures forall i :: 0 <= i < |image| && i !in sites && i - 1 !in sites ==>
              Relocate(image, sites, base)[i] == image[i]
  {
    forall s | s in sites
      ensures WordAt(Relocate(image, sites, base), s) == Grown(WordAt(image, s), multiset(sites)[s], base)
    {
      ClosedFormWord(image, sites, base, s);
    }
    forall i | 0 <= i < |image| && i !in sites && i - 1 !in sites
      ensures Relocate(image, sites, base)[i] == image[i]
    {
      UntouchedByte(image, sites, base, i);
    }
  }

  /** Images that agree on every site's word and on every byte outside the sites are equal. */
  lemma SameImage(x: seq<Byte>, y: seq<Byte>, sites: seq<nat>)
    requires |x| == |y| && InBounds(sites, |x|)
    requires forall s :: s in sites ==> WordAt(x, s) == WordAt(y, s)
    requires forall i :: 0 <= i < |x| && i !in sites && i - 1 !in sites ==> x[i] == y[i]
    ensures x == y
  {
    forall i | 0 <= i < |x| ensures x[i] == y[i] {
      if i in sites {
        SameBytes(x, y, i);
      } else if i - 1 in sites {
        SameBytes(x, y, i - 1);
      }
    }
  }

  // ---- Splitting and undoing tables ----

  /** Processing a joined table is processing its two parts in turn. */
  lemma {:induction false} RelocateAppend(image: seq<Byte>, first: seq<nat>, second: seq<nat>, base: Word)
    requires InBounds(first, |image|) && InBounds(second, |image|)
    ensures InBounds(first + second, |image|)
    ensures Relocate(image, first + second, base) == Relocate(Relocate(image, first, base), second, base)
    decreases |second|
  {
    hide RelocateOne;
    if second == [] {
      assert first + second == first;
    } else {
      var n := |second| - 1;
      RelocateAppend(image, first, second[..n], base);
      assert (first + second)[..|first| + n] == first + second[..n];
    }
  }

  /** The load segment whose addition undoes that of `base`. */
  function Negated(base: Word): Word {
    (0x1_0000 - base) % 0x1_0000
  }

  function Reversed(sites: seq<nat>): (r: seq<nat>)
    ensures |r| == |sites|
    ensures forall x :: x in r ==> x in sites
  {
    if sites == [] then [] else [sites[|sites| - 1]] + Reversed(sites[..|sites| - 1])
  }

  lemma NegatedCancels(base: Word)
    ensures Add16(base, Negated(base)) == 0
  {
  }

  lemma ZeroOne(image: seq<Byte>, s: nat)
    requires s + 2 <= |image|
    ensures RelocateOne(image, s, 0) == image
  {
    OneByBytes(image, s, 0);
    hide RelocateOne;
  }

  lemma AddTwice(image: seq<Byte>, s: nat, a: Word, b: Word)
    requires s + 2 <= |image|
    ensures RelocateOne(RelocateOne(image, s, a), s, b) == RelocateOne(image, s, Add16(a, b))
  {
    AddAssociates(WordAt(image, s), a, b);
    hide Add16, Low, High;
  }

  lemma AddAssociates(w: Word, a: Word, b: Word)
    ensures Add16(Add16(w, a), b) == Add16(w, Add16(a, b))
  {
    ModAdd(w + a, b);
    ModAdd(a + b, w);
  }

  lemma InBoundsReversed(sites: seq<nat>, size: nat)
    requires InBounds(sites, size)
    ensures InBounds(Reversed(sites), size)
  {
    forall k | 0 <= k < |sites| ensures Reversed(sites)[k] + 2 <= size {
      assert Reversed(sites)[k] in Reversed(sites);
    }
  }

  /** Any table, overlapping or not, is undone by subtracting the base in the reverse order. */
  lemma {:induction false} UndoInReverse(image: seq<Byte>, sites: seq<nat>, base: Word)
    requires InBounds(sites, |image|)
    ensures InBounds(Reversed(sites), |image|)
    ensures Relocate(Relocate(image, sites, base), Reversed(sites), Negated(base)) == image
    decreases |sites|
  {
    InBoundsReversed(sites, |image|);
    if sites != [] {
      var n := |sites| - 1;
      var last := [sites[n]];
      var before := Relocate(image, sites[..n], base);
      InBoundsReversed(sites[..n], |image|);
      RelocateAppend(Relocate(image, sites, base), last, Reversed(sites[..n]), Negated(base));
      assert last[..0] == [];
      AddTwice(before, sites[n], base, Negated(base));
      NegatedCancels(base);
      ZeroOne(before, sites[n]);
      UndoInReverse(image, sites[..n], base);
    }
  }

  /** Relocation loses no information: different images stay different. */
  lemma RelocateInjective(x: seq<Byte>, y: seq<Byte>, sites: seq<nat>, base: Word)
    requires |x| == |y| && InBounds(sites, |x|)
    requires Relocate(x, sites, base) == Relocate(y, sites, base)
    ensures x == y
  {
    UndoInReverse(x, sites, base);
    UndoInReverse(y, sites, base);
  }

  lemma Multiple16(x: int, k: int)
    ensures (x + k * 0x1_0000) % 0x1_0000 == x % 0x1_0000
  {
  }

  /** Subtracting the base again, in the same table order, restores every image of `size` bytes. */
  ghost predicate RestoresInOrder(sites: seq<nat>, size: nat, base: Word)
    requires InBounds(sites, size)
  {
    forall image: seq<Byte> :: |image| == size ==>
      Relocate(Relocate(image, sites, base), sites, Negated(base)) == image
  }

  /** The table read backwards relocates every image of `size` bytes the same way. */
  ghost predicate ReadsBackwards(sites: seq<nat>, size: nat, base: Word)
    requires InBounds(sites, size) && InBounds(Reversed(sites), size)
  {
    forall image: seq<Byte> :: |image| == size ==>
      Relocate(image, sites, base) == Relocate(image, Reversed(sites), base)
  }

  /**
   For any table, overlapping or not, relocating back in the same order restores every image exactly
   when reading the table backwards makes no difference.
   */
  lemma UndoReadsBackwards(sites: seq<nat>, size: nat, base: Word)
    requires InBounds(sites, size)
    ensures InBounds(Reversed(sites), size)
    ensures RestoresInOrder(sites, size, base) <==> ReadsBackwards(sites, size, base)
  {
    hide Relocate, Reversed, Negated, InBounds;
    InBoundsReversed(sites, size);
    if RestoresInOrder(sites, size, base) {
      forall image: seq<Byte> | |image| == size
        ensures Relocate(image, sites, base) == Relocate(image, Reversed(sites), base)
      {
        UndoInOrderOf(image, sites, base);
      }
    }
    if ReadsBackwards(sites, size, base) {
      forall image: seq<Byte> | |image| == size
        ensures Relocate(Relocate(image, sites, base), sites, Negated(base)) == image
      {
        UndoInOrderOf(image, sites, base);
      }
    }
  }

  lemma UndoInOrderOf(image: seq<Byte>, sites: seq<nat>, base: Word)
    requires InBounds(sites, |image|) && InBounds(Reversed(sites), |image|)
    ensures Relocate(Relocate(image, Reversed(sites), base), sites, Negated(base)) == image
    ensures Relocate(Relocate(image, sites, base), sites, Negated(base)) == image
       <==> Relocate(image, sites, base) == Relocate(image, Reversed(sites), base)
  {
    ReversedTwice(sites);
    UndoInReverse(image, Reversed(sites), base);
    var there, other := Relocate(image, sites, base), Relocate(image, Reversed(sites), base);
    if Relocate(there, sites, Negated(base)) == image {
      RelocateInjective(there, other, sites, Negated(base));
    }
  }

  lemma {:induction false} ReversedOfCons(x: nat, rest: seq<nat>)
    ensures Reversed([x] + rest) == Reversed(rest) + [x]
  {
    if rest != [] {
      var n := |rest| - 1;
      assert ([x] + rest)[..n + 1] == [x] + rest[..n];
      ReversedOfCons(x, rest[..n]);
    }
  }

  lemma {:induction false} ReversedTwice(sites: seq<nat>)
    ensures Reversed(Reversed(sites)) == sites
  {
    if sites != [] {
      var n := |sites| - 1;
      ReversedTwice(sites[..n]);
      ReversedOfCons(sites[n], Reversed(sites[..n]));
      assert sites == sites[..n] + [sites[n]];
    }
  }

  // ---- Order independence ----

  /** `other` lists the same sites as `sites`, as often, in any order. */
  ghost predicate Reordering(sites: seq<nat>, other: seq<nat>, size: nat) {
    InBounds(sites, size) && InBounds(other, size) && multiset(other) == multiset(sites)
  }

  /** Every order of the table relocates every image of `size` bytes the same way. */
  ghost predicate OrderIndependent(sites: seq<nat>, size: nat, base: Word)
    requires InBounds(sites, size)
  {
    forall image: seq<Byte>, other: seq<nat> :: |image| == size && Reordering(sites, other, size) ==>
      Relocate(image, other, base) == Relocate(image, sites, base)
  }

  lemma SameMembers(sites: seq<nat>, other: seq<nat>)
    requires multiset(other) == multiset(sites)
    ensures forall x :: x in other <==> x in sites
  {
    forall x ensures x in other <==> x in sites {
      assert x in other <==> x in multiset(other);
    }
  }

  lemma CompatibleReordered(image: seq<Byte>, sites: seq<nat>, other: seq<nat>, base: Word)
    requires Reordering(sites, other, |image|) && Compatible(sites)
    ensures Relocate(image, other, base) == Relocate(image, sites, base)
  {
    SameMembers(sites, other);
    assert Compatible(other) by {
      forall i, j | 0 <= i < |other| && 0 <= j < |other| ensures Apart(other[i], other[j]) {
        assert other[i] in sites && other[j] in sites;
      }
    }
    ClosedForm(image, sites, base);
    ClosedForm(image, other, base);
    var x, y := Relocate(image, other, base), Relocate(image, sites, base);
    SameImage(x, y, sites);
  }

  /** How often a site's high byte is byte `i`. */
  function HighHits(sites: seq<nat>, i: nat): nat {
    if i == 0 then 0 else multiset(sites)[i - 1]
  }

  /** A byte after `times` additions of `step`, carries dropped. */
  function GrownByte(x: Byte, times: nat, step: Byte): Byte {
    (x + times * step) % 0x100
  }

  lemma GrownByteOnce(x: Byte, times: nat, step: Byte)
    ensures GrownByte(GrownByte(x, times, step), 1, step) == GrownByte(x, times + 1, step)
    ensures GrownByte(x, 0, step) == x
  {
    MulSucc(times, step);
    ModAddByte(x + times * step, step);
  }

  lemma ModAddByte(x: int, y: int)
    ensures (x % 0x100 + y) % 0x100 == (x + y) % 0x100
  {
  }

  /** A base with a zero low byte never carries: each byte is a sum of independent additions. */
  lemma {:induction false} HighByteForm(image: seq<Byte>, sites: seq<nat>, base: Word, i: nat)
    requires InBounds(sites, |image|) && i < |image| && Low(base) == 0
    ensures Relocate(image, sites, base)[i] == GrownByte(image[i], HighHits(sites, i), High(base))
  {
    hide GrownByte, High, Low, RelocateOne;
    GrownByteOnce(image[i], 0, High(base));
    if sites != [] {
      var n := |sites| - 1;
      HighByteForm(image, sites[..n], base, i);
      assert sites == sites[..n] + [sites[n]];
      var before := Relocate(image, sites[..n], base);
      HighByteOne(before, sites[n], base, i);
      GrownByteOnce(image[i], HighHits(sites[..n], i), High(base));
    }
  }

  lemma HighByteOne(image: seq<Byte>, s: nat, base: Word, i: nat)
    requires s + 2 <= |image| && i < |image| && Low(base) == 0
    ensures RelocateOne(image, s, base)[i] == if i == s + 1 then GrownByte(image[i], 1, High(base)) else image[i]
  {
    OneByBytes(image, s, base);
    hide RelocateOne, Low, High;
    assert 1 * High(base) == High(base);
  }

  lemma HighByteReordered(image: seq<Byte>, sites: seq<nat>, other: seq<nat>, base: Word)
    requires Reordering(sites, other, |image|) && Low(base) == 0
    ensures Relocate(image, other, base) == Relocate(image, sites, base)
  {
    forall i | 0 <= i < |image| ensures Relocate(image, other, base)[i] == Relocate(image, sites, base)[i] {
      HighByteForm(image, sites, base, i);
      HighByteForm(image, other, base, i);
    }
  }

  /** An image on which the overlapping sites `s` and `s + 1` lose a carry in one order only. */
  function CarryImage(size: nat, s: nat, base: Word): (r: seq<Byte>)
    requires s + 3 <= size
    ensures |r| == size
  {
    var low: Byte := if High(base) == 0 then 0xFF else 0;
    var shift := if High(base) == 0 then 1 else High(base);
    var mid: Byte := if shift + Low(base) <= 0x100 then 0xFF else 0;
    seq(size, i => if i == s then low else if i == s + 1 then mid else 0)
  }

  lemma CarryLost(size: nat, s: nat, base: Word)
    requires s + 3 <= size && Low(base) != 0
    ensures var image := CarryImage(size, s, base);
            RelocateOne(RelocateOne(image, s, base), s + 1, base) != RelocateOne(RelocateOne(image, s + 1, base), s, base)
  {
    var image := CarryImage(size, s, base);
    hide RelocateOne;
    TopByte(image, s, base);
    CarryChoice(base, image[s], image[s + 1]);
    DifferentTop(image[s + 2] + High(base),
                 Carry((image[s + 1] + High(base) + Carry(image[s], base)) % 0x100, base), Carry(image[s + 1], base));
  }

  lemma DifferentTop(x: int, c: int, d: int)
    requires 0 <= c <= 1 && 0 <= d <= 1 && c != d
    ensures (x + c) % 0x100 != (x + d) % 0x100
  {
  }

  /** The high byte and the carry out of the low byte when `base` is added to `low + 0x100 * high`. */
  function Carry(low: Byte, base: Word): int {
    if low + Low(base) >= 0x100 then 1 else 0
  }

  lemma AddByBytes(low: Byte, high: Byte, base: Word)
    ensures Low(Add16(low + 0x100 * high, base)) == (low + Low(base)) % 0x100
    ensures High(Add16(low + 0x100 * high, base)) == (high + High(base) + Carry(low, base)) % 0x100
  {
    var l, q := (low + Low(base)) % 0x100, Carry(low, base);
    var h, r := (high + High(base) + q) % 0x100, (high + High(base) + q) / 0x100;
    assert low + 0x100 * high + base == l + 0x100 * h + 0x1_0000 * r;
    WordOfBytes(l, h, r);
    assert Add16(low + 0x100 * high, base) == l + 0x100 * h;
  }

  lemma WordOfBytes(l: Byte, h: Byte, r: int)
    ensures (l + 0x100 * h + 0x1_0000 * r) % 0x1_0000 == l + 0x100 * h
    ensures Low(l + 0x100 * h) == l && High(l + 0x100 * h) == h
  {
    BytesOfWord(l, h);
    hide Low, High;
    Multiple16(l + 0x100 * h, r);
  }

  /** Byte `s + 2` after both orders of two sites that overlap in byte `s + 1`. */
  lemma TopByte(image: seq<Byte>, s: nat, base: Word)
    requires s + 3 <= |image|
    ensures RelocateOne(RelocateOne(image, s, base), s + 1, base)[s + 2] ==
            (image[s + 2] + High(base) + Carry((image[s + 1] + High(base) + Carry(image[s], base)) % 0x100, base)) % 0x100
    ensures RelocateOne(RelocateOne(image, s + 1, base), s, base)[s + 2] ==
            (image[s + 2] + High(base) + Carry(image[s + 1], base)) % 0x100
  {
    hide RelocateOne, Carry, High, Low;
    OneByBytes(image, s, base);
    OneByBytes(RelocateOne(image, s, base), s + 1, base);
    OneByBytes(image, s + 1, base);
    OneByBytes(RelocateOne(image, s + 1, base), s, base);
  }

  lemma OneByBytes(image: seq<Byte>, s: nat, base: Word)
    requires s + 2 <= |image|
    ensures var r := RelocateOne(image, s, base);
            && r[s] == (image[s] + Low(base)) % 0x100
            && r[s + 1] == (image[s + 1] + High(base) + Carry(image[s], base)) % 0x100
            && forall i :: 0 <= i < |image| && i != s && i != s + 1 ==> r[i] == image[i]
  {
    AddByBytes(image[s], image[s + 1], base);
  }

  lemma CarryChoice(base: Word, low: Byte, mid: Byte)
    requires Low(base) != 0
    requires low == if High(base) == 0 then 0xFF else 0
    requires mid == if (if High(base) == 0 then 1 else High(base)) + Low(base) <= 0x100 then 0xFF else 0
    ensures Carry((mid + High(base) + Carry(low, base)) % 0x100, base) != Carry(mid, base)
  {
  }

  lemma OverlapBreaksOrder(sites: seq<nat>, size: nat, base: Word, i: nat, j: nat)
    requires InBounds(sites, size) && Low(base) != 0
    requires i < |sites| && j < |sites| && sites[j] == sites[i] + 1
    ensures !OrderIndependent(sites, size, base)
  {
    var s := sites[i];
    assert sites[j] + 2 <= size && s + 3 <= size;
    hide *;
    var rest := BothOrders(sites, s, i, j);
    InBoundsReordered(sites, [s, s + 1] + rest, size);
    InBoundsReordered(sites, [s + 1, s] + rest, size);
    InBoundsPart([s, s + 1], rest, size);
    var image := CarryImage(size, s, base);
    OverlapDiffers(image, s, rest, base);
    TwoOrdersDiffer(image, sites, [s, s + 1] + rest, [s + 1, s] + rest, base);
  }

  /** The table reordered so that the sites `s` and `s + 1` come first, either way round. */
  lemma BothOrders(sites: seq<nat>, s: nat, i: nat, j: nat) returns (rest: seq<nat>)
    requires i < |sites| && j < |sites| && sites[i] == s && sites[j] == s + 1
    ensures multiset([s, s + 1] + rest) == multiset(sites) == multiset([s + 1, s] + rest)
  {
    rest := PullOut(sites, i, j);
    PairCounts(s, s + 1, rest);
  }

  lemma TwoOrdersDiffer(image: seq<Byte>, sites: seq<nat>, up: seq<nat>, down: seq<nat>, base: Word)
    requires InBounds(sites, |image|) && InBounds(up, |image|) && InBounds(down, |image|)
    requires multiset(up) == multiset(sites) == multiset(down)
    requires Relocate(image, up, base) != Relocate(image, down, base)
    ensures !OrderIndependent(sites, |image|, base)
  {
    assert Reordering(sites, up, |image|) && Reordering(sites, down, |image|);
  }

  lemma InBoundsReordered(sites: seq<nat>, other: seq<nat>, size: nat)
    requires InBounds(sites, size) && multiset(other) == multiset(sites)
    ensures InBounds(other, size)
  {
    SameMembers(sites, other);
    forall k | 0 <= k < |other| ensures other[k] + 2 <= size {
      assert other[k] in sites;
    }
  }

  lemma InBoundsPart(first: seq<nat>, second: seq<nat>, size: nat)
    requires InBounds(first + second, size)
    ensures InBounds(second, size)
  {
    forall k | 0 <= k < |second| ensures second[k] + 2 <= size {
      assert (first + second)[|first| + k] == second[k];
    }
  }

  /** The table without its entries `i` and `j`. */
  lemma PullOut(sites: seq<nat>, i: nat, j: nat) returns (rest: seq<nat>)
    requires i < |sites| && j < |sites| && i != j
    ensures multiset(sites) == multiset{sites[i], sites[j]} + multiset(rest)
  {
    var k := if j < i then j else j - 1;
    var others := Without(sites, i);
    assert others[k] == sites[j];
    WithoutCounts(sites, i);
    WithoutCounts(others, k);
    rest := Without(others, k);
  }

  lemma PairCounts(x: nat, y: nat, rest: seq<nat>)
    ensures multiset([x, y] + rest) == multiset{x, y} + multiset(rest)
    ensures multiset([y, x] + rest) == multiset{x, y} + multiset(rest)
  {
  }

  function Without(sites: seq<nat>, k: nat): seq<nat>
    requires k < |sites|
  {
    sites[..k] + sites[k + 1..]
  }

  lemma WithoutCounts(sites: seq<nat>, k: nat)
    requires k < |sites|
    ensures multiset(sites) == multiset([sites[k]]) + multiset(Without(sites, k))
  {
    assert sites == sites[..k] + [sites[k]] + sites[k + 1..];
  }

  lemma OverlapDiffers(image: seq<Byte>, s: nat, rest: seq<nat>, base: Word)
    requires s + 3 <= |image| && InBounds(rest, |image|) && Low(base) != 0
    requires image == CarryImage(|image|, s, base)
    ensures InBounds([s, s + 1] + rest, |image|) && InBounds([s + 1, s] + rest, |image|)
    ensures Relocate(image, [s, s + 1] + rest, base) != Relocate(image, [s + 1, s] + rest, base)
  {
    hide *;
    var up, down := [s, s + 1], [s + 1, s];
    TwoSites(image, s, s + 1, base);
    TwoSites(image, s + 1, s, base);
    RelocateAppend(image, up, rest, base);
    RelocateAppend(image, down, rest, base);
    CarryLost(|image|, s, base);
    if Relocate(Relocate(image, up, base), rest, base) == Relocate(Relocate(image, down, base), rest, base) {
      RelocateInjective(Relocate(image, up, base), Relocate(image, down, base), rest, base);
    }
  }

  lemma TwoSites(image: seq<Byte>, s: nat, t: nat, base: Word)
    requires s + 2 <= |image| && t + 2 <= |image|
    ensures InBounds([s, t], |image|)
    ensures Relocate(image, [s, t], base) == RelocateOne(RelocateOne(image, s, base), t, base)
  {
    RelocateSnoc(image, [], s, base);
    RelocateSnoc(image, [s], t, base);
    assert [] + [s] == [s] && [s] + [t] == [s, t];
  }

  lemma RelocateSnoc(image: seq<Byte>, sites: seq<nat>, s: nat, base: Word)
    requires InBounds(sites, |image|) && s + 2 <= |image|
    ensures InBounds(sites + [s], |image|)
    ensures Relocate(image, sites + [s], base) == RelocateOne(Relocate(image, sites, base), s, base)
  {
    assert (sites + [s])[..|sites|] == sites;
  }

  /**
   The order of the relocation table is irrelevant exactly when no two sites overlap by one byte
   or the load segment is a multiple of 256: otherwise some image loses a carry.
   */
  lemma OrderIndependence(sites: seq<nat>, size: nat, base: Word)
    requires InBounds(sites, size)
    ensures OrderIndependent(sites, size, base) <==> Compatible(sites) || Low(base) == 0
  {
    if Compatible(sites) || Low(base) == 0 {
      forall image: seq<Byte>, other: seq<nat> | |image| == size && Reordering(sites, other, size)
        ensures Relocate(image, other, base) == Relocate(image, sites, base)
      {
        if Low(base) == 0 {
          HighByteReordered(image, sites, other, base);
        } else {
          CompatibleReordered(image, sites, other, base);
        }
      }
    } else {
      var i, j :| 0 <= i < |sites| && 0 <= j < |sites| && !Apart(sites[i], sites[j]);
      if sites[j] == sites[i] + 1 {
        OverlapBreaksOrder(sites, size, base, i, j);
      } else {
        OverlapBreaksOrder(sites, size, base, j, i);
      }
    }
  }

  lemma {:induction false} ReversedCounts(sites: seq<nat>)
    ensures multiset(Reversed(sites)) == multiset(sites)
  {
    if sites != [] {
      var n := |sites| - 1;
      ReversedCounts(sites[..n]);
      assert sites == sites[..n] + [sites[n]];
    }
  }

  /** Where the order is irrelevant, the complement restores the image in the same table order. */
  lemma UndoInOrder(image: seq<Byte>, sites: seq<nat>, base: Word)
    requires InBounds(sites, |image|) && (Compatible(sites) || Low(base) == 0)
    ensures Relocate(Relocate(image, sites, base), sites, Negated(base)) == image
  {
    OrderIndependence(sites, |image|, base);
    InBoundsReversed(sites, |image|);
    ReversedCounts(sites);
    assert Reordering(sites, Reversed(sites), |image|);
    UndoInOrderOf(image, sites, base);
    hide Relocate, Reversed, Negated, Compatible, Low;
  }
}
