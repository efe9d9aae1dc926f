/**
 Relocating twice: when two passes over one table are one pass with the sum of their bases, and when a
 second pass over the same table undoes the first.
 */
module RelocationCompose {
  import opened Words
  import opened Relocation

  /**
   Whether the second pass over site `s` may be moved before the first pass over the later entry `t`:
   of two sites that overlap by one byte the higher one must not carry.
   */
  predicate Commutes(s: nat, t: nat, a: Word, b: Word) {
    Apart(s, t) || a == 0 || b == 0 || Low(if s < t then a else b) == 0
  }

  /** Every entry commutes with every later one. */
  ghost predicate Composable(sites: seq<nat>, a: Word, b: Word) {
    forall i, j :: 0 <= i < j < |sites| ==> Commutes(sites[i], sites[j], a, b)
  }

  // ---- Tables that compose ----

  lemma {:induction false} ZeroBase(image: seq<Byte>, sites: seq<nat>)
    requires InBounds(sites, |image|)
    ensures Relocate(image, sites, 0) == image
  {
    hide RelocateOne;
    if sites != [] {
      ZeroBase(image, sites[..|sites| - 1]);
      ZeroOne(image, sites[|sites| - 1]);
    }
  }

  lemma SwapOnes(image: seq<Byte>, s: nat, t: nat, a: Word, b: Word)
    requires s + 2 <= |image| && t + 2 <= |image| && Commutes(s, t, a, b)
    ensures RelocateOne(RelocateOne(image, t, a), s, b) == RelocateOne(RelocateOne(image, s, b), t, a)
  {
    hide RelocateOne, Add16;
    if a == 0 || b == 0 {
      SwapZero(image, s, t, a, b);
    } else if s == t {
      AddTwice(image, s, a, b);
      AddTwice(image, s, b, a);
      assert Add16(a, b) == Add16(b, a) by { AddCommutes(a, b); }
    } else if s + 2 <= t || t + 2 <= s {
      SwapApart(image, s, t, a, b);
    } else if s < t {
      SwapOverlap(image, s, b, a);
    } else {
      SwapOverlap(image, t, a, b);
    }
  }

  lemma SwapZero(image: seq<Byte>, s: nat, t: nat, a: Word, b: Word)
    requires s + 2 <= |image| && t + 2 <= |image| && (a == 0 || b == 0)
    ensures RelocateOne(RelocateOne(image, t, a), s, b) == RelocateOne(RelocateOne(image, s, b), t, a)
  {
    hide RelocateOne;
    if a == 0 {
      ZeroOne(image, t);
      ZeroOne(RelocateOne(image, s, b), t);
    } else {
      ZeroOne(image, s);
      ZeroOne(RelocateOne(image, t, a), s);
    }
  }

  lemma AddCommutes(a: Word, b: Word)
    ensures Add16(a, b) == Add16(b, a)
  {
  }

  lemma SwapApart(image: seq<Byte>, s: nat, t: nat, a: Word, b: Word)
    requires s + 2 <= |image| && t + 2 <= |image| && (s + 2 <= t || t + 2 <= s)
    ensures RelocateOne(RelocateOne(image, t, a), s, b) == RelocateOne(RelocateOne(image, s, b), t, a)
  {
    OneByBytes(image, s, b);
    OneByBytes(RelocateOne(image, s, b), t, a);
    OneByBytes(image, t, a);
    OneByBytes(RelocateOne(image, t, a), s, b);
    hide RelocateOne, Low, High, Carry;
  }

  /** The higher of two overlapping sites commutes with the lower one when it only adds to its high byte. */
  lemma SwapOverlap(image: seq<Byte>, s: nat, low: Word, high: Word)
    requires s + 3 <= |image| && Low(high) == 0
    ensures RelocateOne(RelocateOne(image, s, low), s + 1, high) == RelocateOne(RelocateOne(image, s + 1, high), s, low)
  {
    var x, y := RelocateOne(image, s, low), RelocateOne(image, s + 1, high);
    var xy, yx := RelocateOne(x, s + 1, high), RelocateOne(y, s, low);
    OneByBytes(image, s, low);
    OneByBytes(y, s, low);
    HighOnly(image, s + 1, high);
    HighOnly(x, s + 1, high);
    hide RelocateOne, Low, High, Carry;
    assert xy == yx;
  }

  lemma HighOnly(image: seq<Byte>, s: nat, base: Word)
    requires s + 2 <= |image| && Low(base) == 0
    ensures var r := RelocateOne(image, s, base);
            && r[s + 1] == (image[s + 1] + High(base)) % 0x100
            && forall i :: 0 <= i < |image| && i != s + 1 ==> r[i] == image[i]
  {
    OneByBytes(image, s, base);
    hide RelocateOne, Low, High;
  }

  /** A later entry of the first pass slips behind the second pass over the entries before it. */
  lemma {:induction false} SwapPass(image: seq<Byte>, sites: seq<nat>, t: nat, a: Word, b: Word, met: seq<Byte>)
    requires InBounds(sites, |image|) && t + 2 <= |image| && met == RelocateOne(image, t, a)
    requires forall k :: 0 <= k < |sites| ==> Commutes(sites[k], t, a, b)
    ensures Relocate(met, sites, b) == RelocateOne(Relocate(image, sites, b), t, a)
  {
    hide RelocateOne, Commutes;
    if sites != [] {
      var n := |sites| - 1;
      SwapPass(image, sites[..n], t, a, b, met);
      SwapOnes(Relocate(image, sites[..n], b), sites[n], t, a, b);
    }
  }

  /** Relocating by `a` and then by `b` is relocating once by their 16-bit sum, sites listed twice included. */
  lemma {:induction false} Compose(image: seq<Byte>, sites: seq<nat>, a: Word, b: Word)
    requires InBounds(sites, |image|) && Composable(sites, a, b)
    ensures Relocate(Relocate(image, sites, a), sites, b) == Relocate(image, sites, Add16(a, b))
  {
    hide RelocateOne, Commutes, Add16;
    if sites != [] {
      var n := |sites| - 1;
      var front := sites[..n];
      Compose(image, front, a, b);
      SwapPass(Relocate(image, front, a), front, sites[n], a, b, Relocate(image, sites, a));
      AddTwice(Relocate(image, front, Add16(a, b)), sites[n], a, b);
    }
  }

  // ---- One pass, seen from the byte that two overlapping sites share and from the byte above ----

  /** What the sites at `i` add to byte `i`. */
  function LowHits(sites: seq<nat>, i: nat, base: Word): nat {
    multiset(sites)[i] * Low(base)
  }

  lemma LowHitsAppend(first: seq<nat>, second: seq<nat>, i: nat, base: Word)
    ensures LowHits(first + second, i, base) == LowHits(first, i, base) + LowHits(second, i, base)
  {
    hide Low;
    assert multiset(first + second) == multiset(first) + multiset(second);
    MulPlus(multiset(first)[i], multiset(second)[i], Low(base));
  }

  lemma MulPlus(m: nat, n: nat, x: int)
    ensures (m + n) * x == m * x + n * x
  {
  }

  function Plus(x: Byte, n: int): Byte {
    (x + n) % 0x100
  }

  lemma PlusPlus(x: Byte, m: int, n: int)
    ensures Plus(Plus(x, m), n) == Plus(x, m + n)
  {
    ModAddByte(x + m, n);
  }

  /** A byte that is no site's high byte only collects low bytes. */
  lemma {:induction false} LowByteForm(image: seq<Byte>, sites: seq<nat>, base: Word, i: nat)
    requires InBounds(sites, |image|) && i < |image| && i - 1 !in sites
    ensures Relocate(image, sites, base)[i] == Plus(image[i], LowHits(sites, i, base))
  {
    hide RelocateOne, Low, LowHits, Plus;
    if sites == [] {
      assert LowHits(sites, i, base) == 0 && Plus(image[i], 0) == image[i] by { NoHits(image[i], i, base); }
    } else {
      var n := |sites| - 1;
      LowByteForm(image, sites[..n], base, i);
      assert sites == sites[..n] + [sites[n]];
      LowHitsAppend(sites[..n], [sites[n]], i, base);
      LowByteOne(Relocate(image, sites[..n], base), sites[n], base, i);
      PlusPlus(image[i], LowHits(sites[..n], i, base), LowHits([sites[n]], i, base));
    }
  }

  lemma NoHits(x: Byte, i: nat, base: Word)
    ensures LowHits([], i, base) == 0 && Plus(x, 0) == x
  {
    hide Low;
  }

  lemma LowByteOne(image: seq<Byte>, s: nat, base: Word, i: nat)
    requires s + 2 <= |image| && i < |image| && i != s + 1
    ensures RelocateOne(image, s, base)[i] == Plus(image[i], LowHits([s], i, base))
  {
    OneByBytes(image, s, base);
    OneHit(s, i, base);
    hide RelocateOne, Low, LowHits;
  }

  lemma OneHit(s: nat, i: nat, base: Word)
    ensures LowHits([s], i, base) == if s == i then Low(base) else 0
  {
    hide Low;
    MulSucc(0, Low(base));
    assert multiset([s])[i] == if s == i then 1 else 0;
  }

  /** `sites` with `s` and then `s + 1`, or the other way round, each listed once. */
  ghost predicate Around(before: seq<nat>, first: nat, between: seq<nat>, second: nat, after: seq<nat>, size: nat) {
    && InBounds(before, size) && InBounds(between, size) && InBounds(after, size)
    && first + 2 <= size && second + 2 <= size
    && first !in before && first !in between && first !in after
    && second !in before && second !in between && second !in after
  }

  function Table(before: seq<nat>, first: nat, between: seq<nat>, second: nat, after: seq<nat>): seq<nat> {
    before + [first] + between + [second] + after
  }

  lemma TableInBounds(before: seq<nat>, first: nat, between: seq<nat>, second: nat, after: seq<nat>, size: nat)
    requires Around(before, first, between, second, after, size)
    ensures InBounds(before + [first], size) && InBounds(before + [first] + between, size)
    ensures InBounds(Table(before, first, between, second, after), size)
  {
  }

  /** What a site adds to its high byte when its low byte is `x`. */
  function Above(x: Byte, base: Word): int {
    High(base) + Carry(x, base)
  }

  /** One step in these terms. */
  lemma StepBytes(image: seq<Byte>, t: nat, base: Word, r: seq<Byte>, low: Byte, high: Byte)
    requires t + 2 <= |image| && r == RelocateOne(image, t, base) && low == image[t] && high == image[t + 1]
    ensures |r| == |image| && r[t] == Plus(low, Low(base)) && r[t + 1] == Plus(high, Above(low, base))
    ensures forall i :: 0 <= i < |image| && i != t && i != t + 1 ==> r[i] == image[i]
  {
    OneByBytes(image, t, base);
    hide RelocateOne, Low, High, Carry;
  }

  lemma StepLow(image: seq<Byte>, s: nat, base: Word)
    requires s + 3 <= |image|
    ensures var r := RelocateOne(image, s, base);
            r[s + 1] == Plus(image[s + 1], Above(image[s], base)) && r[s + 2] == image[s + 2]
  {
    hide *;
    StepBytes(image, s, base, RelocateOne(image, s, base), image[s], image[s + 1]);
  }

  lemma StepHigh(image: seq<Byte>, s: nat, base: Word)
    requires s + 3 <= |image|
    ensures var r := RelocateOne(image, s + 1, base);
            r[s + 1] == Plus(image[s + 1], Low(base)) && r[s + 2] == Plus(image[s + 2], Above(image[s + 1], base))
  {
    hide *;
    StepBytes(image, s + 1, base, RelocateOne(image, s + 1, base), image[s + 1], image[s + 2]);
  }

  /** The states of one pass around the two sites. */
  lemma PassStates(z: seq<Byte>, before: seq<nat>, first: nat, between: seq<nat>, second: nat, after: seq<nat>,
                   base: Word)
    returns (x1: seq<Byte>, x2: seq<Byte>, x3: seq<Byte>, x4: seq<Byte>, r: seq<Byte>)
    requires Around(before, first, between, second, after, |z|)
    ensures InBounds(before + [first], |z|) && InBounds(before + [first] + between, |z|)
    ensures InBounds(Table(before, first, between, second, after), |z|)
    ensures |x1| == |x2| == |x3| == |x4| == |r| == |z|
    ensures x1 == Relocate(z, before, base) && x2 == RelocateOne(x1, first, base)
    ensures x3 == Relocate(x2, between, base) && x4 == RelocateOne(x3, second, base)
    ensures x2 == Relocate(z, before + [first], base) && x3 == Relocate(z, before + [first] + between, base)
    ensures r == Relocate(x4, after, base) == Relocate(z, Table(before, first, between, second, after), base)
  {
    TableInBounds(before, first, between, second, after, |z|);
    x1 := Relocate(z, before, base);
    x2 := RelocateOne(x1, first, base);
    x3 := Relocate(x2, between, base);
    x4 := RelocateOne(x3, second, base);
    r := Relocate(x4, after, base);
    hide RelocateOne, Relocate, InBounds;
    RelocateSnoc(z, before, first, base);
    RelocateAppend(z, before + [first], between, base);
    RelocateSnoc(z, before + [first] + between, second, base);
    RelocateAppend(z, before + [first] + between + [second], after, base);
  }

  lemma TableHits(before: seq<nat>, first: nat, between: seq<nat>, second: nat, after: seq<nat>, i: nat, base: Word)
    requires first != i && second != i
    ensures LowHits(Table(before, first, between, second, after), i, base) ==
            LowHits(before, i, base) + LowHits(between, i, base) + LowHits(after, i, base)
  {
    hide LowHits;
    LowHitsAppend(before + [first] + between + [second], after, i, base);
    LowHitsAppend(before + [first] + between, [second], i, base);
    LowHitsAppend(before + [first], between, i, base);
    LowHitsAppend(before, [first], i, base);
    OneHit(first, i, base);
    OneHit(second, i, base);
  }

  lemma PlusFour(x: Byte, k: int, l: int, m: int, n: int, all: int)
    requires all == k + l + n
    ensures Plus(Plus(Plus(Plus(x, k), l), m), n) == Plus(Plus(x, all), m)
    ensures Plus(Plus(Plus(Plus(x, k), m), l), n) == Plus(Plus(x, all), m)
  {
    hide Plus;
    PlusPlus(x, k, l);
    PlusPlus(x, k + l, m);
    PlusPlus(x, k + l + m, n);
    PlusPlus(x, all, m);
    PlusPlus(x, k, m);
    PlusPlus(x, k + m, l);
    PlusPlus(x, k + m + l, n);
    assert k + l + m + n == k + m + l + n == all + m;
  }

  /** A part of the table that lists neither of two overlapping sites. */
  ghost predicate Apiece(part: seq<nat>, s: nat, size: nat) {
    InBounds(part, size) && s + 3 <= size && s !in part && s + 1 !in part
  }

  lemma AroundApiece(before: seq<nat>, first: nat, between: seq<nat>, second: nat, after: seq<nat>, s: nat, size: nat)
    requires Around(before, first, between, second, after, size)
    requires (first == s && second == s + 1) || (first == s + 1 && second == s)
    ensures Apiece(before, s, size) && Apiece(between, s, size) && Apiece(after, s, size)
  {
  }

  lemma AsideBoth(image: seq<Byte>, part: seq<nat>, base: Word, s: nat)
    requires Apiece(part, s, |image|)
    ensures InBounds(part, |image|) && s + 3 <= |image|
    ensures Relocate(image, part, base)[s + 1] == image[s + 1]
    ensures Relocate(image, part, base)[s + 2] == Plus(image[s + 2], LowHits(part, s + 2, base))
  {
    hide Relocate, Plus, LowHits;
    LowByteForm(image, part, base, s + 2);
    UntouchedByte(image, part, base, s + 1);
  }

  /**
   The shared byte and the byte above it after a pass that adds to the shared byte as `s`'s high byte
   first, when byte `s` is `v`; other sites add `hits` to the byte above.
   */
  ghost predicate LowerPass(z: seq<Byte>, r: seq<Byte>, s: nat, base: Word, v: Byte, hits: int)
    requires |r| == |z| && s + 3 <= |z|
  {
    var y := Plus(z[s + 1], Above(v, base));
    r[s + 1] == Plus(y, Low(base)) && r[s + 2] == Plus(Plus(z[s + 2], hits), Above(y, base))
  }

  /** A pass that meets `s` before `s + 1`, state by state. */
  lemma LowerStates(z: seq<Byte>, before: seq<nat>, s: nat, between: seq<nat>, after: seq<nat>, base: Word,
                    x1: seq<Byte>, x2: seq<Byte>, x3: seq<Byte>, x4: seq<Byte>, r: seq<Byte>, hits: int)
    requires hits == LowHits(before, s + 2, base) + LowHits(between, s + 2, base) + LowHits(after, s + 2, base)
    requires Apiece(before, s, |z|) && Apiece(between, s, |z|) && Apiece(after, s, |z|)
    requires InBounds(before, |z|) && InBounds(between, |z|) && InBounds(after, |z|) && s + 3 <= |z|
    requires |x1| == |x2| == |x3| == |x4| == |r| == |z|
    requires x1 == Relocate(z, before, base) && x2 == RelocateOne(x1, s, base)
    requires x3 == Relocate(x2, between, base) && x4 == RelocateOne(x3, s + 1, base) && r == Relocate(x4, after, base)
    ensures LowerPass(z, r, s, base, x1[s], hits)
  {
    hide Relocate, RelocateOne, Plus, LowHits, Low, Above, Apiece, InBounds;
    AsideBoth(z, before, base, s);
    StepLow(x1, s, base);
    AsideBoth(x2, between, base, s);
    StepHigh(x3, s, base);
    AsideBoth(x4, after, base, s);
    PlusFour(z[s + 2], LowHits(before, s + 2, base), LowHits(between, s + 2, base), Above(x3[s + 1], base),
             LowHits(after, s + 2, base), hits);
  }

  /** A pass that meets `s` before `s + 1`. */
  lemma LowerFirst(z: seq<Byte>, before: seq<nat>, s: nat, between: seq<nat>, after: seq<nat>, base: Word)
    requires Around(before, s, between, s + 1, after, |z|)
    ensures InBounds(before, |z|) && s + 3 <= |z| && InBounds(Table(before, s, between, s + 1, after), |z|)
    ensures LowerPass(z, Relocate(z, Table(before, s, between, s + 1, after), base), s, base,
                      Relocate(z, before, base)[s], LowHits(Table(before, s, between, s + 1, after), s + 2, base))
  {
    AroundApiece(before, s, between, s + 1, after, s, |z|);
    assert InBounds(before, |z|) && InBounds(between, |z|) && InBounds(after, |z|) && s + 3 <= |z|;
    hide *;
    var x1, x2, x3, x4, r := PassStates(z, before, s, between, s + 1, after, base);
    TableHits(before, s, between, s + 1, after, s + 2, base);
    LowerStates(z, before, s, between, after, base, x1, x2, x3, x4, r,
                LowHits(Table(before, s, between, s + 1, after), s + 2, base));
  }

  /** The same for a pass that adds to the shared byte as the low byte of `s + 1` first; `x` is the state before `s`. */
  ghost predicate HigherPass(z: seq<Byte>, x: seq<Byte>, r: seq<Byte>, s: nat, base: Word, hits: int)
    requires |x| == |r| == |z| && s + 3 <= |z|
  {
    && x[s + 1] == Plus(z[s + 1], Low(base))
    && r[s + 1] == Plus(x[s + 1], Above(x[s], base))
    && r[s + 2] == Plus(Plus(z[s + 2], hits), Above(z[s + 1], base))
  }

  /** A pass that meets `s + 1` before `s`, state by state. */
  lemma HigherStates(z: seq<Byte>, before: seq<nat>, s: nat, between: seq<nat>, after: seq<nat>, base: Word,
                     x1: seq<Byte>, x2: seq<Byte>, x3: seq<Byte>, x4: seq<Byte>, r: seq<Byte>, hits: int)
    requires hits == LowHits(before, s + 2, base) + LowHits(between, s + 2, base) + LowHits(after, s + 2, base)
    requires Apiece(before, s, |z|) && Apiece(between, s, |z|) && Apiece(after, s, |z|)
    requires InBounds(before, |z|) && InBounds(between, |z|) && InBounds(after, |z|) && s + 3 <= |z|
    requires |x1| == |x2| == |x3| == |x4| == |r| == |z|
    requires x1 == Relocate(z, before, base) && x2 == RelocateOne(x1, s + 1, base)
    requires x3 == Relocate(x2, between, base) && x4 == RelocateOne(x3, s, base) && r == Relocate(x4, after, base)
    ensures HigherPass(z, x3, r, s, base, hits)
  {
    hide Relocate, RelocateOne, Plus, LowHits, Low, Above, Apiece, InBounds;
    AsideBoth(z, before, base, s);
    StepHigh(x1, s, base);
    AsideBoth(x2, between, base, s);
    StepLow(x3, s, base);
    AsideBoth(x4, after, base, s);
    PlusFour(z[s + 2], LowHits(before, s + 2, base), LowHits(between, s + 2, base), Above(z[s + 1], base),
             LowHits(after, s + 2, base), hits);
  }

  /** The table up to the lower site, when the higher one is listed first. */
  function Front(before: seq<nat>, s: nat, between: seq<nat>): seq<nat> {
    before + [s + 1] + between
  }

  /** A pass that meets `s + 1` before `s`. */
  lemma HigherFirst(z: seq<Byte>, before: seq<nat>, s: nat, between: seq<nat>, after: seq<nat>, base: Word)
    requires Around(before, s + 1, between, s, after, |z|)
    ensures s + 3 <= |z| && InBounds(Front(before, s, between), |z|)
    ensures InBounds(Table(before, s + 1, between, s, after), |z|)
    ensures HigherPass(z, Relocate(z, Front(before, s, between), base),
                       Relocate(z, Table(before, s + 1, between, s, after), base), s, base,
                       LowHits(Table(before, s + 1, between, s, after), s + 2, base))
  {
    AroundApiece(before, s + 1, between, s, after, s, |z|);
    assert InBounds(before, |z|) && InBounds(between, |z|) && InBounds(after, |z|) && s + 3 <= |z|;
    assert Front(before, s, between) == before + [s + 1] + between;
    hide *;
    var x1, x2, x3, x4, r := PassStates(z, before, s + 1, between, s, after, base);
    TableHits(before, s + 1, between, s, after, s + 2, base);
    HigherStates(z, before, s, between, after, base, x1, x2, x3, x4, r,
                 LowHits(Table(before, s + 1, between, s, after), s + 2, base));
  }

  // ---- Tables that do not compose ----

  lemma SumLow(a: Word, b: Word)
    ensures Low(Add16(a, b)) == Plus(Low(a), Low(b))
    ensures High(Add16(a, b)) == (High(a) + High(b) + Carry(Low(a), b)) % 0x100
  {
    AddByBytes(Low(a), High(a), b);
    assert Low(a) + 0x100 * High(a) == a;
  }

  /** The carries of adding `a` and then `b` to a byte are those of adding the sum of both. */
  lemma CarriesAssociate(x: Byte, a: Word, b: Word)
    ensures Carry(x, a) + Carry(Plus(x, Low(a)), b) == Carry(Low(a), b) + Carry(x, Add16(a, b))
  {
    SumLow(a, b);
    CarriesOfBytes(x, Low(a), Low(b));
    hide Low, Add16;
  }

  function ByteCarry(x: int, y: int): int {
    if x + y >= 0x100 then 1 else 0
  }

  lemma CarriesOfBytes(x: Byte, l: Byte, m: Byte)
    ensures ByteCarry(x, l) + ByteCarry((x + l) % 0x100, m) == ByteCarry(l, m) + ByteCarry(x, (l + m) % 0x100)
  {
  }

  predicate AddUp(k: int, l: int, n: int) {
    (k + l - n) % 0x100 == 0
  }

  lemma HitsAdd(sites: seq<nat>, i: nat, a: Word, b: Word)
    ensures AddUp(LowHits(sites, i, a), LowHits(sites, i, b), LowHits(sites, i, Add16(a, b)))
  {
    SumLow(a, b);
    hide Low, Add16, High, Carry;
    HitsOfBytes(multiset(sites)[i], Low(a), Low(b), Low(Add16(a, b)));
  }

  lemma HitsOfBytes(n: nat, l: Byte, m: Byte, sum: Byte)
    requires sum == Plus(l, m)
    ensures AddUp(n * l, n * m, n * sum)
  {
    var q := (l + m) / 0x100;
    assert n * l + n * m == n * (q * 0x100 + sum) == (n * q) * 0x100 + n * sum;
    Multiple256(n * q);
  }

  lemma Multiple256(k: int)
    ensures (k * 0x100) % 0x100 == 0
  {
  }

  lemma SameSum(x: Byte, p: int, q: int)
    requires Plus(x, p) == Plus(x, q)
    ensures (p - q) % 0x100 == 0
  {
  }

  lemma SmallRemainder(k: int, h: int, c: int)
    requires k % 0x100 == 0 && h % 0x100 == 0 && (k + h + c) % 0x100 == 0 && -2 <= c <= 2
    ensures c == 0
  {
  }

  /** Equal bytes above the shared one mean equal carries. */
  lemma TopCarries(top: Byte, ka: int, kb: int, kc: int, x: Byte, y: Byte, w: Byte, a: Word, b: Word)
    requires AddUp(ka, kb, kc)
    requires Plus(Plus(Plus(Plus(top, ka), Above(x, a)), kb), Above(y, b)) == Plus(Plus(top, kc), Above(w, Add16(a, b)))
    ensures Carry(x, a) + Carry(y, b) == Carry(Low(a), b) + Carry(w, Add16(a, b))
  {
    var c := Add16(a, b);
    SumLow(a, b);
    assert Above(x, a) == High(a) + Carry(x, a) && Above(y, b) == High(b) + Carry(y, b);
    assert Above(w, c) == High(c) + Carry(w, c);
    hide Plus, Low, High, Add16, Above;
    PlusPlus(top, ka, Above(x, a));
    PlusPlus(top, ka + Above(x, a), kb);
    PlusPlus(top, ka + Above(x, a) + kb, Above(y, b));
    PlusPlus(top, kc, Above(w, c));
    SameSum(top, ka + Above(x, a) + kb + Above(y, b), kc + Above(w, c));
    SumRemainder(High(a) + High(b) + Carry(Low(a), b));
    SmallRemainder(ka + kb - kc, High(a) + High(b) + Carry(Low(a), b) - High(c),
                   Carry(x, a) + Carry(y, b) - Carry(Low(a), b) - Carry(w, c));
  }

  lemma SumRemainder(x: int)
    ensures (x - x % 0x100) % 0x100 == 0
  {
  }

  lemma PlusInjective(x: Byte, y: Byte, n: int)
    requires Plus(x, n) == Plus(y, n)
    ensures x == y
  {
  }

  lemma PlusSwap(x: Byte, m: int, n: int)
    ensures Plus(Plus(x, m), n) == Plus(Plus(x, n), m)
  {
    PlusPlus(x, m, n);
    PlusPlus(x, n, m);
    hide Plus;
    assert m + n == n + m;
  }

  /** The shared byte after both ways, lower site first. */
  lemma LowerShared(ya: Byte, yb: Byte, yc: Byte, u: int, a: Word, b: Word)
    requires yb == Plus(Plus(ya, Low(a)), u) && Plus(yb, Low(b)) == Plus(yc, Low(Add16(a, b)))
    ensures yb == Plus(yc, Low(a)) && yc == Plus(ya, u)
  {
    SumLow(a, b);
    LowerSharedBytes(ya, yb, yc, u, Low(a), Low(b));
    hide Low, Add16, Plus;
  }

  lemma LowerSharedBytes(ya: Byte, yb: Byte, yc: Byte, u: int, l: Byte, m: Byte)
    requires yb == Plus(Plus(ya, l), u) && Plus(yb, m) == Plus(yc, Plus(l, m))
    ensures yb == Plus(yc, l) && yc == Plus(ya, u)
  {
    assert Plus(yc, Plus(l, m)) == Plus(Plus(yc, l), m) by {
      PlusPlus(yc, l, m);
      ModAddByte(l + m, yc);
    }
    PlusSwap(ya, l, u);
    hide Plus;
    PlusInjective(yb, Plus(yc, l), m);
    PlusInjective(yc, Plus(ya, u), l);
  }

  /** If both ways agree, lower site first, the first pass carries alike from `ya` and from what the second makes of it. */
  lemma LowerAgrees(z: seq<Byte>, mid: seq<Byte>, r: seq<Byte>, s: nat, a: Word, b: Word, va: Byte, vb: Byte, vc: Byte,
                    ka: int, kb: int, kc: int)
    returns (ya: Byte)
    requires |z| == |mid| == |r| && s + 3 <= |z| && AddUp(ka, kb, kc)
    requires LowerPass(z, mid, s, a, va, ka) && LowerPass(mid, r, s, b, vb, kb)
    requires LowerPass(z, r, s, Add16(a, b), vc, kc)
    ensures LowerAlike(mid, s, ya, vb, a, b)
  {
    hide Plus, Low, Above, Carry, Add16, AddUp;
    ya := Plus(z[s + 1], Above(va, a));
    var yb := Plus(mid[s + 1], Above(vb, b));
    var yc := Plus(z[s + 1], Above(vc, Add16(a, b)));
    LowerShared(ya, yb, yc, Above(vb, b), a, b);
    TopCarries(z[s + 2], ka, kb, kc, ya, yb, yc, a, b);
    CarriesAssociate(yc, a, b);
  }

  /** If both ways agree, higher site first, the second pass carries alike before and after the lower site's first. */
  lemma HigherAgrees(z: seq<Byte>, x: seq<Byte>, mid: seq<Byte>, y: seq<Byte>, w: seq<Byte>, twice: seq<Byte>,
                     once: seq<Byte>, s: nat, a: Word, b: Word, ka: int, kb: int, kc: int)
    requires |z| == |x| == |mid| == |y| == |w| == |twice| == |once| && s + 3 <= |z| && AddUp(ka, kb, kc)
    requires twice[s + 2] == once[s + 2] && HigherPass(z, w, once, s, Add16(a, b), kc)
    requires HigherPass(z, x, mid, s, a, ka) && HigherPass(mid, y, twice, s, b, kb)
    ensures HigherAlike(x, s, a, b)
  {
    hide Plus, Low, Above, Carry, Add16, AddUp;
    TopCarries(z[s + 2], ka, kb, kc, z[s + 1], mid[s + 1], z[s + 1], a, b);
    CarriesAssociate(z[s + 1], a, b);
  }

  /** A low byte from which some site adds to its high byte. */
  lemma SomeAbove(b: Word) returns (v: Byte)
    requires b != 0
    ensures 0 < Above(v, b) < 0x100
  {
    v := if High(b) != 0 then 0 else 0xFF;
    assert b == Low(b) + 0x100 * High(b);
    hide Low, High;
  }

  /** Adding `u` first makes some byte carry differently. */
  lemma SomeCarry(p: Word, u: int) returns (y: Byte)
    requires Low(p) != 0 && 0 < u < 0x100
    ensures !CarriesAlike(y, u, p)
  {
    y := if u + Low(p) <= 0x100 then 0xFF else 0;
    hide Low;
  }

  /** Every image is the result of a relocation. */
  lemma Onto(image: seq<Byte>, sites: seq<nat>, base: Word) returns (z: seq<Byte>)
    requires InBounds(sites, |image|)
    ensures |z| == |image| && Relocate(z, sites, base) == image
  {
    InBoundsReversed(sites, |image|);
    z := Relocate(image, Reversed(sites), Negated(base));
    ReversedTwice(sites);
    NegatedTwice(base);
    hide Negated, Relocate, Reversed, InBounds;
    UndoInReverse(image, Reversed(sites), Negated(base));
  }

  lemma NegatedTwice(base: Word)
    ensures Negated(Negated(base)) == base
  {
  }

  /** Two passes over the table are one pass with the sum of the bases, for every image of `size` bytes. */
  ghost predicate Composes(sites: seq<nat>, size: nat, a: Word, b: Word)
    requires InBounds(sites, size)
  {
    forall image: seq<Byte> :: |image| == size ==>
      Relocate(Relocate(image, sites, a), sites, b) == Relocate(image, sites, Add16(a, b))
  }

  lemma ComposesAt(image: seq<Byte>, sites: seq<nat>, a: Word, b: Word)
    requires InBounds(sites, |image|) && Composes(sites, |image|, a, b)
    ensures Relocate(Relocate(image, sites, a), sites, b) == Relocate(image, sites, Add16(a, b))
  {
    hide Relocate, Add16;
  }

  function TwoBytes(size: nat, s: nat, v: Byte, w: Byte): (r: seq<Byte>)
    requires s + 2 <= size
    ensures |r| == size && r[s] == v && r[s + 1] == w
  {
    seq(size, i => if i == s then v else if i == s + 1 then w else 0)
  }

  ghost predicate CarriesAlike(y: Byte, u: int, p: Word) {
    Carry(y, p) == Carry(Plus(y, u), p)
  }

  /** Where both ways agree: the first pass meets `s + 1` with the shared byte `y`, the second meets `s` with byte `v`. */
  ghost predicate LowerAlike(mid: seq<Byte>, s: nat, y: Byte, v: Byte, a: Word, b: Word) {
    s + 2 <= |mid| && mid[s + 1] == Plus(y, Low(a)) && CarriesAlike(y, Above(v, b), a)
  }

  lemma LowerCompare(z: seq<Byte>, mid: seq<Byte>, r: seq<Byte>, before: seq<nat>, s: nat, between: seq<nat>,
                     after: seq<nat>,
                     a: Word, b: Word)
    returns (y: Byte)
    requires Around(before, s, between, s + 1, after, |z|) && |mid| == |r| == |z|
    requires InBounds(before, |z|) && InBounds(Table(before, s, between, s + 1, after), |z|) && s + 3 <= |z|
    requires mid == Relocate(z, Table(before, s, between, s + 1, after), a)
    requires r == Relocate(mid, Table(before, s, between, s + 1, after), b)
    requires r == Relocate(z, Table(before, s, between, s + 1, after), Add16(a, b))
    ensures LowerAlike(mid, s, y, Relocate(mid, before, b)[s], a, b)
  {
    hide *;
    var table := Table(before, s, between, s + 1, after);
    LowerFirst(z, before, s, between, after, a);
    LowerFirst(mid, before, s, between, after, b);
    LowerFirst(z, before, s, between, after, Add16(a, b));
    HitsAdd(table, s + 2, a, b);
    y := LowerAgrees(z, mid, r, s, a, b, Relocate(z, before, a)[s], Relocate(mid, before, b)[s],
                     Relocate(z, before, Add16(a, b))[s],
                     LowHits(table, s + 2, a), LowHits(table, s + 2, b), LowHits(table, s + 2, Add16(a, b)));
  }

  lemma LowerFirstFails(before: seq<nat>, s: nat, between: seq<nat>, after: seq<nat>, size: nat, a: Word, b: Word)
    requires Around(before, s, between, s + 1, after, size) && Low(a) != 0 && b != 0
    ensures InBounds(Table(before, s, between, s + 1, after), size)
    ensures !Composes(Table(before, s, between, s + 1, after), size, a, b)
  {
    TableInBounds(before, s, between, s + 1, after, size);
    AroundApiece(before, s, between, s + 1, after, s, size);
    assert InBounds(before, size) && s + 3 <= size;
    var v := SomeAbove(b);
    var y := SomeCarry(a, Above(v, b));
    LowerMeets(before, s, between, after, size, a, b, v, y);
    hide *;
  }

  /** An image on which the second pass meets `v`, and the first pass `y`. */
  lemma LowerMeets(before: seq<nat>, s: nat, between: seq<nat>, after: seq<nat>, size: nat, a: Word, b: Word, v: Byte,
                   y: Byte)
    requires Around(before, s, between, s + 1, after, size) && Apiece(before, s, size)
    requires InBounds(before, size) && s + 3 <= size && InBounds(Table(before, s, between, s + 1, after), size)
    ensures Composes(Table(before, s, between, s + 1, after), size, a, b) ==> CarriesAlike(y, Above(v, b), a)
  {
    var table := Table(before, s, between, s + 1, after);
    hide *;
    var met := TwoBytes(size, s, v, Plus(y, Low(a)));
    var mid := Onto(met, before, b);
    var z := Onto(mid, table, a);
    AsideBoth(mid, before, b, s);
    if Composes(table, size, a, b) {
      ComposesAt(z, table, a, b);
      var x := LowerCompare(z, mid, Relocate(mid, table, b), before, s, between, after, a, b);
      PlusInjective(x, y, Low(a));
    }
  }

  /** Where both ways agree: `x` is the state in which the first pass meets `s`. */
  ghost predicate HigherAlike(x: seq<Byte>, s: nat, a: Word, b: Word) {
    s + 2 <= |x| && CarriesAlike(x[s + 1], Above(x[s], a), b)
  }

  lemma HigherCompare(z: seq<Byte>, before: seq<nat>, s: nat, between: seq<nat>, after: seq<nat>, a: Word, b: Word)
    requires Around(before, s + 1, between, s, after, |z|) && s + 3 <= |z|
    requires InBounds(Front(before, s, between), |z|) && InBounds(Table(before, s + 1, between, s, after), |z|)
    requires Relocate(Relocate(z, Table(before, s + 1, between, s, after), a), Table(before, s + 1, between, s, after), b) ==
             Relocate(z, Table(before, s + 1, between, s, after), Add16(a, b))
    ensures HigherAlike(Relocate(z, Front(before, s, between), a), s, a, b)
  {
    hide *;
    var front, table := Front(before, s, between), Table(before, s + 1, between, s, after);
    SameLength(z, table, a);
    var mid := Relocate(z, table, a);
    SameLength(z, front, a);
    SameLength(mid, front, b);
    SameLength(z, front, Add16(a, b));
    SameLength(mid, table, b);
    SameLength(z, table, Add16(a, b));
    HigherFirst(z, before, s, between, after, a);
    HigherFirst(mid, before, s, between, after, b);
    HigherFirst(z, before, s, between, after, Add16(a, b));
    HitsAdd(table, s + 2, a, b);
    HigherAgrees(z, Relocate(z, front, a), mid, Relocate(mid, front, b), Relocate(z, front, Add16(a, b)),
                 Relocate(mid, table, b), Relocate(z, table, Add16(a, b)), s, a, b,
                 LowHits(table, s + 2, a), LowHits(table, s + 2, b), LowHits(table, s + 2, Add16(a, b)));
  }

  lemma SameLength(image: seq<Byte>, sites: seq<nat>, base: Word)
    requires InBounds(sites, |image|)
    ensures |Relocate(image, sites, base)| == |image|
  {
  }

  lemma HigherFirstFails(before: seq<nat>, s: nat, between: seq<nat>, after: seq<nat>, size: nat, a: Word, b: Word)
    requires Around(before, s + 1, between, s, after, size) && a != 0 && Low(b) != 0
    ensures InBounds(Table(before, s + 1, between, s, after), size)
    ensures !Composes(Table(before, s + 1, between, s, after), size, a, b)
  {
    TableInBounds(before, s + 1, between, s, after, size);
    assert s + 3 <= size && Front(before, s, between) == before + [s + 1] + between;
    var v := SomeAbove(a);
    var y := SomeCarry(b, Above(v, a));
    HigherMeets(before, s, between, after, size, a, b, v, y);
    hide *;
  }

  lemma HigherMeets(before: seq<nat>, s: nat, between: seq<nat>, after: seq<nat>, size: nat, a: Word, b: Word,
                    v: Byte, y: Byte)
    requires Around(before, s + 1, between, s, after, size) && s + 3 <= size
    requires InBounds(Front(before, s, between), size) && InBounds(Table(before, s + 1, between, s, after), size)
    ensures Composes(Table(before, s + 1, between, s, after), size, a, b) ==> CarriesAlike(y, Above(v, a), b)
  {
    hide *;
    var table, front := Table(before, s + 1, between, s, after), Front(before, s, between);
    var met := TwoBytes(size, s, v, y);
    var z := Onto(met, front, a);
    if Composes(table, size, a, b) {
      ComposesAt(z, table, a, b);
      HigherCompare(z, before, s, between, after, a, b);
      HigherAlikeAt(met, s, a, b, v, y);
    }
  }

  lemma HigherAlikeAt(x: seq<Byte>, s: nat, a: Word, b: Word, v: Byte, y: Byte)
    requires HigherAlike(x, s, a, b) && s + 2 <= |x| && x[s] == v && x[s + 1] == y
    ensures CarriesAlike(y, Above(v, a), b)
  {
    hide Above, CarriesAlike;
  }

  /** No site that overlaps another one by one byte is listed twice. */
  ghost predicate OverlapsListedOnce(sites: seq<nat>) {
    forall i, j :: 0 <= i < |sites| && 0 <= j < |sites| && !Apart(sites[i], sites[j]) ==> multiset(sites)[sites[i]] == 1
  }

  lemma CountedOnce(sites: seq<nat>, i: nat)
    requires i < |sites| && multiset(sites)[sites[i]] == 1
    ensures forall k :: 0 <= k < |sites| && k != i ==> sites[k] != sites[i]
  {
    WithoutCounts(sites, i);
    assert sites[i] !in multiset(Without(sites, i));
    forall k | 0 <= k < |sites| && k != i ensures sites[k] != sites[i] {
      assert Without(sites, i)[if k < i then k else k - 1] == sites[k];
    }
  }

  lemma SplitAround(sites: seq<nat>, i: nat, j: nat, size: nat)
    returns (before: seq<nat>, between: seq<nat>, after: seq<nat>)
    requires i < j < |sites| && InBounds(sites, size)
    requires multiset(sites)[sites[i]] == 1 && multiset(sites)[sites[j]] == 1
    ensures sites == Table(before, sites[i], between, sites[j], after)
    ensures Around(before, sites[i], between, sites[j], after, size)
  {
    CountedOnce(sites, i);
    CountedOnce(sites, j);
    before, between, after := sites[..i], sites[i + 1..j], sites[j + 1..];
  }

  lemma ClashFails(sites: seq<nat>, i: nat, j: nat, size: nat, a: Word, b: Word)
    requires i < j < |sites| && InBounds(sites, size) && OverlapsListedOnce(sites)
    requires !Commutes(sites[i], sites[j], a, b)
    ensures !Composes(sites, size, a, b)
  {
    assert !Apart(sites[i], sites[j]) && !Apart(sites[j], sites[i]);
    var before, between, after := SplitAround(sites, i, j, size);
    hide OverlapsListedOnce, InBounds, Around, Table, Composes, Low;
    if sites[i] < sites[j] {
      LowerFirstFails(before, sites[i], between, after, size, a, b);
    } else {
      HigherFirstFails(before, sites[j], between, after, size, a, b);
    }
  }

  /**
   Two passes are one pass with the sum exactly when, of any two sites that overlap by one byte, the
   higher one cannot carry when it is met: in the first pass if it is listed after the lower one, in the
   second pass if before it.
   */
  lemma ComposeExactly(sites: seq<nat>, size: nat, a: Word, b: Word)
    requires InBounds(sites, size) && OverlapsListedOnce(sites)
    ensures Composes(sites, size, a, b) <==> Composable(sites, a, b)
  {
    hide Relocate, Commutes, Add16, OverlapsListedOnce, InBounds;
    if Composable(sites, a, b) {
      forall image: seq<Byte> | |image| == size
        ensures Relocate(Relocate(image, sites, a), sites, b) == Relocate(image, sites, Add16(a, b))
      {
        Compose(image, sites, a, b);
      }
    } else {
      var i, j :| 0 <= i < j < |sites| && !Commutes(sites[i], sites[j], a, b);
      ClashFails(sites, i, j, size, a, b);
    }
  }

  /** A pass over site 1 and then twice over site 0. */
  lemma RepeatedPass(image: seq<Byte>, base: Word)
    requires |image| >= 3
    ensures InBounds([1, 0, 0], |image|)
    ensures Relocate(image, [1, 0, 0], base) == RelocateOne(RelocateOne(image, 1, base), 0, Add16(base, base))
  {
    hide RelocateOne, Relocate, Add16;
    TwoSites(image, 1, 0, base);
    RelocateSnoc(image, [1, 0], 0, base);
    assert [1, 0] + [0] == [1, 0, 0];
    AddTwice(RelocateOne(image, 1, base), 0, base, base);
  }

  /** A site listed twice can cancel its own carries: then passes compose although a pair of entries does not commute. */
  lemma RepeatedSiteComposes(size: nat)
    requires size >= 3
    ensures InBounds([1, 0, 0], size)
    ensures Composes([1, 0, 0], size, 0x8000, 1) && !Composable([1, 0, 0], 0x8000, 1)
  {
    assert !Commutes([1, 0, 0][0], [1, 0, 0][1], 0x8000, 1);
    forall image: seq<Byte> | |image| == size
      ensures Relocate(Relocate(image, [1, 0, 0], 0x8000), [1, 0, 0], 1) == Relocate(image, [1, 0, 0], Add16(0x8000, 1))
    {
      RepeatedImage(image);
    }
    hide Relocate, Composable;
  }

  lemma RepeatedImage(image: seq<Byte>)
    requires |image| >= 3 && InBounds([1, 0, 0], |image|)
    ensures Relocate(Relocate(image, [1, 0, 0], 0x8000), [1, 0, 0], 1) == Relocate(image, [1, 0, 0], Add16(0x8000, 1))
  {
    AddValue(0x8000, 0x8000, 0x1_0000);
    AddValue(0x8001, 0x8001, 0x1_0002);
    AddValue(1, 1, 2);
    AddValue(0x8000, 1, 0x8001);
    var x := RelocateOne(image, 1, 0x8000);
    assert |x| == |image|;
    hide *;
    RepeatedPass(image, 0x8000);
    ZeroOne(x, 0);
    assert Relocate(image, [1, 0, 0], 0x8000) == x;
    RepeatedPass(x, 1);
    AddTwice(image, 1, 0x8000, 1);
    RepeatedPass(image, 0x8001);
  }

  lemma AddValue(a: Word, b: Word, sum: nat)
    requires a + b == sum
    ensures Add16(a, b) == if sum < 0x1_0000 then sum else sum - 0x1_0000
  {
  }

  lemma ComplementComposable(sites: seq<nat>, base: Word)
    ensures Composable(sites, base, Negated(base)) <==> Compatible(sites) || Low(base) == 0
  {
    ComplementLow(base);
    hide Negated, Low;
    if Composable(sites, base, Negated(base)) && Low(base) != 0 {
      forall i, j | 0 <= i < |sites| && 0 <= j < |sites| ensures Apart(sites[i], sites[j]) {
        assert i < j ==> Commutes(sites[i], sites[j], base, Negated(base));
        assert j < i ==> Commutes(sites[j], sites[i], base, Negated(base));
      }
    }
  }

  lemma ComplementLow(base: Word)
    ensures Low(Negated(base)) == 0 <==> Low(base) == 0
    ensures Negated(base) == 0 <==> base == 0
    ensures base == 0 ==> Low(base) == 0
    ensures Add16(base, Negated(base)) == 0
  {
  }

  /**
   Relocating back in the same table order restores every image exactly when no two sites overlap by
   one byte or the base is a multiple of 256.
   */
  lemma UndoInOrderExactly(sites: seq<nat>, size: nat, base: Word)
    requires InBounds(sites, size) && OverlapsListedOnce(sites)
    ensures RestoresInOrder(sites, size, base) <==> Compatible(sites) || Low(base) == 0
  {
    ComposeExactly(sites, size, base, Negated(base));
    ComplementComposable(sites, base);
    RestoresIsComposes(sites, size, base);
    hide *;
  }

  lemma RestoresIsComposes(sites: seq<nat>, size: nat, base: Word)
    requires InBounds(sites, size)
    ensures RestoresInOrder(sites, size, base) <==> Composes(sites, size, base, Negated(base))
  {
    ComplementLow(base);
    hide Relocate, Negated, Low, Add16, InBounds;
    forall image: seq<Byte> | |image| == size ensures Relocate(image, sites, Add16(base, Negated(base))) == image {
      ZeroBase(image, sites);
    }
  }
}
