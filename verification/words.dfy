/** Bytes, 16-bit words and 32-bit double words, and little-endian words inside byte sequences. */
module Words {
  const TWO16: int := 0x1_0000
  const TWO32: int := 0x1_0000_0000

  type Byte = b: int | 0 <= b < 0x100
  type Word = w: int | 0 <= w < 0x1_0000
  type Dword = d: int | 0 <= d < 0x1_0000_0000
  type Qword = q: int | 0 <= q < 0x1_0000_0000_0000_0000

  function Low(w: Word): Byte {
    w % 0x100
  }

  function High(w: Word): Byte {
    w / 0x100
  }

  /** The little-endian word stored at index `a`. */
  function WordAt(m: seq<Byte>, a: nat): Word
    requires a + 2 <= |m|
  {
    m[a] as int + 0x100 * m[a + 1] as int
  }

  /** `m` with the word at index `a` overwritten. */
  function WithWord(m: seq<Byte>, a: nat, w: Word): (r: seq<Byte>)
    requires a + 2 <= |m|
    ensures |r| == |m|
    ensures WordAt(r, a) == w
    ensures forall i :: 0 <= i < |m| && i != a && i != a + 1 ==> r[i] == m[i]
  {
    m[a := Low(w)][a + 1 := High(w)]
  }

  method StoreWord(mem: array<Byte>, a: nat, w: Word)
    requires a + 2 <= mem.Length
    modifies mem
    ensures mem[..] == WithWord(old(mem[..]), a, w)
  {
    mem[a], mem[a + 1] := Low(w), High(w);
  }

  /** `m` with `data` stored from index `a` on. */
  function Stored(m: seq<Byte>, a: nat, data: seq<Byte>): (r: seq<Byte>)
    requires a + |data| <= |m|
    ensures |r| == |m|
  {
    m[..a] + data + m[a + |data|..]
  }

  /** `w + b` in 16-bit arithmetic. */
  function Add16(w: Word, b: Word): Word {
    (w + b) % 0x1_0000
  }

  /** Two words with the same bytes are the same word. */
  lemma SameBytes(m: seq<Byte>, n: seq<Byte>, a: nat)
    requires a + 2 <= |m| && a + 2 <= |n|
    requires WordAt(m, a) == WordAt(n, a)
    ensures m[a] == n[a] && m[a + 1] == n[a + 1]
  {
  }

  /** A word is its low byte and 256 times its high byte. */
  lemma BytesOfWord(low: Byte, high: Byte)
    ensures Low(low + 0x100 * high) == low
    ensures High(low + 0x100 * high) == high
  {
  }

  function Min(a: int, b: int): int {
    if a <= b then a else b
  }

  // ---- Bitwise operators on non-negative numbers, bit by bit ----

  function And(a: nat, b: nat): nat {
    if a == 0 || b == 0 then 0 else (if a % 2 == 1 && b % 2 == 1 then 1 else 0) + 2 * And(a / 2, b / 2)
  }

  function Xor(a: nat, b: nat): nat
    decreases a + b
  {
    if a == 0 && b == 0 then 0 else (if a % 2 == b % 2 then 0 else 1) + 2 * Xor(a / 2, b / 2)
  }

  lemma {:induction false} AndSelf(a: nat)
    ensures And(a, a) == a
  {
    if a != 0 {
      AndSelf(a / 2);
    }
  }

  lemma {:induction false} AndBounded(a: nat, b: nat)
    ensures And(a, b) <= a
  {
    if a != 0 && b != 0 {
      AndBounded(a / 2, b / 2);
    }
  }

  function And16(a: Word, b: Word): Word {
    AndBounded(a, b);
    And(a, b)
  }

  /** An exclusive or is zero exactly when its operands are equal, and no wider than they are. */
  lemma {:induction false} XorZero(a: nat, b: nat, bits: nat)
    requires a < Power2(bits) && b < Power2(bits)
    ensures Xor(a, b) == 0 <==> a == b
    ensures Xor(a, b) < Power2(bits)
  {
    if bits != 0 && (a != 0 || b != 0) {
      XorZero(a / 2, b / 2, bits - 1);
    }
  }

  function Power2(bits: nat): nat {
    if bits == 0 then 1 else 2 * Power2(bits - 1)
  }

  lemma Power2Of16()
    ensures Power2(16) == 0x1_0000
  {
    assert Power2(4) == 16 && Power2(8) == 0x100;
    assert Power2(12) == 0x1000;
  }

  function Xor16(a: Word, b: Word): (r: Word)
    ensures r == 0 <==> a == b
  {
    Power2Of16();
    XorZero(a, b, 16);
    Xor(a, b)
  }

  /** An exclusive or with anything but zero changes a number. */
  lemma {:induction false} XorChanges(a: nat, b: nat)
    requires b != 0
    ensures Xor(a, b) != a
    decreases a + b
  {
    if b > 1 {
      XorChanges(a / 2, b / 2);
    }
  }

  lemma Xor16Changes(a: Word, b: Word)
    requires b != 0
    ensures Xor16(a, b) != a
  {
    XorChanges(a, b);
  }
}
