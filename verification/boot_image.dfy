/**
 The boot-image builder: it relocates an MZ program in place, stores the program's stack and entry
 pointers in the boot stub, and joins the two into an image that is loaded at 0000:7C00.
 */
module BootImage {
  import opened Words
  import opened RealMode
  import opened Relocation

  const LOAD_ADDRESS: nat := 0x7C00
  const HEADER_BYTES: nat := 30

  // ---- The MZ header ----

  function HeaderSize(file: seq<Byte>): nat
    requires |file| > HEADER_BYTES
  {
    WordAt(file, 8) * 16
  }

  function RelocationCount(file: seq<Byte>): nat
    requires |file| > HEADER_BYTES
  {
    WordAt(file, 6)
  }

  function RelocationOffset(file: seq<Byte>): nat
    requires |file| > HEADER_BYTES
  {
    WordAt(file, 24)
  }

  function InitialStack(file: seq<Byte>): Address
    requires |file| > HEADER_BYTES
  {
    Address(WordAt(file, 16), WordAt(file, 14))
  }

  function InitialEntry(file: seq<Byte>): Address
    requires |file| > HEADER_BYTES
  {
    Address(WordAt(file, 20), WordAt(file, 22))
  }

  /** The header as the program declares it, field by field in declaration order. */
  datatype HeaderMZ = HeaderMZ(
    magicWord: Word, programSizeMod512: Word, programSizeDiv512: Word, numberOfRelocs: Word, headerSizeDiv16: Word,
    minimumHeapDiv16: Word, maximumHeapDiv16: Word, initialSs: Word, initialSp: Word, checksumWord: Word,
    initialIp: Word, initialCs: Word, relocationOffset: Word, overlayInfo0: Word, overlayInfo1: Word)

  /** The words of the header: field `k` lies at byte `2 * k`. */
  function HeaderWords(file: seq<Byte>): (r: seq<Word>)
    requires |file| >= HEADER_BYTES
    ensures |r| == 15
  {
    seq(15, k requires 0 <= k < 15 => WordAt(file, 2 * k))
  }

  function HeaderOf(ws: seq<Word>): HeaderMZ
    requires |ws| == 15
  {
    HeaderMZ(ws[0], ws[1], ws[2], ws[3], ws[4], ws[5], ws[6], ws[7], ws[8], ws[9], ws[10], ws[11], ws[12], ws[13], ws[14])
  }

  function HeaderAt(file: seq<Byte>): HeaderMZ
    requires |file| >= HEADER_BYTES
  {
    HeaderOf(HeaderWords(file))
  }

  function Shifted(p: Address, base: Word): Address {
    Address(p.off, Add16(p.seg, base))
  }

  /** Entry `k` of the relocation table. */
  function TableEntry(file: seq<Byte>, k: nat): Address
    requires |file| > HEADER_BYTES && RelocationOffset(file) + 4 * k + 4 <= |file|
  {
    AddressAt(file, RelocationOffset(file) + 4 * k)
  }

  /** An MZ file whose fixed header and relocation table lie in its declared header. */
  predicate TableInHeader(file: seq<Byte>) {
    && |file| > HEADER_BYTES
    && WordAt(file, 0) == 0x5A4D
    && HEADER_BYTES <= HeaderSize(file) <= |file|
    && RelocationOffset(file) + 4 * RelocationCount(file) <= HeaderSize(file)
    && RelocationOffset(file) < HeaderSize(file)
  }

  /** The offsets in the program image that the relocation table names. */
  function Sites(file: seq<Byte>): (r: seq<nat>)
    requires TableInHeader(file)
    ensures |r| == RelocationCount(file)
  {
    seq(RelocationCount(file), k requires 0 <= k < RelocationCount(file) =>
      Linear(TableEntry(file, k).seg, TableEntry(file, k).off))
  }

  function Header(file: seq<Byte>): seq<Byte>
    requires TableInHeader(file)
  {
    file[..HeaderSize(file)]
  }

  function Image(file: seq<Byte>): seq<Byte>
    requires TableInHeader(file)
  {
    file[HeaderSize(file)..]
  }

  /** ... and whose sites lie in the program image. */
  ghost predicate WellFormed(file: seq<Byte>) {
    TableInHeader(file) && InBounds(Sites(file), |Image(file)|)
  }

  // ---- What the relocation loop does to the file buffer ----

  /** The file buffer after some table entries, or the fact that an access left the buffer. */
  datatype Progress = OutOfBuffer | Patched(file: seq<Byte>)

  /** Entry `k` is read from the buffer as it is now, and its site's word is relocated. */
  function ProcessEntry(f: seq<Byte>, header: nat, table: nat, k: nat, base: Word): (r: Progress)
    ensures r.Patched? ==> |r.file| == |f|
  {
    var at := table + 4 * k;
    if at + 4 > |f| then OutOfBuffer
    else
      var p := AddressAt(f, at);
      var site := header + Linear(p.seg, p.off);
      if site + 2 > |f| then OutOfBuffer else Patched(RelocateOne(f, site, base))
  }

  function ProcessTable(f: seq<Byte>, header: nat, table: nat, n: nat, base: Word): (r: Progress)
    ensures r.Patched? ==> |r.file| == |f|
  {
    if n == 0 then Patched(f)
    else
      match ProcessTable(f, header, table, n - 1, base)
      case OutOfBuffer => OutOfBuffer
      case Patched(g) => ProcessEntry(g, header, table, n - 1, base)
  }

  /**
   The result of preparing a program: one of the two exceptions, an access outside the file buffer
   (undefined behaviour, which no check in the program prevents), or the relocated file.
   */
  datatype Exec = BadSize | BadFormat | Undefined | Prepared(file: seq<Byte>, start: nat, stack: Address, entry: Address)

  function PreparedExec(file: seq<Byte>, base: Word): Exec {
    if |file| <= HEADER_BYTES then BadSize
    else if WordAt(file, 0) != 0x5A4D then BadFormat
    else
      var header, table, n := HeaderSize(file), RelocationOffset(file), RelocationCount(file);
      if table + n >= header || table + n >= |file| then BadFormat
      else if header > |file| then Undefined
      else
        match ProcessTable(file, header, table, n, base)
        case OutOfBuffer => Undefined
        case Patched(f) => Prepared(f, header, Shifted(InitialStack(f), base), Shifted(InitialEntry(f), base))
  }

  /** The little-endian word in the buffer at `i`. */
  function ReadWord(a: array<Byte>, i: nat): (w: Word)
    requires i + 2 <= a.Length
    reads a
    ensures w == WordAt(a[..], i)
  {
    a[i] as int + 0x100 * a[i + 1] as int
  }

  lemma ProcessNext(before: seq<Byte>, f: seq<Byte>, header: nat, table: nat, k: nat, base: Word)
    requires ProcessTable(before, header, table, k, base) == Patched(f)
    ensures ProcessTable(before, header, table, k + 1, base) == ProcessEntry(f, header, table, k, base)
  {
    hide ProcessEntry;
  }

  lemma ProcessEntryOut(f: seq<Byte>, header: nat, table: nat, k: nat, base: Word)
    requires table + 4 * k + 4 > |f|
    ensures ProcessEntry(f, header, table, k, base) == OutOfBuffer
  {
  }

  /** The site that entry `k` names. */
  function SiteAt(file: seq<Byte>, header: nat, table: nat, k: int): nat
    requires 0 <= k && table + 4 * k + 4 <= |file|
  {
    var p := AddressAt(file, table + 4 * k);
    header + Linear(p.seg, p.off)
  }

  lemma ProcessEntryAt(f: seq<Byte>, header: nat, table: nat, k: nat, base: Word, site: nat)
    requires table + 4 * k + 4 <= |f| && SiteAt(f, header, table, k) == site
    ensures ProcessEntry(f, header, table, k, base) ==
            if site + 2 > |f| then OutOfBuffer else Patched(RelocateOne(f, site, base))
  {
  }

  /** The loop over the relocation table; `complete` is false if an access left the buffer. */
  method RelocateInPlace(file: array<Byte>, header: nat, table: nat, count: nat, base: Word) returns (complete: bool)
    modifies file
    ensures ProcessTable(old(file[..]), header, table, count, base) ==
            if complete then Patched(file[..]) else OutOfBuffer
  {
    hide Add16, Linear, WithWord, WordAt, ProcessEntry, ProcessTable;
    ghost var before := file[..];
    var k := 0;
    NoEntries(before, header, table, base);
    while k < count
      invariant 0 <= k <= count
      invariant ProcessTable(before, header, table, k, base) == Patched(file[..])
    {
      var at := table + 4 * k;
      ghost var f := file[..];
      ProcessNext(before, f, header, table, k, base);
      if at + 4 > file.Length {
        ProcessEntryOut(f, header, table, k, base);
        TableBreaks(before, header, table, k + 1, count, base);
        return false;
      }
      var address := Address(ReadWord(file, at), ReadWord(file, at + 2));
      var site := header + Linear(address.seg, address.off);
      ProcessEntryAt(f, header, table, k, base, site);
      if site + 2 > file.Length {
        TableBreaks(before, header, table, k + 1, count, base);
        return false;
      }
      StoreWord(file, site, Add16(ReadWord(file, site), base));
      k := k + 1;
    }
    return true;
  }

  lemma NoEntries(f: seq<Byte>, header: nat, table: nat, base: Word)
    ensures ProcessTable(f, header, table, 0, base) == Patched(f)
  {
  }

  /** The fields that preparing a program fills in: the image is `binary` from `start` on. */
  class ProgramData {
    var binary: array<Byte>
    var start: nat
    var stack: Address
    var entry: Address

    constructor (bits: array<Byte>)
      ensures binary == bits && start == 0
      ensures stack == Address(0, 0) && entry == Address(0, 0)
    {
      binary, start := bits, 0;
      stack, entry := Address(0, 0), Address(0, 0);
    }

    /** Checks the header, relocates the image inside `file`, and shifts the stack and entry pointers. */
    method PrepareExec(file: array<Byte>, base: Word) returns (outcome: Exec)
      modifies this, file
      ensures outcome == PreparedExec(old(file[..]), base)
      ensures outcome.BadSize? || outcome.BadFormat? ==> file[..] == old(file[..])
      ensures outcome.Prepared? ==>
                && file[..] == outcome.file && binary == file && start == outcome.start
                && stack == outcome.stack && entry == outcome.entry
    {
      hide Add16, WordAt, ProcessTable;
      if file.Length <= HEADER_BYTES {
        return BadSize;
      }
      if ReadWord(file, 0) != 0x5A4D {
        return BadFormat;
      }
      var header := ReadWord(file, 8) * 16;
      var table := ReadWord(file, 24);
      var count := ReadWord(file, 6);
      if table + count >= header || table + count >= file.Length {
        return BadFormat;
      }
      if header > file.Length {
        return Undefined;
      }
      binary, start := file, header;
      var complete := RelocateInPlace(file, header, table, count, base);
      if !complete {
        return Undefined;
      }
      stack := Address(ReadWord(file, 16), Add16(ReadWord(file, 14), base));
      entry := Address(ReadWord(file, 20), Add16(ReadWord(file, 22), base));
      outcome := Prepared(file[..], header, stack, entry);
    }
  }

  /** Once an access leaves the buffer, no later entry repairs it. */
  lemma {:induction false} TableBreaks(f: seq<Byte>, header: nat, table: nat, k: nat, n: nat, base: Word)
    requires k <= n && ProcessTable(f, header, table, k, base) == OutOfBuffer
    ensures ProcessTable(f, header, table, n, base) == OutOfBuffer
    decreases n - k
  {
    if k < n {
      TableBreaks(f, header, table, k + 1, n, base);
    }
  }

  // ---- Placing an image inside a larger buffer ----

  function MovedBy(sites: seq<nat>, a: nat): (r: seq<nat>)
    ensures |r| == |sites|
  {
    seq(|sites|, k requires 0 <= k < |sites| => a + sites[k])
  }

  /** Relocating a placed image is placing the relocated image. */
  lemma {:induction false} RelocatePlaced(mem: seq<Byte>, a: nat, image: seq<Byte>, sites: seq<nat>, base: Word)
    requires a + |image| <= |mem| && InBounds(sites, |image|)
    ensures InBounds(MovedBy(sites, a), |mem|)
    ensures Relocate(Stored(mem, a, image), MovedBy(sites, a), base) == Stored(mem, a, Relocate(image, sites, base))
  {
    hide RelocateOne;
    if sites != [] {
      var n := |sites| - 1;
      RelocatePlaced(mem, a, image, sites[..n], base);
      assert MovedBy(sites, a)[..n] == MovedBy(sites[..n], a);
      RelocateOnePlaced(mem, a, Relocate(image, sites[..n], base), sites[n], base);
    }
  }

  lemma RelocateOnePlaced(mem: seq<Byte>, a: nat, image: seq<Byte>, site: nat, base: Word)
    requires a + |image| <= |mem| && site + 2 <= |image|
    ensures RelocateOne(Stored(mem, a, image), a + site, base) == Stored(mem, a, RelocateOne(image, site, base))
  {
    hide Add16, Low, High;
    assert WordAt(Stored(mem, a, image), a + site) == WordAt(image, site);
  }

  // ---- What preparing a file comes to ----

  /** The file has room for its whole relocation table. */
  predicate TableInFile(file: seq<Byte>) {
    |file| > HEADER_BYTES && RelocationOffset(file) + 4 * RelocationCount(file) <= |file|
  }

  /** The offsets in the file that the relocation table names. */
  function FileSites(file: seq<Byte>): (r: seq<nat>)
    requires TableInFile(file)
    ensures |r| == RelocationCount(file)
  {
    seq(RelocationCount(file), k requires 0 <= k < RelocationCount(file) =>
      SiteAt(file, HeaderSize(file), RelocationOffset(file), k))
  }

  /** Where entry `k` of a table lies. */
  function EntryOffset(table: nat, k: int): int {
    table + 4 * k
  }

  predicate Misses(site: nat, entry: int) {
    site + 2 <= entry || entry + 4 <= site
  }

  /** No site overlaps a later entry, so every entry is still the original one when it is read. */
  ghost predicate Undisturbed(file: seq<Byte>)
    requires TableInFile(file)
  {
    forall k, j :: 0 <= k < j < RelocationCount(file) ==> Misses(FileSites(file)[k], EntryOffset(RelocationOffset(file), j))
  }

  lemma FileNames(file: seq<Byte>)
    requires TableInFile(file) && Undisturbed(file)
    ensures Names(file, HeaderSize(file), RelocationOffset(file), FileSites(file))
  {
    hide AddressAt, WordAt, Linear, Misses;
  }

  lemma InBoundsSnoc(sites: seq<nat>, site: nat, size: nat)
    ensures InBounds(sites + [site], size) <==> InBounds(sites, size) && site + 2 <= size
  {
    if InBounds(sites + [site], size) {
      assert (sites + [site])[|sites|] == site;
      forall k | 0 <= k < |sites| ensures sites[k] + 2 <= size {
        assert (sites + [site])[k] == sites[k];
      }
    }
  }

  /** An entry that no earlier site overlaps is read as it was. */
  lemma EntryKept(file: seq<Byte>, front: seq<nat>, header: nat, table: nat, k: nat, base: Word)
    requires InBounds(front, |file|) && table + 4 * k + 4 <= |file|
    requires forall i :: 0 <= i < |front| ==> Misses(front[i], table + 4 * k)
    ensures |Relocate(file, front, base)| == |file|
    ensures SiteAt(Relocate(file, front, base), header, table, k) == SiteAt(file, header, table, k)
  {
    var at := table + 4 * k;
    hide Relocate, Linear;
    forall i | at <= i < at + 4 ensures Relocate(file, front, base)[i] == file[i] {
      UntouchedByte(file, front, base, i);
    }
  }

  /** One entry, after the sites `front` of the entries before it. */
  lemma EntryOverFile(file: seq<Byte>, front: seq<nat>, header: nat, table: nat, k: nat, base: Word, site: nat)
    requires InBounds(front, |file|) && table + 4 * k + 4 <= |file| && site == SiteAt(file, header, table, k)
    requires forall i :: 0 <= i < |front| ==> Misses(front[i], table + 4 * k)
    ensures site + 2 <= |file| ==> InBounds(front + [site], |file|)
    ensures ProcessEntry(Relocate(file, front, base), header, table, k, base) ==
            if site + 2 <= |file| then Patched(Relocate(file, front + [site], base)) else OutOfBuffer
  {
    hide *;
    EntryKept(file, front, header, table, k, base);
    ProcessEntryAt(Relocate(file, front, base), header, table, k, base, site);
    if site + 2 <= |file| {
      RelocateSnoc(file, front, site, base);
    }
  }

  /** The table at `table` names `sites`, none of which overlaps a later entry. */
  ghost predicate Names(file: seq<Byte>, header: nat, table: nat, sites: seq<nat>) {
    && table + 4 * |sites| <= |file|
    && (forall k :: 0 <= k < |sites| ==> sites[k] == SiteAt(file, header, table, k))
    && forall k, j :: 0 <= k < j < |sites| ==> Misses(sites[k], EntryOffset(table, j))
  }

  /**
   Unless a site overlaps a later entry, the loop is the relocation of the file by its original table, up
   to the first site that leaves the file.
   */
  lemma {:induction false} TableOverFile(file: seq<Byte>, header: nat, table: nat, sites: seq<nat>, base: Word)
    requires Names(file, header, table, sites)
    ensures ProcessTable(file, header, table, |sites|, base) ==
            if InBounds(sites, |file|) then Patched(Relocate(file, sites, base)) else OutOfBuffer
    decreases |sites|
  {
    hide ProcessEntry, InBounds, AddressAt, Linear, Misses, SiteAt;
    if sites == [] {
      NoSites(|file|);
    } else {
      var n := |sites| - 1;
      var front := sites[..n];
      TableOverFile(file, header, table, front, base);
      assert sites == front + [sites[n]];
      InBoundsSnoc(front, sites[n], |file|);
      if InBounds(front, |file|) {
        assert EntryOffset(table, n) == table + 4 * n;
        EntryOverFile(file, front, header, table, n, base, sites[n]);
      }
    }
  }

  lemma NoSites(size: nat)
    ensures InBounds([], size)
  {
  }

  /** The checks before the table is read pass. */
  predicate Accepted(file: seq<Byte>) {
    && |file| > HEADER_BYTES && WordAt(file, 0) == 0x5A4D
    && RelocationOffset(file) + RelocationCount(file) < HeaderSize(file)
    && RelocationOffset(file) + RelocationCount(file) < |file|
  }

  /**
   An accepted file whose table fits the file and whose sites disturb no later entry is prepared exactly
   when every site lies in the file: then all of it is relocated by its original table, and the pointers
   are those of the relocated header. Otherwise memory outside the file is touched; no site is rejected.
   */
  lemma PreparedExactly(file: seq<Byte>, base: Word)
    requires Accepted(file) && HeaderSize(file) <= |file| && TableInFile(file) && Undisturbed(file)
    ensures PreparedExec(file, base) ==
            if InBounds(FileSites(file), |file|)
            then
              var f := Relocate(file, FileSites(file), base);
              Prepared(f, HeaderSize(file), Shifted(InitialStack(f), base), Shifted(InitialEntry(f), base))
            else Undefined
  {
    FileNames(file);
    TableOverFile(file, HeaderSize(file), RelocationOffset(file), FileSites(file), base);
    hide ProcessTable, Relocate, Shifted, FileSites, Undisturbed, InBounds;
  }

  /**
   The checks count the table's entries, not its bytes: they accept a table that leaves its header
   exactly when its entries, counted as bytes, still fit the header and the file.
   */
  lemma OverrunAcceptedExactly(file: seq<Byte>, base: Word)
    requires |file| > HEADER_BYTES && WordAt(file, 0) == 0x5A4D
    ensures var header, table, n := HeaderSize(file), RelocationOffset(file), RelocationCount(file);
            && (PreparedExec(file, base).BadFormat? <==> !Accepted(file))
            && (!PreparedExec(file, base).BadFormat? && header < table + 4 * n <==>
                  table + n < header < table + 4 * n && table + n < |file|)
  {
    hide ProcessTable;
  }

  /** A table or a header that ends beyond an accepted file is never noticed: memory outside the file is touched. */
  lemma BeyondFileUndefined(file: seq<Byte>, base: Word)
    requires Accepted(file)
    requires |file| < HeaderSize(file) || |file| < RelocationOffset(file) + 4 * RelocationCount(file)
    ensures PreparedExec(file, base) == Undefined
  {
    PatchedFits(file, HeaderSize(file), RelocationOffset(file), RelocationCount(file), base);
  }

  /** A loop that stays in the buffer has read its whole table from it. */
  lemma {:induction false} PatchedFits(f: seq<Byte>, header: nat, table: nat, n: nat, base: Word)
    ensures ProcessTable(f, header, table, n, base).Patched? ==> n == 0 || table + 4 * n <= |f|
  {
    if n > 0 {
      PatchedFits(f, header, table, n - 1, base);
    }
  }

  /** A file of 64 bytes with a header of 32 and a table of `n` entries at offset 28. */
  ghost predicate Small(f: seq<Byte>, n: nat) {
    && |f| == 64 && WordAt(f, 0) == 0x5A4D
    && HeaderSize(f) == 32 && RelocationOffset(f) == 28 && RelocationCount(f) == n
  }

  function SmallFileByte(n: Byte, entry: Address, i: int): Byte {
    match i
    case 0 => 0x4D
    case 1 => 0x5A
    case 6 => n
    case 8 => 2
    case 24 => 28
    case 28 => Low(entry.off)
    case 29 => High(entry.off)
    case 30 => Low(entry.seg)
    case 31 => High(entry.seg)
    case _ => 0
  }

  /** Such a file, with `entry` first in its table and zeros behind it. */
  function SmallFile(n: Byte, entry: Address): seq<Byte> {
    seq(64, i => SmallFileByte(n, entry, i))
  }

  lemma SmallFileFields(n: Byte, entry: Address)
    ensures Small(SmallFile(n, entry), n)
    ensures AddressAt(SmallFile(n, entry), 28) == entry && AddressAt(SmallFile(n, entry), 32) == Address(0, 0)
  {
    hide Low, High;
    WordOfParts(entry.off);
    WordOfParts(entry.seg);
  }

  lemma WordOfParts(w: Word)
    ensures Low(w) + 0x100 * High(w) == w
  {
  }

  lemma SmallSites(f: seq<Byte>, n: nat)
    requires Small(f, n) && 0 < n <= 2 && AddressAt(f, 32) == Address(0, 0)
    ensures Accepted(f) && TableInFile(f) && RelocationCount(f) == |FileSites(f)| == n
    ensures FileSites(f)[0] == 32 + Linear(AddressAt(f, 28).seg, AddressAt(f, 28).off)
    ensures n == 2 ==> FileSites(f)[1] == 32 && EntryOffset(RelocationOffset(f), 1) == 32
  {
    hide AddressAt, WordAt, Linear, FileSites;
    FileSiteAt(f, 0, 28);
    if n == 2 {
      FileSiteAt(f, 1, 32);
      NullPointer();
    }
  }

  lemma FileSiteAt(file: seq<Byte>, k: nat, at: nat)
    requires TableInFile(file) && k < RelocationCount(file) && at == EntryOffset(RelocationOffset(file), k)
    ensures |FileSites(file)| == RelocationCount(file) && at + 4 <= |file|
    ensures FileSites(file)[k] == HeaderSize(file) + Linear(AddressAt(file, at).seg, AddressAt(file, at).off)
  {
    hide AddressAt, WordAt, Linear;
  }

  lemma NullPointer()
    ensures Linear(0, 0) == 0
  {
  }

  lemma OverrunUndisturbed(f: seq<Byte>)
    requires Small(f, 2) && AddressAt(f, 28) == Address(8, 0) && AddressAt(f, 32) == Address(0, 0)
    ensures TableInFile(f) && Undisturbed(f) && InBounds(FileSites(f), |f|)
  {
    SmallSites(f, 2);
    assert Linear(0, 8) == 8 && Misses(40, 32);
    hide FileSites, HeaderSize, RelocationOffset, RelocationCount, EntryOffset, TableInFile, Linear, Misses;
    forall k, j | 0 <= k < j < RelocationCount(f) ensures Misses(FileSites(f)[k], EntryOffset(RelocationOffset(f), j)) {
      assert k == 0 && j == 1;
    }
  }

  /** A table that runs into the image is accepted, and the image relocated, its part of the table included. */
  lemma OverrunPrepared(base: Word)
    ensures var f := SmallFile(2, Address(8, 0));
            && Small(f, 2) && HeaderSize(f) < RelocationOffset(f) + 4 * RelocationCount(f)
            && PreparedExec(f, base).Prepared?
  {
    var f := SmallFile(2, Address(8, 0));
    SmallFileFields(2, Address(8, 0));
    hide SmallFile;
    SmallSites(f, 2);
    OverrunUndisturbed(f);
    PreparedExactly(f, base);
    hide *;
  }

  /** A site outside the file is not rejected, even with the table in the header. */
  lemma OutsideUndefined(base: Word)
    ensures var f := SmallFile(1, Address(0, 0xFFFF));
            && Small(f, 1) && RelocationOffset(f) + 4 * RelocationCount(f) == HeaderSize(f)
            && PreparedExec(f, base) == Undefined
  {
    var f := SmallFile(1, Address(0, 0xFFFF));
    SmallFileFields(1, Address(0, 0xFFFF));
    hide SmallFile;
    SmallSites(f, 1);
    OutsideFile(f);
    PreparedExactly(f, base);
    hide *;
  }

  lemma OutsideFile(f: seq<Byte>)
    requires Small(f, 1) && AddressAt(f, 28) == Address(0, 0xFFFF) && TableInFile(f)
    requires |FileSites(f)| == 1 && FileSites(f)[0] == 32 + Linear(AddressAt(f, 28).seg, AddressAt(f, 28).off)
    ensures Undisturbed(f) && !InBounds(FileSites(f), |f|)
  {
    hide FileSites, AddressAt, WordAt, EntryOffset;
    assert FileSites(f)[0] + 2 > |f|;
  }

  // ---- The same by the header's fields ----

  /** Where the fields that are used lie. */
  lemma FieldOffsets(file: seq<Byte>)
    requires |file| >= HEADER_BYTES
    ensures var h := HeaderAt(file);
            && h.magicWord == WordAt(file, 0) && h.numberOfRelocs == WordAt(file, 6)
            && h.headerSizeDiv16 == WordAt(file, 8) && h.initialSs == WordAt(file, 14) && h.initialSp == WordAt(file, 16)
            && h.initialIp == WordAt(file, 20) && h.initialCs == WordAt(file, 22) && h.relocationOffset == WordAt(file, 24)
  {
    hide WordAt;
  }

  /** The checks, and the sites that the table names, by field. */
  lemma ChecksByField(file: seq<Byte>, k: nat)
    requires |file| > HEADER_BYTES
    ensures var h := HeaderAt(file);
            && (Accepted(file) <==>
                  && h.magicWord == 0x5A4D
                  && h.relocationOffset + h.numberOfRelocs < 16 * h.headerSizeDiv16
                  && h.relocationOffset + h.numberOfRelocs < |file|)
            && (TableInFile(file) <==> h.relocationOffset + 4 * h.numberOfRelocs <= |file|)
            && (TableInFile(file) && k < h.numberOfRelocs ==>
                  var at := h.relocationOffset + 4 * k;
                  && |FileSites(file)| == h.numberOfRelocs && at + 4 <= |file|
                  && FileSites(file)[k] == 16 * h.headerSizeDiv16 + 16 * WordAt(file, at + 2) + WordAt(file, at))
  {
    FieldOffsets(file);
    hide HeaderAt, WordAt;
  }

  /**
   The two pointers of a prepared program: offsets from the initial SP and IP, segments from the initial SS
   and CS increased by the load segment, all as the relocated header holds them.
   */
  lemma PointersByField(file: seq<Byte>, base: Word)
    requires PreparedExec(file, base).Prepared?
    ensures |file| > HEADER_BYTES && |PreparedExec(file, base).file| == |file|
    ensures var p := PreparedExec(file, base);
            var h := HeaderAt(p.file);
            && p.stack == Address(h.initialSp, Add16(h.initialSs, base))
            && p.entry == Address(h.initialIp, Add16(h.initialCs, base))
            && p.start == 16 * HeaderAt(file).headerSizeDiv16
  {
    FieldOffsets(file);
    FieldOffsets(PreparedExec(file, base).file);
    hide HeaderAt, WordAt, ProcessTable, Add16;
  }

  // ---- Preparing a well-formed file ----

  /** With the table in the header, the file's sites are the image's. */
  lemma SitesOfFile(file: seq<Byte>)
    requires TableInHeader(file)
    ensures TableInFile(file) && FileSites(file) == MovedBy(Sites(file), HeaderSize(file))
  {
    hide Linear;
    assert forall k :: 0 <= k < RelocationCount(file) ==> FileSites(file)[k] == HeaderSize(file) + Sites(file)[k];
  }

  /** They lie behind the table. */
  lemma HeaderUndisturbed(file: seq<Byte>)
    requires TableInHeader(file)
    ensures TableInFile(file) && Undisturbed(file)
  {
    SitesOfFile(file);
    hide FileSites, Sites, WordAt;
  }

  /** ... and in the file exactly when they are in the image. */
  lemma HeaderBounds(file: seq<Byte>)
    requires TableInHeader(file)
    ensures TableInFile(file) && (InBounds(FileSites(file), |file|) <==> WellFormed(file))
  {
    SitesOfFile(file);
    hide FileSites, Sites, WordAt, HeaderSize;
    assert |Image(file)| == |file| - HeaderSize(file);
    assert forall k :: 0 <= k < |Sites(file)| ==> FileSites(file)[k] == HeaderSize(file) + Sites(file)[k];
  }

  /** Relocating such a file is relocating its image. */
  lemma HeaderStays(file: seq<Byte>, base: Word)
    requires WellFormed(file)
    ensures TableInFile(file) && InBounds(FileSites(file), |file|)
    ensures Relocate(file, FileSites(file), base) == Header(file) + Relocate(Image(file), Sites(file), base)
  {
    SitesOfFile(file);
    HeaderBounds(file);
    assert file == Stored(file, HeaderSize(file), Image(file));
    assert HeaderSize(file) + |Image(file)| == |file|;
    hide Relocate, FileSites, Sites, Undisturbed, MovedBy, InBounds;
    RelocatePlaced(file, HeaderSize(file), Image(file), Sites(file), base);
  }

  /** A well-formed file is always prepared: its image is relocated and its two pointers shifted. */
  lemma WellFormedPrepared(file: seq<Byte>, base: Word)
    requires WellFormed(file)
    ensures PreparedExec(file, base) ==
            Prepared(Header(file) + Relocate(Image(file), Sites(file), base), HeaderSize(file),
                     Shifted(InitialStack(file), base), Shifted(InitialEntry(file), base))
  {
    HeaderUndisturbed(file);
    HeaderStays(file, base);
    assert Accepted(file);
    PreparedExactly(file, base);
    PointersStay(file, Relocate(Image(file), Sites(file), base));
    hide *;
  }

  /** With the table in the header, a program is prepared exactly when every site is in its image. */
  lemma PreparedInHeader(file: seq<Byte>, base: Word)
    requires TableInHeader(file)
    ensures PreparedExec(file, base).Prepared? <==> WellFormed(file)
    ensures PreparedExec(file, base).Undefined? <==> !WellFormed(file)
  {
    HeaderUndisturbed(file);
    HeaderBounds(file);
    assert Accepted(file);
    PreparedExactly(file, base);
    hide *;
  }

  lemma PointersStay(file: seq<Byte>, image: seq<Byte>)
    requires TableInHeader(file) && |image| == |Image(file)|
    ensures |Header(file) + image| == |file| > HEADER_BYTES
    ensures InitialStack(Header(file) + image) == InitialStack(file)
    ensures InitialEntry(Header(file) + image) == InitialEntry(file)
  {
    var f := Header(file) + image;
    assert forall i :: 14 <= i < 24 ==> f[i] == file[i];
    hide Header, Image, TableInHeader;
  }

  // ---- The stub and the output file ----

  /** The stub with the stack pointer stored at offset 2 and the entry pointer at offset 6. */
  function PatchedStub(stub: seq<Byte>, stack: Address, entry: Address): (r: seq<Byte>)
    requires |stub| >= 10
    ensures |r| == |stub|
  {
    WithAddress(WithAddress(stub, 2, stack), 6, entry)
  }

  method PrepareStub(data: ProgramData, bits: array<Byte>)
    requires bits.Length >= 10
    modifies bits
    ensures bits[..] == PatchedStub(old(bits[..]), data.stack, data.entry)
  {
    StoreWord(bits, 2, data.stack.off);
    StoreWord(bits, 4, data.stack.seg);
    StoreWord(bits, 6, data.entry.off);
    StoreWord(bits, 8, data.entry.seg);
  }

  /** The segment right after the stub, narrowed to 16 bits as the call to the relocator narrows it. */
  function LoadBase(stubSize: nat): Word {
    (LOAD_ADDRESS / 16 + (stubSize + 15) / 16) % 0x1_0000
  }

  /** The boot file of a well-formed program. */
  function BootFile(stub: seq<Byte>, file: seq<Byte>): (r: seq<Byte>)
    requires |stub| >= 10 && TableInHeader(file) && InBounds(Sites(file), |Image(file)|)
    ensures |r| == |stub| + |Image(file)|
  {
    var base := LoadBase(|stub|);
    PatchedStub(stub, Shifted(InitialStack(file), base), Shifted(InitialEntry(file), base))
      + Relocate(Image(file), Sites(file), base)
  }

  /**
   Prepares the program and the stub and returns the bytes of the boot image. The pointers are stored in
   a stub of any size: outside it, if it has less than ten bytes.
   */
  method Build(stub: array<Byte>, exec: array<Byte>) returns (outcome: Exec, output: seq<Byte>)
    requires stub != exec
    modifies stub, exec
    ensures var prepared := PreparedExec(old(exec[..]), LoadBase(stub.Length));
            outcome == if prepared.Prepared? && stub.Length < 10 then Undefined else prepared
    ensures outcome.Prepared? ==>
              output == PatchedStub(old(stub[..]), outcome.stack, outcome.entry) + outcome.file[outcome.start..]
    ensures WellFormed(old(exec[..])) && stub.Length >= 10 ==>
              outcome.Prepared? && output == BootFile(old(stub[..]), old(exec[..]))
  {
    hide PreparedExec, PatchedStub, LoadBase, Header, Image, Sites, Relocate, Shifted;
    if WellFormed(exec[..]) && stub.Length >= 10 {
      WellFormedPrepared(exec[..], LoadBase(stub.Length));
      BehindHeader(exec[..], Relocate(Image(exec[..]), Sites(exec[..]), LoadBase(stub.Length)));
    }
    var program := new ProgramData(exec);
    outcome := program.PrepareExec(exec, LoadBase(stub.Length));
    output := [];
    if outcome.Prepared? && stub.Length < 10 {
      return Undefined, [];
    }
    if outcome.Prepared? {
      PreparedStart(old(exec[..]), LoadBase(stub.Length));
      PrepareStub(program, stub);
      output := stub[..] + program.binary[program.start..];
    }
  }

  lemma BehindHeader(file: seq<Byte>, image: seq<Byte>)
    requires TableInHeader(file)
    ensures |Header(file)| == HeaderSize(file) && (Header(file) + image)[HeaderSize(file)..] == image
  {
  }

  lemma PreparedStart(file: seq<Byte>, base: Word)
    requires PreparedExec(file, base).Prepared?
    ensures PreparedExec(file, base).start <= |PreparedExec(file, base).file|
  {
  }

  // ---- The loaded image ----

  lemma StoredJoined(mem: seq<Byte>, a: nat, first: seq<Byte>, second: seq<Byte>)
    requires a + |first| + |second| <= |mem|
    ensures Stored(mem, a, first + second) == Stored(Stored(mem, a, first), a + |first|, second)
  {
  }

  /** The addresses that the table's far pointers name when the program's first segment is `base`. */
  function SegmentSites(file: seq<Byte>, base: Word): (r: seq<nat>)
    requires TableInHeader(file)
    ensures |r| == RelocationCount(file)
  {
    seq(RelocationCount(file), k requires 0 <= k < RelocationCount(file) =>
      Linear(Add16(TableEntry(file, k).seg, base), TableEntry(file, k).off))
  }

  /**
   The reference: an MZ loader that copies the program image to segment `base` of memory and then
   relocates in memory, through segment:offset addresses.
   */
  function LoadProgram(mem: seq<Byte>, file: seq<Byte>, base: Word): seq<Byte>
    requires TableInHeader(file) && 0x10 * base + |Image(file)| <= |mem|
    requires InBounds(SegmentSites(file, base), |mem|)
  {
    Relocate(Stored(mem, 0x10 * base, Image(file)), SegmentSites(file, base), base)
  }

  /** Below 1 MiB no segment sum wraps, so the reference relocates the image's own sites. */
  lemma SegmentSitesMoved(file: seq<Byte>, base: Word)
    requires WellFormed(file) && 0x10 * base + |Image(file)| <= 0x10_0000
    ensures SegmentSites(file, base) == MovedBy(Sites(file), 0x10 * base)
  {
    forall k | 0 <= k < RelocationCount(file)
      ensures SegmentSites(file, base)[k] == 0x10 * base + Sites(file)[k]
    {
      FarPointerMoves(TableEntry(file, k).seg, TableEntry(file, k).off, base);
    }
  }

  /** The image after the stub starts at the load segment exactly when the stub is whole paragraphs that fit. */
  lemma ImageAtLoadBase(stubSize: nat)
    ensures LOAD_ADDRESS + stubSize == 0x10 * LoadBase(stubSize) <==>
            stubSize % 16 == 0 && LOAD_ADDRESS / 16 + stubSize / 16 < 0x1_0000
  {
  }

  /**
   End to end: the boot file loaded at 0000:7C00 leaves the same memory as the stub there and the MZ
   program loaded at segment `LoadBase`; the stub's `lss sp` and far `call` read the program's own
   stack and entry pointers, shifted by that segment.
   */
  lemma BootFileLoads(mem: seq<Byte>, stub: seq<Byte>, file: seq<Byte>)
    requires WellFormed(file) && |stub| >= 10 && |stub| % 16 == 0
    requires LOAD_ADDRESS + |stub| < 0x10_0000 && LOAD_ADDRESS + |stub| + |Image(file)| <= 0x10_0000 <= |mem|
    ensures 0x10 * LoadBase(|stub|) == LOAD_ADDRESS + |stub|
    ensures InBounds(SegmentSites(file, LoadBase(|stub|)), |mem|)
    ensures var base := LoadBase(|stub|);
            var stack, entry := Shifted(InitialStack(file), base), Shifted(InitialEntry(file), base);
            var booted := Stored(mem, LOAD_ADDRESS, BootFile(stub, file));
            && booted == LoadProgram(Stored(mem, LOAD_ADDRESS, PatchedStub(stub, stack, entry)), file, base)
            && AddressAt(booted, LOAD_ADDRESS + 2) == stack
            && AddressAt(booted, LOAD_ADDRESS + 6) == entry
  {
    hide Relocate, LoadBase, SegmentSites, PatchedStub, LoadProgram, Stored, Shifted;
    var base := LoadBase(|stub|);
    var stack, entry := Shifted(InitialStack(file), base), Shifted(InitialEntry(file), base);
    ImageAtLoadBase(|stub|);
    ProgramPlaced(mem, PatchedStub(stub, stack, entry), file, base);
    PatchedStubPointers(stub, stack, entry);
    LoadedPointer(mem, PatchedStub(stub, stack, entry), Relocate(Image(file), Sites(file), base), 2);
    LoadedPointer(mem, PatchedStub(stub, stack, entry), Relocate(Image(file), Sites(file), base), 6);
  }

  /** The words that the booted stub loads into SP, SS, IP and CS, by the fields of the file's header. */
  lemma BootPointersByField(mem: seq<Byte>, stub: seq<Byte>, file: seq<Byte>)
    requires WellFormed(file) && |stub| >= 10 && |stub| % 16 == 0
    requires LOAD_ADDRESS + |stub| < 0x10_0000 && LOAD_ADDRESS + |stub| + |Image(file)| <= 0x10_0000 <= |mem|
    ensures var booted, base, h := Stored(mem, LOAD_ADDRESS, BootFile(stub, file)), 0x7C0 + |stub| / 16, HeaderAt(file);
            && WordAt(booted, 0x7C02) == h.initialSp && WordAt(booted, 0x7C04) == Add16(h.initialSs, base)
            && WordAt(booted, 0x7C06) == h.initialIp && WordAt(booted, 0x7C08) == Add16(h.initialCs, base)
  {
    var booted := Stored(mem, LOAD_ADDRESS, BootFile(stub, file));
    assert |booted| == |mem| && |file| > HEADER_BYTES;
    BootFileLoads(mem, stub, file);
    LoadBaseOf(|stub|);
    ShiftedFields(file, LoadBase(|stub|));
    hide *;
    PointerWords(booted, 0x7C02);
    PointerWords(booted, 0x7C06);
  }

  lemma PointerWords(m: seq<Byte>, at: nat)
    requires at + 4 <= |m|
    ensures WordAt(m, at) == AddressAt(m, at).off && WordAt(m, at + 2) == AddressAt(m, at).seg
  {
    hide WordAt;
  }

  lemma LoadBaseOf(stubSize: nat)
    requires stubSize % 16 == 0 && LOAD_ADDRESS + stubSize < 0x10_0000
    ensures LoadBase(stubSize) == 0x7C0 + stubSize / 16
  {
  }

  lemma ShiftedFields(file: seq<Byte>, base: Word)
    requires |file| > HEADER_BYTES
    ensures var h := HeaderAt(file);
            && Shifted(InitialStack(file), base) == Address(h.initialSp, Add16(h.initialSs, base))
            && Shifted(InitialEntry(file), base) == Address(h.initialIp, Add16(h.initialCs, base))
  {
    FieldOffsets(file);
    hide HeaderAt, WordAt, Add16;
  }

  /** A relocated image stored behind the stub is the reference loader's result. */
  lemma ProgramPlaced(mem: seq<Byte>, stub: seq<Byte>, file: seq<Byte>, base: Word)
    requires WellFormed(file) && 0x10 * base == LOAD_ADDRESS + |stub|
    requires LOAD_ADDRESS + |stub| + |Image(file)| <= 0x10_0000 <= |mem|
    ensures InBounds(SegmentSites(file, base), |mem|)
    ensures Stored(mem, LOAD_ADDRESS, stub + Relocate(Image(file), Sites(file), base)) ==
            LoadProgram(Stored(mem, LOAD_ADDRESS, stub), file, base)
  {
    hide Relocate, SegmentSites, Stored;
    StoredJoined(mem, LOAD_ADDRESS, stub, Relocate(Image(file), Sites(file), base));
    SegmentSitesMoved(file, base);
    RelocatePlaced(Stored(mem, LOAD_ADDRESS, stub), 0x10 * base, Image(file), Sites(file), base);
  }

  lemma LoadedPointer(mem: seq<Byte>, first: seq<Byte>, second: seq<Byte>, k: nat)
    requires LOAD_ADDRESS + |first| + |second| <= |mem| && k + 4 <= |first|
    ensures AddressAt(Stored(mem, LOAD_ADDRESS, first + second), LOAD_ADDRESS + k) == AddressAt(first, k)
  {
  }

  lemma PatchedStubPointers(stub: seq<Byte>, stack: Address, entry: Address)
    requires |stub| >= 10
    ensures AddressAt(PatchedStub(stub, stack, entry), 2) == stack
    ensures AddressAt(PatchedStub(stub, stack, entry), 6) == entry
  {
    hide WithAddress;
  }

  /**
   A far pointer of the image whose segment word is relocated once, and whose offset word no entry
   touches, names after booting the byte `0x10 * base` above its original target exactly when its
   segment does not wrap.
   */
  lemma RelocatedPointer(mem: seq<Byte>, stub: seq<Byte>, file: seq<Byte>, at: nat)
    requires WellFormed(file) && Compatible(Sites(file)) && |stub| >= 10 && |stub| % 16 == 0
    requires LOAD_ADDRESS + |stub| < 0x10_0000 && LOAD_ADDRESS + |stub| + |Image(file)| <= 0x10_0000 <= |mem|
    requires multiset(Sites(file))[at + 2] == 1
    requires forall s :: s in Sites(file) ==> s + 2 <= at || at + 2 <= s
    ensures at + 4 <= |Image(file)| && 0x10 * LoadBase(|stub|) == LOAD_ADDRESS + |stub|
    ensures var base := LoadBase(|stub|);
            var before := AddressAt(Image(file), at);
            var after := AddressAt(Stored(mem, LOAD_ADDRESS, BootFile(stub, file)), 0x10 * base + at);
            && after == Shifted(before, base)
            && (Linear(after.seg, after.off) == Linear(before.seg, before.off) + 0x10 * base
                <==> before.seg + base < 0x1_0000)
  {
    hide LoadBase, PatchedStub, Relocate, Stored, Linear;
    var base := LoadBase(|stub|);
    ImageAtLoadBase(|stub|);
    assert at + 2 in Sites(file);
    ImagePointer(Image(file), Sites(file), base, at);
    var patched := PatchedStub(stub, Shifted(InitialStack(file), base), Shifted(InitialEntry(file), base));
    LoadedImagePointer(mem, patched, Relocate(Image(file), Sites(file), base), at);
    FarPointerMoves(AddressAt(Image(file), at).seg, AddressAt(Image(file), at).off, base);
  }

  lemma ImagePointer(image: seq<Byte>, sites: seq<nat>, base: Word, at: nat)
    requires InBounds(sites, |image|) && Compatible(sites) && at + 4 <= |image|
    requires multiset(sites)[at + 2] == 1
    requires forall s :: s in sites ==> s + 2 <= at || at + 2 <= s
    ensures AddressAt(Relocate(image, sites, base), at) == Shifted(AddressAt(image, at), base)
  {
    hide Relocate, Grown;
    assert at + 2 in sites;
    forall k | 0 <= k < |sites| ensures Apart(sites[k], at) {
      assert sites[k] in sites;
    }
    ClosedFormWord(image, sites, base, at + 2);
    ClosedFormWord(image, sites, base, at);
    assert at !in sites;
    GrownOnce(WordAt(image, at), 0, base);
    GrownOnce(WordAt(image, at + 2), 0, base);
  }

  lemma LoadedImagePointer(mem: seq<Byte>, first: seq<Byte>, second: seq<Byte>, k: nat)
    requires LOAD_ADDRESS + |first| + |second| <= |mem| && k + 4 <= |second|
    ensures AddressAt(Stored(mem, LOAD_ADDRESS, first + second), LOAD_ADDRESS + |first| + k) == AddressAt(second, k)
  {
  }
}
