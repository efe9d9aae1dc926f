/**
 The segment descriptor calculator, and the fields that a processor reads from a descriptor (section
 3.4.5 of the Intel 64 and IA-32 Architectures Software Developer's Manual, volume 3A).
 */
module Descriptor {

  /** A 32-bit unsigned value, widened to 64 bits. */
  type Value32 = v: bv64 | v <= 0xFFFF_FFFF

  datatype SegmentType = Code | Data | Stack | Ldt | Tss | Unknown

  /** The command line, after parsing. */
  datatype Request = Request(
    base: Value32, limit: bv64, kind: SegmentType, privilege: Value32,
    present: bool, conforming: bool, readable: bool, writable: bool, accessed: bool, is32bit: bool)

  datatype Error = WritableCode | ReadableData | BadPrivilege | NotSupported | BadType

  datatype Result = Packed(descriptor: bv64) | Failed(error: Error)

  // ---- The fields of a descriptor ----

  function BaseOf(d: bv64): bv64 {
    LowBaseOf(d) | (TopBaseOf(d) << 24)
  }

  function LowBaseOf(d: bv64): bv64 {
    (d >> 16) & 0xFF_FFFF
  }

  function TopBaseOf(d: bv64): bv64 {
    (d >> 56) & 0xFF
  }

  function LimitOf(d: bv64): bv64 {
    (d & 0xFFFF) | (((d >> 48) & 0xF) << 16)
  }

  function Bit(d: bv64, n: bv6): bool {
    (d >> n) & 1 == 1
  }

  function PrivilegeOf(d: bv64): bv64 {
    (d >> 45) & 3
  }

  function AccessedOf(d: bv64): bool { Bit(d, 40) }

  function ReadWriteOf(d: bv64): bool { Bit(d, 41) }

  function DirectionOf(d: bv64): bool { Bit(d, 42) }

  function ExecutableOf(d: bv64): bool { Bit(d, 43) }

  function NotSystemOf(d: bv64): bool { Bit(d, 44) }

  function PresentOf(d: bv64): bool { Bit(d, 47) }

  function Is32BitOf(d: bv64): bool { Bit(d, 54) }

  function PagesOf(d: bv64): bool { Bit(d, 55) }

  /** The last offset that a limit field reaches, in bytes or in whole 4 KiB pages. */
  function Reach(limit: bv64, pages: bool): bv64 {
    if pages then (limit << 12) | 0xFFF else limit
  }

  function ReachOf(d: bv64): bv64 {
    Reach(LimitOf(d), PagesOf(d))
  }

  // ---- The calculator ----

  function Clamped(limit: bv64): bv64 {
    if limit > 0xFFFF_FFFF then 0xFFFF_FFFF else limit
  }

  function Flag(b: bool): bv64 {
    if b then 1 else 0
  }

  /** The values that the calculator stores, with the limit already scaled. */
  datatype Fields = Fields(
    base: bv64, limit: bv64, accessed: bool, readWrite: bool, direction: bool, executable: bool,
    privilege: bv64, present: bool, is32bit: bool, pages: bool)

  /** The ranges of the calculator's variables at the packing step. */
  predicate InRange(f: Fields) {
    f.base <= 0xFFFF_FFFF && f.limit <= 0xF_FFFF && f.privilege <= 3
  }

  function Or(a: bv64, b: bv64): bv64 {
    a | b
  }

  /** The masked value of a field at its bit position. */
  function Placed(value: bv64, mask: bv64, position: bv6): bv64 {
    (value & mask) << position
  }

  function Upper(value: bv64, bits: bv6): bv64 {
    value >> bits
  }

  /** The OR of all fields: the top byte of the base meets the low byte of the limit. */
  function Combined(f: Fields): bv64
  {
    Or(Or(Or(Or(Or(Or(Or(Or(Or(Or(Or(Or(Or(0,
      Placed(f.limit, 0xFFFF, 0)),
      Placed(f.base, 0xFF_FFFF, 16)),
      Placed(Flag(f.accessed), 1, 40)),
      Placed(Flag(f.readWrite), 1, 41)),
      Placed(Flag(f.direction), 1, 42)),
      Placed(Flag(f.executable), 1, 43)),
      Placed(Flag(true), 1, 44)),
      Placed(f.privilege, 3, 45)),
      Placed(Flag(f.present), 1, 47)),
      Placed(Upper(f.limit, 16), 0xF, 48)),
      Placed(Flag(f.is32bit), 1, 54)),
      Placed(Flag(f.pages), 1, 55)),
      Placed(Upper(f.base, 24), 0xFF, 0))
  }

  /** The part of the base that is stored in its place. */
  function KeptBase(base: bv64): bv64 {
    base & 0xFF_FFFF
  }

  /** The limit after the rest of the base has been combined with it. */
  function MixedLimit(limit: bv64, base: bv64): bv64 {
    limit | (base >> 24)
  }

  lemma CombinedBase(f: Fields)
    ensures BaseOf(Combined(f)) == KeptBase(f.base)
  {
    CombinedLowBase(f);
    CombinedTopBase(f);
    hide Combined, LowBaseOf, TopBaseOf, KeptBase;
  }

  /** Only one of the parts reaches the low base field. */
  lemma CombinedLowBase(f: Fields)
    ensures LowBaseOf(Combined(f)) == KeptBase(f.base)
  {
    PartsOutsideLowBase(f.limit, f.base, f.privilege);
    FlagsOutsideLowBase(f.accessed, f.readWrite, f.direction, f.executable);
    FlagsOutsideLowBase2(f.present, f.is32bit, f.pages);
    hide LowBaseOf, KeptBase, Placed, Upper, Flag, Or;
    var d := OrKeepsBase(0, Placed(f.limit, 0xFFFF, 0));
    d := OrSetsBase(d, f.base);
    d := OrKeepsBase(d, Placed(Flag(f.accessed), 1, 40));
    d := OrKeepsBase(d, Placed(Flag(f.readWrite), 1, 41));
    d := OrKeepsBase(d, Placed(Flag(f.direction), 1, 42));
    d := OrKeepsBase(d, Placed(Flag(f.executable), 1, 43));
    d := OrKeepsBase(d, Placed(Flag(true), 1, 44));
    d := OrKeepsBase(d, Placed(f.privilege, 3, 45));
    d := OrKeepsBase(d, Placed(Flag(f.present), 1, 47));
    d := OrKeepsBase(d, Placed(Upper(f.limit, 16), 0xF, 48));
    d := OrKeepsBase(d, Placed(Flag(f.is32bit), 1, 54));
    d := OrKeepsBase(d, Placed(Flag(f.pages), 1, 55));
    d := OrKeepsBase(d, Placed(Upper(f.base, 24), 0xFF, 0));
  }

  lemma OrKeepsBase(d: bv64, part: bv64) returns (r: bv64)
    requires LowBaseOf(part) == 0
    ensures r == Or(d, part) && LowBaseOf(r) == LowBaseOf(d)
  {
    r := Or(d, part);
  }

  lemma OrSetsBase(d: bv64, base: bv64) returns (r: bv64)
    requires LowBaseOf(d) == 0
    ensures r == Or(d, Placed(base, 0xFF_FFFF, 16)) && LowBaseOf(r) == KeptBase(base)
  {
    r := Or(d, Placed(base, 0xFF_FFFF, 16));
  }

  lemma PartsOutsideLowBase(limit: bv64, base: bv64, privilege: bv64)
    ensures LowBaseOf(0) == 0
    ensures LowBaseOf(Placed(limit, 0xFFFF, 0)) == 0 && LowBaseOf(Placed(Upper(limit, 16), 0xF, 48)) == 0
    ensures LowBaseOf(Placed(Upper(base, 24), 0xFF, 0)) == 0 && LowBaseOf(Placed(privilege, 3, 45)) == 0
  {
  }

  lemma FlagsOutsideLowBase(a: bool, rw: bool, dc: bool, x: bool)
    ensures LowBaseOf(Placed(Flag(a), 1, 40)) == 0 && LowBaseOf(Placed(Flag(rw), 1, 41)) == 0
    ensures LowBaseOf(Placed(Flag(dc), 1, 42)) == 0 && LowBaseOf(Placed(Flag(x), 1, 43)) == 0
  {
  }

  lemma FlagsOutsideLowBase2(p: bool, db: bool, g: bool)
    ensures LowBaseOf(Placed(Flag(true), 1, 44)) == 0 && LowBaseOf(Placed(Flag(p), 1, 47)) == 0
    ensures LowBaseOf(Placed(Flag(db), 1, 54)) == 0 && LowBaseOf(Placed(Flag(g), 1, 55)) == 0
  {
  }

  lemma CombinedTopBase(f: Fields)
    ensures TopBaseOf(Combined(f)) == 0
  {
  }

  lemma CombinedLimit(f: Fields)
    requires f.base <= 0xFFFF_FFFF && f.limit <= 0xF_FFFF
    ensures LimitOf(Combined(f)) == MixedLimit(f.limit, f.base)
  {
  }

  lemma CombinedLow(f: Fields)
    ensures AccessedOf(Combined(f)) == f.accessed && ReadWriteOf(Combined(f)) == f.readWrite
  {
  }

  lemma CombinedType(f: Fields)
    ensures DirectionOf(Combined(f)) == f.direction && ExecutableOf(Combined(f)) == f.executable
  {
  }

  lemma CombinedSystem(f: Fields)
    requires f.privilege <= 3
    ensures NotSystemOf(Combined(f)) && PrivilegeOf(Combined(f)) == f.privilege
  {
  }

  lemma CombinedHigh(f: Fields)
    ensures PresentOf(Combined(f)) == f.present
    ensures Is32BitOf(Combined(f)) == f.is32bit && PagesOf(Combined(f)) == f.pages
  {
  }

  /** What a processor reads from a descriptor. */
  function Decoded(d: bv64): Fields {
    Fields(BaseOf(d), LimitOf(d), AccessedOf(d), ReadWriteOf(d), DirectionOf(d), ExecutableOf(d),
           PrivilegeOf(d), PresentOf(d), Is32BitOf(d), PagesOf(d))
  }

  /** What decoding recovers for any base: all fields but the base and the limit as they were. */
  lemma DecodedFields(f: Fields)
    requires InRange(f)
    ensures Decoded(Combined(f)) == f.(base := KeptBase(f.base), limit := MixedLimit(f.limit, f.base))
    ensures NotSystemOf(Combined(f))
  {
    hide Combined, BaseOf, LimitOf, AccessedOf, ReadWriteOf, DirectionOf, ExecutableOf, NotSystemOf, PrivilegeOf,
      PresentOf, Is32BitOf, PagesOf, KeptBase, MixedLimit;
    CombinedBase(f);
    CombinedLimit(f);
    CombinedLow(f);
    CombinedType(f);
    CombinedSystem(f);
    CombinedHigh(f);
  }

  /** Decoding recovers every field exactly when the base lies below 2^24. */
  lemma DecodesExactly(f: Fields)
    requires InRange(f)
    ensures Decoded(Combined(f)) == f <==> f.base < 0x100_0000
  {
    DecodedFields(f);
    BaseFits(f.base, f.limit);
    hide *;
  }

  lemma BaseFits(base: bv64, limit: bv64)
    ensures KeptBase(base) == base <==> base < 0x100_0000
    ensures base < 0x100_0000 ==> MixedLimit(limit, base) == limit
  {
  }

  /** The limit in units of 4 KiB pages. */
  function PageCount(limit: bv64): bv64 {
    limit >> 12
  }

  /** The limit field and the granularity for a requested limit. */
  function ScaledLimit(limit: bv64): bv64 {
    if NeedsPages(limit) then PageCount(Clamped(limit)) else Clamped(limit)
  }

  function NeedsPages(limit: bv64): bool {
    Clamped(limit) > 0xF_FFFF
  }

  /** The reach covers the limit and lies at most `slack` bytes beyond it. */
  predicate Within(reach: bv64, limit: bv64, slack: bv64) {
    reach >= limit && reach - limit <= slack
  }

  /** The segment reaches exactly the clamped request up to 1 MiB, and above it at most 4095 bytes more. */
  lemma LimitBound(limit: bv64)
    ensures ScaledLimit(limit) <= 0xF_FFFF
    ensures Within(Reach(ScaledLimit(limit), NeedsPages(limit)), Clamped(limit), if NeedsPages(limit) then 4095 else 0)
  {
    ClampedFits(limit);
    if NeedsPages(limit) {
      PageBound(Clamped(limit));
      hide Clamped, PageCount, Reach, Within;
    } else {
      ByteBound(Clamped(limit));
      hide Clamped, PageCount, Reach, Within;
    }
  }

  lemma ClampedFits(limit: bv64)
    ensures Clamped(limit) <= 0xFFFF_FFFF
  {
  }

  lemma ByteBound(x: bv64)
    ensures Within(Reach(x, false), x, 0)
  {
  }

  lemma PageBound(x: bv64)
    requires x <= 0xFFFF_FFFF
    ensures PageCount(x) <= 0xF_FFFF
    ensures Within(Reach(PageCount(x), true), x, 4095)
  {
    PageRounding(x);
    PageExcess(x);
    hide *;
  }

  lemma PageRounding(x: bv64)
    requires x <= 0xFFFF_FFFF
    ensures PageCount(x) <= 0xF_FFFF
    ensures Reach(PageCount(x), true) == PageEnd(x)
  {
  }

  /** The last offset of the page that holds `x`. */
  function PageEnd(x: bv64): bv64 {
    x | 0xFFF
  }

  lemma PageExcess(x: bv64)
    ensures Within(PageEnd(x), x, 4095)
  {
    assert (x | 0xFFF) - x == 0xFFF & !x;
  }

  /** The first error that the checks on the options raise, if any. */
  function OptionError(r: Request): seq<Error> {
    if r.kind.Code? && r.writable then [WritableCode]
    else if (r.kind.Data? || r.kind.Stack?) && r.readable then [ReadableData]
    else if (r.kind.Code? || r.kind.Data? || r.kind.Stack?) && r.privilege > 3 then [BadPrivilege]
    else if r.kind.Ldt? || r.kind.Tss? then [NotSupported]
    else if r.kind.Unknown? then [BadType]
    else []
  }

  /** The fields that a request asks for. */
  function Requested(r: Request): Fields {
    Fields(r.base, ScaledLimit(r.limit), r.accessed,
           if r.kind.Code? then r.readable else r.writable,
           if r.kind.Code? then r.conforming else r.kind.Stack?,
           r.kind.Code?, r.privilege, r.present, r.is32bit, NeedsPages(r.limit))
  }

  /** The descriptor's access and flag bits are the request's options, for any base and limit. */
  predicate BitsAsRequested(d: bv64, r: Request) {
    && Bit(d, 40) == r.accessed
    && Bit(d, 41) == (if r.kind.Code? then r.readable else r.writable)
    && Bit(d, 42) == (r.kind.Stack? || (r.kind.Code? && r.conforming))
    && Bit(d, 43) == r.kind.Code? && Bit(d, 44)
    && (d >> 45) & 3 == r.privilege
    && Bit(d, 47) == r.present && Bit(d, 54) == r.is32bit
  }

  /** The segment reaches the limit: exactly up to 1 MiB, then to the end of its page, and to 4 GiB at most. */
  predicate ReachAsRequested(d: bv64, r: Request) {
    ReachOf(d) == LastOffset(r.limit)
  }

  function LastOffset(limit: bv64): bv64 {
    if limit <= 0xF_FFFF then limit else if limit <= 0xFFFF_FFFF then limit | 0xFFF else 0xFFFF_FFFF
  }

  /** Calculates the descriptor step by step. */
  method Calculate(r: Request) returns (result: Result)
    ensures result.Failed? <==> OptionError(r) != []
    ensures result.Failed? ==> OptionError(r) == [result.error]
    ensures result == Failed(WritableCode) <==> r.kind.Code? && r.writable
    ensures result == Failed(ReadableData) <==> (r.kind.Data? || r.kind.Stack?) && r.readable
    ensures result == Failed(BadPrivilege) <==>
            (if r.kind.Code? then !r.writable else (r.kind.Data? || r.kind.Stack?) && !r.readable) && r.privilege > 3
    ensures result == Failed(NotSupported) <==> r.kind.Ldt? || r.kind.Tss?
    ensures result == Failed(BadType) <==> r.kind.Unknown?
    ensures result.Packed? ==>
              && NotSystemOf(result.descriptor)
              && (Decoded(result.descriptor) == Requested(r) <==> r.base < 0x100_0000)
              && (r.base < 0x100_0000 ==>
                    Within(ReachOf(result.descriptor), Clamped(r.limit), if NeedsPages(r.limit) then 4095 else 0))
    ensures result.Packed? ==>
              && BitsAsRequested(result.descriptor, r)
              && (Bit(result.descriptor, 55) <==> r.limit > 0xF_FFFF)
              && (r.base < 0x100_0000 ==> BaseOf(result.descriptor) == r.base && ReachAsRequested(result.descriptor, r))
  {
    hide Combined, Bit, BitsAsRequested, ReachAsRequested, BaseOf, Decoded, NotSystemOf, ReachOf, Within,
      ScaledLimit, NeedsPages, Clamped;
    var executable, direction, readWrite := false, false, false;
    match r.kind {
      case Code =>
        executable, direction, readWrite := true, r.conforming, r.readable;
        if r.writable {
          return Failed(WritableCode);
        }
      case Data | Stack =>
        direction, readWrite := r.kind.Stack?, r.writable;
        if r.readable {
          return Failed(ReadableData);
        }
      case Ldt | Tss =>
        return Failed(NotSupported);
      case Unknown =>
        return Failed(BadType);
    }
    if r.privilege > 3 {
      return Failed(BadPrivilege);
    }
    var limit, pages := Scale(r.limit);
    var d := OrFields(Fields(r.base, limit, r.accessed, readWrite, direction, executable, r.privilege,
                             r.present, r.is32bit, pages));
    RequestPacked(r);
    RequestBits(r);
    RequestPages(r);
    if r.base < 0x100_0000 {
      RequestReach(r);
    }
    result := Packed(d);
  }

  /** Clamping the limit to 32 bits, and scaling it to pages above 1 MiB. */
  method Scale(requested: bv64) returns (limit: bv64, pages: bool)
    ensures limit == ScaledLimit(requested) && pages == NeedsPages(requested)
  {
    hide PageCount;
    limit, pages := requested, false;
    if limit > 0xFFFF_FFFF {
      limit := 0xFFFF_FFFF;
    }
    if limit > 0xF_FFFF {
      limit := PageCount(limit);
      pages := true;
    }
  }

  lemma RequestPacked(r: Request)
    requires r.privilege <= 3
    ensures var d := Combined(Requested(r));
            && NotSystemOf(d)
            && (Decoded(d) == Requested(r) <==> r.base < 0x100_0000)
            && (r.base < 0x100_0000 ==> Within(ReachOf(d), Clamped(r.limit), if NeedsPages(r.limit) then 4095 else 0))
  {
    hide Combined, NotSystemOf, Within, ScaledLimit, NeedsPages, Clamped, Reach, BaseOf, LimitOf, AccessedOf,
      ReadWriteOf, DirectionOf, ExecutableOf, PrivilegeOf, PresentOf, Is32BitOf, PagesOf;
    LimitBound(r.limit);
    DecodedFields(Requested(r));
    DecodesExactly(Requested(r));
  }

  lemma RequestBits(r: Request)
    requires r.privilege <= 3
    ensures BitsAsRequested(Combined(Requested(r)), r)
  {
    var f := Requested(r);
    var d := Combined(f);
    RequestedOptions(r);
    CombinedLow(f);
    CombinedType(f);
    CombinedSystem(f);
    CombinedHigh(f);
    BitsFollow(d, r);
    hide *;
  }

  lemma BitsFollow(d: bv64, r: Request)
    requires AccessedOf(d) == r.accessed && ReadWriteOf(d) == (if r.kind.Code? then r.readable else r.writable)
    requires DirectionOf(d) == (r.kind.Stack? || (r.kind.Code? && r.conforming)) && ExecutableOf(d) == r.kind.Code?
    requires NotSystemOf(d) && PrivilegeOf(d) == r.privilege
    requires PresentOf(d) == r.present && Is32BitOf(d) == r.is32bit
    ensures BitsAsRequested(d, r)
  {
    BitNames(d);
    hide Bit, AccessedOf, ReadWriteOf, DirectionOf, ExecutableOf, NotSystemOf, PrivilegeOf, PresentOf, Is32BitOf, PagesOf;
  }

  lemma RequestPages(r: Request)
    ensures Bit(Combined(Requested(r)), 55) <==> r.limit > 0xF_FFFF
  {
    RequestedOptions(r);
    CombinedHigh(Requested(r));
    BitNames(Combined(Requested(r)));
    PagesExactly(r.limit);
    hide *;
  }

  /** The bit numbers of the flags. */
  lemma BitNames(d: bv64)
    ensures AccessedOf(d) == Bit(d, 40) && ReadWriteOf(d) == Bit(d, 41) && DirectionOf(d) == Bit(d, 42)
    ensures ExecutableOf(d) == Bit(d, 43) && NotSystemOf(d) == Bit(d, 44) && PrivilegeOf(d) == (d >> 45) & 3
    ensures PresentOf(d) == Bit(d, 47) && Is32BitOf(d) == Bit(d, 54) && PagesOf(d) == Bit(d, 55)
  {
    hide Bit;
  }

  lemma RequestedOptions(r: Request)
    ensures var f := Requested(r);
            && f.accessed == r.accessed && f.executable == r.kind.Code? && f.privilege == r.privilege
            && f.readWrite == (if r.kind.Code? then r.readable else r.writable)
            && f.direction == (r.kind.Stack? || (r.kind.Code? && r.conforming))
            && f.present == r.present && f.is32bit == r.is32bit && f.pages == NeedsPages(r.limit)
            && f.base == r.base && f.limit == ScaledLimit(r.limit)
  {
    hide ScaledLimit, NeedsPages;
  }

  lemma PagesExactly(limit: bv64)
    ensures NeedsPages(limit) <==> limit > 0xF_FFFF
  {
  }

  lemma RequestReach(r: Request)
    requires r.privilege <= 3 && r.base < 0x100_0000
    ensures BaseOf(Combined(Requested(r))) == r.base && ReachAsRequested(Combined(Requested(r)), r)
  {
    var f := Requested(r);
    var d := Combined(f);
    RequestedOptions(r);
    RequestPacked(r);
    ReachExactly(r.limit);
    hide Combined, Requested, ScaledLimit, NeedsPages, BaseOf, LimitOf, AccessedOf, ReadWriteOf, DirectionOf,
      ExecutableOf, NotSystemOf, PrivilegeOf, PresentOf, Is32BitOf, PagesOf, Reach, Within, Clamped, LastOffset;
  }

  lemma ReachExactly(limit: bv64)
    ensures Reach(ScaledLimit(limit), NeedsPages(limit)) == LastOffset(limit)
  {
    PagesExactly(limit);
    ClampedExactly(limit);
    if limit > 0xF_FFFF {
      PageRounding(Clamped(limit));
      hide Clamped, PageCount, Reach, NeedsPages;
    } else {
      hide Clamped, PageCount, NeedsPages;
    }
  }

  lemma ClampedExactly(limit: bv64)
    ensures limit <= 0xFFFF_FFFF ==> Clamped(limit) == limit
    ensures limit > 0xFFFF_FFFF ==> PageEnd(Clamped(limit)) == 0xFFFF_FFFF
    ensures Clamped(limit) <= 0xFFFF_FFFF
  {
  }

  /** The chain of OR assignments. */
  method OrFields(f: Fields) returns (d: bv64)
    ensures d == Combined(f)
  {
    hide Placed, Flag, Upper, Or;
    d := 0;
    d := Or(d, Placed(f.limit, 0xFFFF, 0));
    d := Or(d, Placed(f.base, 0xFF_FFFF, 16));
    d := Or(d, Placed(Flag(f.accessed), 1, 40));
    d := Or(d, Placed(Flag(f.readWrite), 1, 41));
    d := Or(d, Placed(Flag(f.direction), 1, 42));
    d := Or(d, Placed(Flag(f.executable), 1, 43));
    d := Or(d, Placed(Flag(true), 1, 44));
    d := Or(d, Placed(f.privilege, 3, 45));
    d := Or(d, Placed(Flag(f.present), 1, 47));
    d := Or(d, Placed(Upper(f.limit, 16), 0xF, 48));
    d := Or(d, Placed(Flag(f.is32bit), 1, 54));
    d := Or(d, Placed(Flag(f.pages), 1, 55));
    d := Or(d, Placed(Upper(f.base, 24), 0xFF, 0));
  }
}
