/**
 The boot loader's main program: system information, the core image's size, the memory region for it,
 and one download. Errors are 32 bits wide, but the main program keeps only their low 16 bits.
 */
module BootLoader {
  import opened Words
  import opened Pxe
  import opened MemoryMap

  /** All replies of the firmware. */
  datatype Firmware = Firmware(init: Word, bios: nat -> BiosReply, dhcp: Cached, query: Reply, download: Reply)

  datatype Exit = Exited | Halted(code: Word)

  /** What is left of an error in the main program's 16-bit status. */
  function Narrowed(e: Error): Word {
    MakeError(e) % 0x1_0000
  }

  /** That is its code; the category is lost. */
  lemma NarrowedCode(e: Error)
    ensures Narrowed(e) == match e
                           case MapFailed(code) => code
                           case DhcpFailed(code) => code
                           case DownloadFailed(code) => code
                           case _ => 0
  {
  }

  /** The error of acquiring the system information. */
  function AcquireError(f: Firmware): Error {
    match Collect(f.bios, 0)
    case Broken(e, _) => e
    case Complete(_) => if f.dhcp.Usable() then NoError else DhcpFailed(f.dhcp.status)
  }

  /** The map the loader works with: complete, or empty. */
  function AcquiredMap(f: Firmware): seq<Entry> {
    match Collect(f.bios, 0)
    case Broken(_, _) => []
    case Complete(n) => seq(n, i requires 0 <= i => f.bios(i).entry)
  }

  /** The size of the core image, or zero if the firmware does not give one. */
  function ImageSize(f: Firmware): Dword {
    if f.query.Answered() then f.query.size else 0
  }

  /** The first suitable entry from `k` on; the map's length if there is none. */
  function FirstFit(entries: seq<Entry>, size: Dword, k: nat): (at: nat)
    requires k <= |entries|
    ensures k <= at <= |entries|
    ensures at < |entries| ==> Suitable(entries[at], size)
    ensures forall i :: k <= i < at ==> !Suitable(entries[i], size)
    decreases |entries| - k
  {
    if k == |entries| || Suitable(entries[k], size) then k else FirstFit(entries, size, k + 1)
  }

  predicate Fits(f: Firmware) {
    FirstFit(AcquiredMap(f), ImageSize(f), 0) < |AcquiredMap(f)|
  }

  /** The region chosen for the image. */
  function Region(f: Firmware): Entry
    requires Fits(f)
  {
    AcquiredMap(f)[FirstFit(AcquiredMap(f), ImageSize(f), 0)]
  }

  /** The call that downloads the image: base and size are narrowed to 32 bits. */
  function DownloadCall(f: Firmware): Event
    requires Fits(f)
  {
    ReadFile(Region(f).base % TWO32, Region(f).size % TWO32)
  }

  function ImageError(f: Firmware): Error {
    if f.query.Status() != SUCCESS || ImageSize(f) < 1 then ImageBadOrNotFound
    else if !Fits(f) then NotEnoughMemory
    else if f.download.Status() != SUCCESS then DownloadFailed(f.download.Status())
    else NoError
  }

  function ImageTrace(f: Firmware): seq<Event> {
    f.query.Trace(GetFileSize)
    + if f.query.Status() == SUCCESS && ImageSize(f) >= 1 && Fits(f) then f.download.Trace(DownloadCall(f)) else []
  }

  class Loader {
    const info: SystemInfo
    const client: Client

    constructor ()
      ensures fresh(info) && fresh(info.data) && fresh(client)
      ensures info.data.Length == CAPACITY && client.trace == []
    {
      info := new SystemInfo();
      client := new Client();
    }

    /** The memory map and the cached packet; the map stays if only the packet is missing. */
    method Acquire(f: Firmware) returns (error: Error)
      requires info.Valid()
      modifies info, info.data, client
      ensures info.Valid() && error == AcquireError(f) && info.Map() == AcquiredMap(f)
      ensures info.imageAddress == 0 && info.imageSize == 0
      ensures client.trace == old(client.trace) + if Collect(f.bios, 0).Complete? then [GetCachedInfo] else []
    {
      info.Clear();
      var queries: nat;
      error, queries := info.AcquireMemoryMap(f.bios);
      if error != NoError {
        return;
      }
      var status, present := client.GetCached(f.dhcp);
      if status != SUCCESS || !present {
        return DhcpFailed(status);
      }
      return NoError;
    }

    /** Finds the image's size and a region for it, and downloads it there. */
    method DownloadImage(f: Firmware) returns (error: Error)
      requires info.Valid() && info.Map() == AcquiredMap(f)
      modifies info`imageAddress, info`imageSize, client
      ensures info.Valid() && error == ImageError(f)
      ensures client.trace == old(client.trace) + ImageTrace(f)
      ensures if error == NoError
              then info.imageAddress == Region(f).base % TWO32
                   && info.imageSize == (if f.download.Answered() then f.download.size else 0)
              else info.imageAddress == old(info.imageAddress) && info.imageSize == old(info.imageSize)
    {
      var status, size := client.QuerySize(f.query, 0);
      if status != SUCCESS || size < 1 {
        return ImageBadOrNotFound;
      }
      var found, at := info.LocateExtendedMemory(size);
      FirstFitUnique(info.Map(), size, if found then at else |info.Map()|);
      if !found {
        return NotEnoughMemory;
      }
      var region := info.data[at];
      assert region == Region(f);
      var downloaded: Dword;
      status, downloaded := client.Download(f.download, region.base % TWO32, region.size % TWO32, 0);
      if status != SUCCESS {
        return DownloadFailed(status);
      }
      info.imageAddress := region.base % TWO32;
      info.imageSize := downloaded;
      return NoError;
    }

    method Boot(f: Firmware) returns (exit: Exit)
      requires info.Valid()
      modifies info, info.data, client
      ensures exit == BootExit(f)
      ensures client.trace == old(client.trace) + BootTrace(f)
      ensures f.init == SUCCESS && Narrowed(AcquireError(f)) == 0 ==>
                if ImageError(f) == NoError
                then info.imageAddress == Region(f).base % TWO32
                     && info.imageSize == (if f.download.Answered() then f.download.size else 0)
                else info.imageAddress == 0 && info.imageSize == 0
    {
      if f.init != SUCCESS {
        return Halted(f.init);
      }
      var error := Acquire(f);
      if Narrowed(error) != 0 {
        return Halted(Narrowed(error));
      }
      error := DownloadImage(f);
      if Narrowed(error) != 0 {
        return Halted(Narrowed(error));
      }
      return Exited;
    }
  }

  lemma {:induction false} FirstFitUniqueFrom(entries: seq<Entry>, size: Dword, k: nat, at: nat)
    requires k <= at <= |entries|
    requires at < |entries| ==> Suitable(entries[at], size)
    requires forall i :: k <= i < at ==> !Suitable(entries[i], size)
    ensures FirstFit(entries, size, k) == at
    decreases |entries| - k
  {
    if k < at {
      FirstFitUniqueFrom(entries, size, k + 1, at);
    }
  }

  lemma FirstFitUnique(entries: seq<Entry>, size: Dword, at: nat)
    requires at <= |entries|
    requires at < |entries| ==> Suitable(entries[at], size)
    requires forall i :: 0 <= i < at ==> !Suitable(entries[i], size)
    ensures FirstFit(entries, size, 0) == at
  {
    FirstFitUniqueFrom(entries, size, 0, at);
  }

  /** How the main program ends: an error halts it only if its low 16 bits are not zero. */
  function BootExit(f: Firmware): Exit {
    if f.init != SUCCESS then Halted(f.init)
    else if Narrowed(AcquireError(f)) != 0 then Halted(Narrowed(AcquireError(f)))
    else if Narrowed(ImageError(f)) != 0 then Halted(Narrowed(ImageError(f)))
    else Exited
  }

  function BootTrace(f: Firmware): seq<Event> {
    if f.init != SUCCESS then []
    else
      (if Collect(f.bios, 0).Complete? then [GetCachedInfo] else [])
      + if Narrowed(AcquireError(f)) != 0 then [] else ImageTrace(f)
  }

  /**
   Whatever the firmware replies, an image is downloaded only with a completely acquired map, into the
   first entry from 1 MiB up that is available and at least as large as the image, whose size the
   firmware gave and is not zero.
   */
  lemma DownloadSafe(f: Firmware, buffer: Dword, size: Dword)
    requires ReadFile(buffer, size) in BootTrace(f)
    ensures Collect(f.bios, 0).Complete? && |AcquiredMap(f)| == Collect(f.bios, 0).count <= CAPACITY
    ensures f.query.Answered() && f.query.size >= 1
    ensures exists at: int :: 0 <= at < |AcquiredMap(f)|
              && AcquiredMap(f)[at].base >= 0x10_0000 && AcquiredMap(f)[at].kind == 1
              && AcquiredMap(f)[at].size >= f.query.size
              && (forall i: int :: 0 <= i < at ==>
                    || AcquiredMap(f)[i].base < 0x10_0000 || AcquiredMap(f)[i].kind != 1
                    || AcquiredMap(f)[i].size < f.query.size)
              && buffer == AcquiredMap(f)[at].base % TWO32 && size == AcquiredMap(f)[at].size % TWO32
  {
    assert Fits(f) && Collect(f.bios, 0).Complete?;
    CollectExactly(f.bios, 0, Collect(f.bios, 0).count);
    var map0, at := AcquiredMap(f), FirstFit(AcquiredMap(f), ImageSize(f), 0);
    assert buffer == map0[at].base % TWO32 && size == map0[at].size % TWO32;
    assert Suitable(map0[at], f.query.size) && forall i :: 0 <= i < at ==> !Suitable(map0[i], f.query.size);
    hide FirstFit, Collect, AcquiredMap, BootTrace;
  }

  /** A region is found exactly when the map has an available entry from 1 MiB up with room for the image. */
  lemma FitsExactly(f: Firmware)
    ensures Fits(f) <==> exists at: int :: 0 <= at < |AcquiredMap(f)|
                           && AcquiredMap(f)[at].base >= 0x10_0000 && AcquiredMap(f)[at].kind == 1
                           && AcquiredMap(f)[at].size >= ImageSize(f)
  {
    var map0 := AcquiredMap(f);
    var at := FirstFit(map0, ImageSize(f), 0);
    if at < |map0| {
      assert Suitable(map0[at], ImageSize(f));
    } else {
      assert forall i :: 0 <= i < |map0| ==> !Suitable(map0[i], ImageSize(f));
    }
    hide FirstFit, AcquiredMap;
  }

  /**
   Below 1 MiB nothing is used: with the usual two entries of memory below and above the hole, the image
   goes into the second.
   */
  lemma LowMemorySkipped(f: Firmware)
    requires AcquiredMap(f) == [Entry(0, 0x9_FC00, 1, 0), Entry(0x10_0000, 0x3F0_0000, 1, 0)]
    requires ImageSize(f) == 0x1_8000
    ensures Fits(f) && Region(f) == Entry(0x10_0000, 0x3F0_0000, 1, 0)
  {
    FirstFitUnique(AcquiredMap(f), 0x1_8000, 1);
    hide FirstFit, AcquiredMap;
  }

  /**
   The calls of a boot whose map is complete: the cached packet for its own sake, then behind a cached
   packet each the size query and the download, each only if all before it went well.
   */
  lemma CallsExactly(f: Firmware)
    requires f.init == SUCCESS
    ensures Collect(f.bios, 0).Complete? ==>
              BootTrace(f) ==
              if f.dhcp.status != SUCCESS then [GetCachedInfo]
              else if !f.query.cached.Usable() then [GetCachedInfo, GetCachedInfo]
              else if f.query.status != SUCCESS || f.query.size == 0 || !Fits(f) then
                [GetCachedInfo, GetCachedInfo, GetFileSize]
              else if !f.download.cached.Usable() then [GetCachedInfo, GetCachedInfo, GetFileSize, GetCachedInfo]
              else [GetCachedInfo, GetCachedInfo, GetFileSize, GetCachedInfo,
                    ReadFile(Region(f).base % TWO32, Region(f).size % TWO32)]
    ensures Collect(f.bios, 0).Broken? && Collect(f.bios, 0).error != MapOverflow ==> BootTrace(f) == []
    ensures Collect(f.bios, 0).Broken? && Collect(f.bios, 0).error == MapOverflow ==>
              BootTrace(f) == if f.query.cached.Usable() then [GetCachedInfo, GetFileSize] else [GetCachedInfo]
  {
    CollectError(f.bios, 0);
    hide Collect, FirstFit;
  }

  predicate InRegion(e: Entry, a: int) {
    e.base <= a < e.base + e.size
  }

  /** Byte `i` of the buffer that starts at the narrowed base: 32-bit addresses wrap. */
  function BufferByte(e: Entry, i: int): Dword {
    (e.base % TWO32 + i) % TWO32
  }

  /** Every byte of the narrowed buffer lies in the chosen region. */
  ghost predicate BufferInRegion(e: Entry) {
    forall i: int :: 0 <= i < e.size % TWO32 ==> InRegion(e, BufferByte(e, i))
  }

  /**
   The buffer handed to the download lies in the chosen region exactly when its narrowed size is zero, or
   the region starts below 4 GiB and the buffer does not wrap there.
   */
  lemma RegionNarrowing(e: Entry)
    ensures BufferInRegion(e) <==> e.size % TWO32 == 0 || (e.base < TWO32 && e.base + e.size % TWO32 <= TWO32)
  {
    var size := e.size % TWO32;
    if size > 0 && e.base >= TWO32 {
      assert !InRegion(e, BufferByte(e, 0));
    } else if size > 0 && e.base + size > TWO32 {
      var i := TWO32 - e.base;
      assert BufferByte(e, i) == 0 && !InRegion(e, BufferByte(e, i));
    } else if size > 0 {
      forall i: int | 0 <= i < size ensures InRegion(e, BufferByte(e, i)) {
        assert BufferByte(e, i) == e.base + i;
      }
    }
  }

  /** For an image that is not empty: when the buffer lies in a suitable region and has room for the image. */
  lemma BufferSoundExactly(e: Entry, size: Dword)
    requires Suitable(e, size) && size >= 1
    ensures BufferInRegion(e) && size <= e.size % TWO32 <==> size <= e.size % TWO32 <= TWO32 - e.base
    ensures e.base + e.size <= TWO32 && e.size < TWO32 ==> BufferInRegion(e) && size <= e.size % TWO32
  {
    RegionNarrowing(e);
    hide BufferInRegion;
  }

  /**
   Suitable regions whose buffers fail: one wraps past 4 GiB to address zero, one starts above 4 GiB and
   is written below it, and one of exactly 4 GiB gives a buffer of no bytes for an image of 96 KiB.
   */
  lemma NarrowingFails()
    ensures var e := Entry(0xFFFF_0000, 0x2_0000, 1, 0);
            Suitable(e, 0x1_8000) && BufferByte(e, 0x1_0000) == 0 && !BufferInRegion(e)
    ensures var e := Entry(0x1_0010_0000, 0x2_0000, 1, 0); Suitable(e, 0x1_8000) && !BufferInRegion(e)
    ensures var e := Entry(0x10_0000, 0x1_0000_0000, 1, 0); Suitable(e, 0x1_8000) && e.size % TWO32 == 0
  {
    RegionNarrowing(Entry(0xFFFF_0000, 0x2_0000, 1, 0));
    RegionNarrowing(Entry(0x1_0010_0000, 0x2_0000, 1, 0));
    hide BufferInRegion;
  }

  /** The main program halts exactly for the errors that carry a code. */
  lemma HaltsExactly(f: Firmware)
    ensures BootExit(f).Halted? <==>
            || f.init != SUCCESS
            || (Collect(f.bios, 0).Broken? && Collect(f.bios, 0).error != MapOverflow)
            || (Collect(f.bios, 0).Complete? && f.dhcp.status != SUCCESS)
            || ImageError(f).DownloadFailed?
  {
    CollectError(f.bios, 0);
  }

  /** The code it halts with is the status of the first service that fails, as that service gave it. */
  lemma HaltCodes(f: Firmware, k: nat)
    ensures f.init != SUCCESS ==> BootExit(f) == Halted(f.init)
    ensures f.init == SUCCESS && k < CAPACITY && (forall i :: 0 <= i < k ==> Continues(f.bios, i)) && f.bios(k).status != 0 ==>
              BootExit(f) == Halted(f.bios(k).status)
    ensures f.init == SUCCESS && Collect(f.bios, 0).Complete? && f.dhcp.status != SUCCESS ==>
              BootExit(f) == Halted(f.dhcp.status)
    ensures f.init == SUCCESS && Collect(f.bios, 0).Complete? && f.dhcp.status == SUCCESS && f.query.Answered()
            && f.query.size >= 1 && Fits(f) && f.download.Status() != SUCCESS ==>
              BootExit(f) == Halted(f.download.Status())
    ensures BootExit(f) == Exited || BootExit(f).code != 0
  {
    if k < CAPACITY && (forall i :: 0 <= i < k ==> Continues(f.bios, i)) && f.bios(k).status != 0 {
      CollectFails(f.bios, 0, k);
    }
    hide Collect, FirstFit, AcquiredMap;
  }

  lemma {:induction false} CollectFails(bios: nat -> BiosReply, k: nat, at: nat)
    requires k <= at < CAPACITY && (forall i :: k <= i < at ==> Continues(bios, i)) && bios(at).status != 0
    ensures Collect(bios, k) == Broken(MapFailed(bios(at).status), at + 1)
    decreases at - k
  {
    if k < at {
      assert Continues(bios, k);
      CollectFails(bios, k + 1, at);
    }
  }

  lemma {:induction false} CollectError(bios: nat -> BiosReply, k: nat)
    requires k <= CAPACITY
    ensures Collect(bios, k).Broken? ==>
              var e := Collect(bios, k).error;
              (e == MapOverflow && Collect(bios, k).queries == CAPACITY) || (e.MapFailed? && e.code != 0)
    decreases CAPACITY - k
  {
    if k < CAPACITY && Continues(bios, k) {
      CollectError(bios, k + 1);
    }
  }

  /** The image is in memory: every step to the download succeeded and the firmware made it. */
  predicate Loaded(f: Firmware) {
    && f.init == SUCCESS && Narrowed(AcquireError(f)) == 0 && ImageError(f) == NoError && f.download.Answered()
  }

  /**
   The main program reports success without an image exactly when the map overflows, or the map is
   complete and the firmware gives no image size, or no region fits, or the download finds no cached
   packet although asking for it succeeds: these errors lose their category to the 16-bit status.
   */
  lemma SilentFailureExactly(f: Firmware)
    ensures BootExit(f) == Exited && !Loaded(f) <==>
            && f.init == SUCCESS
            && (|| Collect(f.bios, 0) == Broken(MapOverflow, CAPACITY)
                || (&& Collect(f.bios, 0).Complete? && f.dhcp.status == SUCCESS
                    && (|| !f.query.Answered() || f.query.size == 0 || !Fits(f)
                        || (f.download.cached.status == SUCCESS && !f.download.cached.present))))
    ensures Loaded(f) ==> BootExit(f) == Exited && Collect(f.bios, 0).Complete? && f.dhcp.status == SUCCESS
  {
    CollectError(f.bios, 0);
    hide Collect, FirstFit;
  }
}
