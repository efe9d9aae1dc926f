/**
 Collecting the BIOS memory map (INT 15h, E820h, section 15.1 of the ACPI specification) into a table
 of 32 entries, and finding the first region of extended memory that is large enough.
 */
module MemoryMap {
  import opened Words

  const CAPACITY: nat := 32

  datatype Entry = Entry(base: Qword, size: Qword, kind: Dword, attr: Dword)

  /** A reply to one query: a status, what the query leaves in the entry, and the continuation. */
  datatype BiosReply = BiosReply(status: Word, entry: Entry, next: Dword)

  /** Errors as the loader forms them: a category, and a code where there is one. */
  datatype Error = NoError | MapFailed(code: Word) | MapOverflow | DhcpFailed(code: Word) | NotEnoughMemory
                 | ImageBadOrNotFound | DownloadFailed(code: Word)

  /** The 32-bit value of an error: its category in the high word and its code in the low word. */
  function MakeError(e: Error): Dword {
    match e
    case NoError => 0
    case MapFailed(code) => 0x4_0000 + code
    case MapOverflow => 0x5_0000
    case DhcpFailed(code) => 0x6_0000 + code
    case NotEnoughMemory => 0x7_0000
    case ImageBadOrNotFound => 0x8_0000
    case DownloadFailed(code) => 0x9_0000 + code
  }

  /** What the collection comes to after `k` queries that all asked to continue. */
  datatype Collected = Complete(count: nat) | Broken(error: Error, queries: nat)

  function Collect(bios: nat -> BiosReply, k: nat): (c: Collected)
    requires k <= CAPACITY
    decreases CAPACITY - k
  {
    if k == CAPACITY then Broken(MapOverflow, CAPACITY)
    else if bios(k).status != 0 then Broken(MapFailed(bios(k).status), k + 1)
    else if bios(k).next == 0 then Complete(k + 1)
    else Collect(bios, k + 1)
  }

  lemma CollectStep(bios: nat -> BiosReply, k: nat)
    requires k <= CAPACITY
    ensures Collect(bios, k) ==
            if k == CAPACITY then Broken(MapOverflow, CAPACITY)
            else if bios(k).status != 0 then Broken(MapFailed(bios(k).status), k + 1)
            else if bios(k).next == 0 then Complete(k + 1)
            else Collect(bios, k + 1)
  {
  }

  /** Query `k` succeeds and asks for another. */
  predicate Continues(bios: nat -> BiosReply, k: nat) {
    bios(k).status == 0 && bios(k).next != 0
  }

  /**
   The map is complete with `n` entries exactly when the first `n` queries, at most 32, succeed and the
   last of them is the first that does not ask for another; an error is the status of the first failing
   query, which is the last made, or the overflow after 32 queries that all ask for more.
   */
  lemma {:induction false} CollectExactly(bios: nat -> BiosReply, k: nat, n: nat)
    requires k <= CAPACITY
    ensures Collect(bios, k) == Complete(n) <==>
            && k < n <= CAPACITY && (forall i :: k <= i < n - 1 ==> Continues(bios, i))
            && bios(n - 1).status == 0 && bios(n - 1).next == 0
    ensures Collect(bios, k).Broken? && Collect(bios, k).error == MapOverflow <==>
            (forall i :: k <= i < CAPACITY ==> Continues(bios, i))
    ensures Collect(bios, k).Broken? ==>
              var q := Collect(bios, k).queries;
              && k <= q <= CAPACITY
              && if Collect(bios, k).error == MapOverflow then q == 32
                 else
                   && q > k && bios(q - 1).status != 0 && Collect(bios, k).error == MapFailed(bios(q - 1).status)
                   && forall i :: k <= i < q - 1 ==> Continues(bios, i)
    decreases CAPACITY - k
  {
    if k < CAPACITY && Continues(bios, k) {
      CollectExactly(bios, k + 1, n);
    }
  }

  /** A region the loader can use for `size` bytes: at or above 1 MiB, available, and large enough. */
  predicate Suitable(e: Entry, size: Dword) {
    e.base >= 0x10_0000 && e.kind == 1 && e.size >= size
  }

  /** The part of the system information that the loader fills in. */
  class SystemInfo {
    var count: Word
    const data: array<Entry>
    var imageAddress: Dword
    var imageSize: Dword

    constructor ()
      ensures fresh(data) && data.Length == CAPACITY
    {
      data := new Entry[CAPACITY](i => Entry(0, 0, 0, 0));
      count, imageAddress, imageSize := 0, 0, 0;
    }

    ghost predicate Valid()
      reads this
    {
      data.Length == CAPACITY && count <= CAPACITY
    }

    ghost function Map(): seq<Entry>
      requires Valid()
      reads this, data
    {
      data[..count]
    }

    /** Everything is set to zero. */
    method Clear()
      requires Valid()
      modifies this, data
      ensures Valid() && count == 0 && imageAddress == 0 && imageSize == 0
    {
      forall i | 0 <= i < data.Length {
        data[i] := Entry(0, 0, 0, 0);
      }
      count, imageAddress, imageSize := 0, 0, 0;
    }

    /** The query loop. On success the map is the replies in order; on any error it is empty. */
    method AcquireMemoryMap(bios: nat -> BiosReply) returns (error: Error, queries: nat)
      requires Valid()
      modifies this`count, data
      ensures Valid() && queries <= CAPACITY
      ensures match Collect(bios, 0)
              case Complete(n) => error == NoError && queries == n && Map() == seq(n, i requires 0 <= i => bios(i).entry)
              case Broken(e, q) => error == e && error != NoError && queries == q && Map() == []
    {
      hide Collect;
      count := 0;
      forall i | 0 <= i < data.Length {
        data[i] := Entry(0, 0, 0, 0);
      }
      var index: nat := 0;
      var more := true;
      while more
        invariant 0 <= index <= CAPACITY && count == 0
        invariant forall i :: 0 <= i < index ==> data[i] == bios(i).entry
        invariant if more then Collect(bios, 0) == Collect(bios, index) else Collect(bios, 0) == Complete(index)
        decreases if more then CAPACITY - index + 1 else 0
      {
        CollectStep(bios, index);
        if index >= CAPACITY {
          return MapOverflow, index;
        }
        var reply := bios(index);
        data[index] := reply.entry;
        if reply.status != 0 {
          return MapFailed(reply.status), index + 1;
        }
        index := index + 1;
        more := reply.next != 0;
      }
      count := index;
      return NoError, index;
    }

    /** The index of the first suitable entry. */
    method LocateExtendedMemory(size: Dword) returns (found: bool, at: nat)
      requires Valid()
      ensures found ==>
                && at < count && data[at].base >= 0x10_0000 && data[at].kind == 1 && data[at].size >= size
                && forall i :: 0 <= i < at ==> data[i].base < 0x10_0000 || data[i].kind != 1 || data[i].size < size
      ensures !found ==>
                forall i :: 0 <= i < count ==> data[i].base < 0x10_0000 || data[i].kind != 1 || data[i].size < size
    {
      at := 0;
      while at < count
        invariant 0 <= at <= count
        invariant forall i :: 0 <= i < at ==> data[i].base < 0x10_0000 || data[i].kind != 1 || data[i].size < size
      {
        var e := data[at];
        if e.base < 0x10_0000 || e.kind != 1 || e.size < size {
          at := at + 1;
          continue;
        }
        return true, at;
      }
      return false, at;
    }
  }
}
