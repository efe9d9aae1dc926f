/**
 The PXE calls the loader makes. The firmware is an arbitrary source of replies; every call that
 reaches its entry point is recorded as an event.
 */
module Pxe {
  import opened Words

  const SUCCESS: Word := 0
  const CANT_DOWNLOAD_EMPTY: Word := 0xFFF9
  const UNEXPECTED_PACKET_LENGTH: Word := 0xFFF8
  const UNEXPECTED_PACKET_NUMBER: Word := 0xFFF7
  const BUFFER_NOT_LARGE_ENOUGH: Word := 0xFFF6

  /** The calls that reach the firmware, and the calls of the update function. */
  datatype Event =
    | GetCachedInfo
    | GetFileSize
    | ReadFile(buffer: Dword, size: Dword)
    | Open(packetSize: Word)
    | Read
    | Close
    | Update(hint: Dword, total: Dword)

  /** The answer to a request for the cached boot packet: a status, and whether a packet was returned. */
  datatype Cached = Cached(status: Word, present: bool) {
    predicate Usable() {
      status == SUCCESS && present
    }
  }

  /** A call that needs the cached packet first: `status` and `size` are the call's own reply. */
  datatype Reply = Reply(cached: Cached, status: Word, size: Dword) {
    /** Without a cached packet the caller gets the status of asking for it, which may be success. */
    function Status(): Word {
      if cached.Usable() then status else cached.status
    }

    predicate Answered() {
      cached.Usable() && status == SUCCESS
    }

    function Trace(call: Event): seq<Event> {
      if cached.Usable() then [GetCachedInfo, call] else [GetCachedInfo]
    }
  }

  /** The status is success without the call having been made exactly when the packet is missing. */
  lemma SuccessWithoutCall(r: Reply)
    ensures r.Status() == SUCCESS && !r.Answered() <==> r.cached.status == SUCCESS && !r.cached.present
  {
  }

  /** The caller's view of a PXE client: its calls so far. */
  class Client {
    var trace: seq<Event>

    constructor ()
      ensures trace == []
    {
      trace := [];
    }

    method GetCached(reply: Cached) returns (status: Word, present: bool)
      modifies this
      ensures trace == old(trace) + [GetCachedInfo]
      ensures status == reply.status && present == (reply.status == SUCCESS && reply.present)
    {
      trace := trace + [GetCachedInfo];
      if reply.status != SUCCESS {
        return reply.status, false;
      }
      return SUCCESS, reply.present;
    }

    /** A call behind the cached packet. */
    method Call(call: Event, reply: Reply) returns (status: Word, made: bool)
      modifies this
      ensures trace == old(trace) + reply.Trace(call)
      ensures status == reply.Status() && made == reply.cached.Usable()
      ensures made <==> reply.cached.status == 0 && reply.cached.present
      ensures status == if made then reply.status else reply.cached.status
    {
      var present: bool;
      status, present := GetCached(reply.cached);
      if status != SUCCESS || !present {
        return status, false;
      }
      trace := trace + [call];
      assert [GetCachedInfo] + [call] == [GetCachedInfo, call];
      return reply.status, true;
    }

    /** The file size, or the size the caller passed in when the firmware gives none. */
    method QuerySize(reply: Reply, before: Dword) returns (status: Word, size: Dword)
      modifies this
      ensures trace == old(trace) + reply.Trace(GetFileSize)
      ensures status == reply.Status()
      ensures size == if reply.Answered() then reply.size else before
      ensures reply.Answered() <==> reply.cached.status == 0 && reply.cached.present && reply.status == 0
    {
      var made: bool;
      size := before;
      status, made := Call(GetFileSize, reply);
      if made && status == SUCCESS {
        size := reply.size;
      }
    }

    /** The one-shot download into a buffer; the size is only set when the call succeeds. */
    method Download(reply: Reply, target: Dword, targetSize: Dword, before: Dword) returns (status: Word, size: Dword)
      modifies this
      ensures trace == old(trace) + reply.Trace(ReadFile(target, targetSize))
      ensures status == reply.Status()
      ensures size == if reply.Answered() then reply.size else before
    {
      var made: bool;
      size := before;
      status, made := Call(ReadFile(target, targetSize), reply);
      if made && status == SUCCESS {
        size := reply.size;
      }
    }
  }
}
