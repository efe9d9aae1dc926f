/**
 The lock-step TFTP download: packets are read into a static buffer, checked, and copied behind each
 other into the target until the expected size is reached. Block numbers start at one and increase by
 one (section 5 of RFC 1350), modulo 2^16.
 */
module Download {
  import opened Words
  import opened FlatMemory
  import opened Pxe

  const BUFFER_SIZE: Word := 1456

  /** What a read leaves in the buffer: the length is reported in 16 bits. */
  type Payload = d: seq<Byte> | |d| <= 0xFFFF

  /** One turn of the loop: the firmware's reply to the read, and the update function's status. */
  datatype Round = Round(status: Word, number: Word, size: Word, data: Payload, update: Word)

  /** The caller's arguments, and the buffer's linear address, which real mode keeps below 10FFF0h. */
  datatype Job = Job(target: Dword, targetSize: Dword, hint: Dword, buffer: Dword)

  predicate Valid(job: Job) {
    job.buffer <= 0x10_FFEF
  }

  /** The loop's variables; `stored` counts the packets copied to the target. */
  datatype State = State(mem: Memory, total: Dword, last: Word, stored: nat, trace: seq<Event>)

  datatype Verdict = Filled | Starved | Stopped(status: Word)

  datatype Result = Result(state: State, verdict: Verdict)

  /** The loop body for one reply. */
  function Turn(job: Job, s: State, r: Round): (result: Result)
    requires Valid(job)
    ensures !result.verdict.Filled?
  {
    var read := s.(mem := Stored(s.mem, job.buffer, r.data), trace := s.trace + [Read]);
    if r.status != SUCCESS then Result(read, Stopped(r.status))
    else if r.number != Add16(s.last, 1) then Result(read, Stopped(UNEXPECTED_PACKET_NUMBER))
    else if r.size < 1 then Result(read, Stopped(UNEXPECTED_PACKET_LENGTH))
    else if Up(s.total, r.size) > job.targetSize then Result(read, Stopped(BUFFER_NOT_LARGE_ENOUGH))
    else
      var total := Up(s.total, r.size);
      var next := State(FlatCopied(read.mem, Up(job.target, s.total), job.buffer, r.size), total, r.number,
                        s.stored + 1, read.trace + [Update(job.hint, total)]);
      Result(next, if r.update != SUCCESS then Stopped(r.update) else Starved)
  }

  /** The loop over the replies it is given; it starves when the firmware has not answered yet. */
  function Loop(job: Job, s: State, rounds: seq<Round>): Result
    requires Valid(job)
    decreases |rounds|
  {
    if s.total >= job.hint then Result(s, Filled)
    else if rounds == [] then Result(s, Starved)
    else
      var turn := Turn(job, s, rounds[0]);
      if turn.verdict.Stopped? then turn else Loop(job, turn.state, rounds[1..])
  }

  /** The state in which the loop starts. */
  function Start(m: Memory, trace: seq<Event>): State {
    State(m, 0, 0, 0, trace)
  }

  // ---- The program ----

  /** All replies of a run; `contents` is what the firmware's own file transfer receives. */
  datatype Replies = Replies(query: Reply, open: Reply, rounds: seq<Round>, close: Word, whole: Reply, contents: seq<Byte>)

  /** The part of a file that fits a buffer of `size` bytes. */
  function Delivered(contents: seq<Byte>, size: Dword): (r: seq<Byte>)
    ensures |r| == Min(|contents|, size)
  {
    if |contents| <= size then contents else contents[..size]
  }

  /** Byte `a` after `data` has been stored from `target` on, around the address space. */
  function FilledBufferByte(m: Memory, target: Dword, data: seq<Byte>, a: Dword): Byte {
    if Down(a, target) < |data| then data[Down(a, target)] else m[a]
  }

  function FilledBuffer(m: Memory, target: Dword, data: seq<Byte>): Memory {
    seq(TWO32, a requires 0 <= a < TWO32 => FilledBufferByte(m, target, data, a))
  }

  datatype Outcome = Waiting | Ended(status: Word, size: Dword)

  /** A download client: the PXE calls, memory, and the static buffer. */
  class Downloader {
    const mem: array<Byte>
    const client: Client

    constructor (mem: array<Byte>)
      ensures this.mem == mem && fresh(client) && client.trace == []
    {
      this.mem := mem;
      client := new Client();
    }

    /** PXENV_TFTP_READ: the firmware stores a packet in the buffer. */
    method TftpRead(buffer: Dword, r: Round) returns (status: Word, number: Word, size: Word)
      requires mem.Length == TWO32 && buffer <= 0x10_FFEF
      modifies mem, client
      ensures mem[..] == Stored(old(mem[..]), buffer, r.data)
      ensures client.trace == old(client.trace) + [Read]
      ensures status == r.status && (status == SUCCESS ==> number == r.number && size == r.size)
    {
      forall i | 0 <= i < |r.data| {
        mem[buffer + i] := r.data[i];
      }
      client.trace := client.trace + [Read];
      number, size := 0, 0;
      status := r.status;
      if status == SUCCESS {
        number, size := r.number, r.size;
      }
    }

    method TftpClose(reply: Word) returns (status: Word)
      modifies client
      ensures status == reply && client.trace == old(client.trace) + [Close]
    {
      client.trace := client.trace + [Close];
      return reply;
    }

    /** The download loop. */
    method ReadPackets(job: Job, rounds: seq<Round>) returns (verdict: Verdict, total: Dword)
      requires mem.Length == TWO32 && Valid(job)
      modifies mem, client
      ensures var result := Loop(job, Start(old(mem[..]), old(client.trace)), rounds);
              && verdict == result.verdict && total == result.state.total
              && mem[..] == result.state.mem && client.trace == result.state.trace
    {
      hide Up, FlatCopied, Stored;
      ghost var start := Start(mem[..], client.trace);
      var last: Word, k := 0, 0;
      total := 0;
      assert rounds[0..] == rounds;
      while total < job.hint
        invariant 0 <= k <= |rounds| && 0 <= total < TWO32 && 0 <= last < TWO16
        invariant Loop(job, State(mem[..], total, last, k, client.trace), rounds[k..]) == Loop(job, start, rounds)
        decreases |rounds| - k
      {
        if k == |rounds| {
          return Starved, total;
        }
        var r := rounds[k];
        assert rounds[k..][0] == r && rounds[k..][1..] == rounds[k + 1..];
        ghost var s := State(mem[..], total, last, k, client.trace);
        ghost var turn := Turn(job, s, r);
        var status, number, size := TftpRead(job.buffer, r);
        if status != SUCCESS {
          return Stopped(status), total;
        }
        if number != Add16(last, 1) {
          return Stopped(UNEXPECTED_PACKET_NUMBER), total;
        }
        if size < 1 {
          return Stopped(UNEXPECTED_PACKET_LENGTH), total;
        }
        if Up(total, size) > job.targetSize {
          return Stopped(BUFFER_NOT_LARGE_ENOUGH), total;
        }
        FlatCopy(mem, Up(job.target, total), job.buffer, size);
        total := Up(total, size);
        last := number;
        client.trace := client.trace + [Update(job.hint, total)];
        k := k + 1;
        assert turn.state == State(mem[..], total, last, k, client.trace);
        if r.update != SUCCESS {
          return Stopped(r.update), total;
        }
      }
      return Filled, total;
    }

    /** TFTP_READ_FILE behind the cached packet: the firmware receives the file into the target, up to its size. */
    method ReadWhole(job: Job, reply: Reply, contents: seq<Byte>, before: Dword) returns (status: Word, size: Dword)
      requires mem.Length == TWO32
      modifies mem, client
      ensures client.trace == old(client.trace) + reply.Trace(ReadFile(job.target, job.targetSize))
      ensures status == reply.Status() && size == if reply.Answered() then reply.size else before
      ensures mem[..] == if reply.cached.Usable()
                         then FilledBuffer(old(mem[..]), job.target, Delivered(contents, job.targetSize))
                         else old(mem[..])
    {
      hide Down, Delivered;
      status, size := client.Download(reply, job.target, job.targetSize, before);
      if reply.cached.Usable() {
        var data := Delivered(contents, job.targetSize);
        forall a | 0 <= a < TWO32 && Down(a, job.target) < |data| {
          mem[a] := data[Down(a, job.target)];
        }
      }
    }

    /** `PXE_download_with_status`: the outcome, and the size reported to the caller when it is set. */
    method DownloadWithStatus(job: Job, callback: bool, replies: Replies, before: Dword) returns (outcome: Outcome)
      requires mem.Length == TWO32 && Valid(job)
      modifies mem, client
      ensures var run := Run(job, callback, replies, before, old(mem[..]), old(client.trace));
              outcome == run.outcome && mem[..] == run.mem && client.trace == run.trace
    {
      hide Loop, FilledBuffer, Delivered;
      if !callback {
        var status, size := ReadWhole(job, replies.whole, replies.contents, before);
        return Ended(status, size);
      }
      var hint := job.hint;
      var status: Word;
      if hint == 0 {
        status, hint := client.QuerySize(replies.query, hint);
        if hint == 0 {
          return Ended(CANT_DOWNLOAD_EMPTY, before);
        }
        if hint > job.targetSize {
          return Ended(BUFFER_NOT_LARGE_ENOUGH, before);
        }
      }
      var made: bool;
      status, made := client.Call(Open(BUFFER_SIZE), replies.open);
      if status != SUCCESS {
        return Ended(status, before);
      }
      var verdict, total := ReadPackets(job.(hint := hint), replies.rounds);
      match verdict {
        case Starved => return Waiting;
        case Stopped(code) => return Ended(code, before);
        case Filled =>
      }
      status := TftpClose(replies.close);
      if status != SUCCESS {
        return Ended(status, before);
      }
      return Ended(status, total);
    }
  }

  /** A whole run: its outcome, the memory it leaves, and its calls. */
  datatype RunResult = RunResult(outcome: Outcome, mem: Memory, trace: seq<Event>)

  /** The expected size that the loop works towards: a zero hint is replaced by the firmware's answer. */
  function EffectiveHint(job: Job, replies: Replies): Dword {
    if job.hint != 0 then job.hint else if replies.query.Answered() then replies.query.size else 0
  }

  function Run(job: Job, callback: bool, replies: Replies, before: Dword, m: Memory, trace: seq<Event>): RunResult
    requires Valid(job)
  {
    if !callback then
      RunResult(Ended(replies.whole.Status(), if replies.whole.Answered() then replies.whole.size else before),
                if replies.whole.cached.Usable() then FilledBuffer(m, job.target, Delivered(replies.contents, job.targetSize))
                else m,
                trace + replies.whole.Trace(ReadFile(job.target, job.targetSize)))
    else
      var hint := EffectiveHint(job, replies);
      var asked := if job.hint == 0 then trace + replies.query.Trace(GetFileSize) else trace;
      if hint == 0 then RunResult(Ended(CANT_DOWNLOAD_EMPTY, before), m, asked)
      else if job.hint == 0 && hint > job.targetSize then RunResult(Ended(BUFFER_NOT_LARGE_ENOUGH, before), m, asked)
      else
        var connected := asked + replies.open.Trace(Open(BUFFER_SIZE));
        if replies.open.Status() != SUCCESS then RunResult(Ended(replies.open.Status(), before), m, connected)
        else
          var result := Loop(job.(hint := hint), Start(m, connected), replies.rounds);
          var s := result.state;
          match result.verdict
          case Starved => RunResult(Waiting, s.mem, s.trace)
          case Stopped(code) => RunResult(Ended(code, before), s.mem, s.trace)
          case Filled =>
            RunResult(Ended(replies.close, if replies.close == SUCCESS then s.total else before), s.mem, s.trace + [Close])
  }
}
