/**
 What a download run means: which packets are accepted, what they leave in memory, which calls are
 made, and when the loop ends.
 */
module DownloadProofs {
  import opened Words
  import opened FlatMemory
  import opened Pxe
  import opened Download

  // ---- Which packets are accepted ----

  /** The reported sizes of the first `n` packets together. */
  function Sum(rounds: seq<Round>, n: nat): nat
    requires n <= |rounds|
  {
    if n == 0 then 0 else Sum(rounds, n - 1) + rounds[n - 1].size
  }

  /** Why packet `i` is not stored, or success. */
  function Rejection(job: Job, rounds: seq<Round>, i: nat): Word
    requires i < |rounds|
  {
    var r := rounds[i];
    if r.status != SUCCESS then r.status
    else if r.number != (i + 1) % TWO16 then UNEXPECTED_PACKET_NUMBER
    else if r.size == 0 then UNEXPECTED_PACKET_LENGTH
    else if Sum(rounds, i + 1) > job.targetSize then BUFFER_NOT_LARGE_ENOUGH
    else SUCCESS
  }

  /** Packet `i` is asked for, stored, and not vetoed by the update function. */
  predicate Good(job: Job, rounds: seq<Round>, i: nat)
    requires i < |rounds|
  {
    Sum(rounds, i) < job.hint && Rejection(job, rounds, i) == SUCCESS && rounds[i].update == SUCCESS
  }

  /**
   A packet is accepted when it is read, has the next number modulo 2^16, is not empty, keeps the total
   within the target, and is not vetoed. Otherwise the first of these that fails gives the status.
   */
  lemma AcceptedExactly(job: Job, rounds: seq<Round>, i: nat)
    requires i < |rounds|
    ensures Good(job, rounds, i) <==>
            && Sum(rounds, i) < job.hint && rounds[i].status == 0 && rounds[i].number == (i + 1) % 0x1_0000
            && rounds[i].size >= 1 && Sum(rounds, i) + rounds[i].size <= job.targetSize && rounds[i].update == 0
    ensures var code, r := Rejection(job, rounds, i), rounds[i];
            && (r.status != 0 ==> code == r.status)
            && (r.status == 0 && r.number != (i + 1) % 0x1_0000 ==> code == 0xFFF7)
            && (r.status == 0 && r.number == (i + 1) % 0x1_0000 ==>
                  && (r.size == 0 ==> code == 0xFFF8)
                  && (r.size >= 1 && Sum(rounds, i) + r.size > job.targetSize ==> code == 0xFFF6))
  {
    assert Sum(rounds, i + 1) == Sum(rounds, i) + rounds[i].size;
    hide Sum;
  }

  predicate Accepts(job: Job, rounds: seq<Round>, n: nat) {
    n <= |rounds| && forall i :: 0 <= i < n ==> Good(job, rounds, i)
  }

  /** No packet of at most `most` bytes can carry the 32-bit total past 2^32. */
  predicate NoWrap(job: Job, most: Word) {
    Min(job.hint - 1, job.targetSize) + most < TWO32
  }

  predicate Sized(rounds: seq<Round>, most: Word) {
    forall i :: 0 <= i < |rounds| ==> rounds[i].size <= most
  }

  /** How many packets are accepted from packet `k` on. */
  function Reached(job: Job, rounds: seq<Round>, k: nat): (n: nat)
    requires k <= |rounds|
    ensures k <= n <= |rounds|
    ensures forall i :: k <= i < n ==> Good(job, rounds, i)
    ensures n == |rounds| || Sum(rounds, n) >= job.hint || !Good(job, rounds, n)
    decreases |rounds| - k
  {
    if k < |rounds| && Good(job, rounds, k) then Reached(job, rounds, k + 1) else k
  }

  /** The calls of `n` stored packets: each read is followed by an update with the new total. */
  function RoundsTrace(job: Job, rounds: seq<Round>, n: nat): seq<Event>
    requires n <= |rounds|
  {
    if n == 0 then [] else RoundsTrace(job, rounds, n - 1) + [Read, Update(job.hint, Sum(rounds, n) % TWO32)]
  }

  /** Memory after `n` stored packets. */
  function MemoryAfter(job: Job, m: Memory, rounds: seq<Round>, n: nat): Memory
    requires Valid(job) && n <= |rounds|
  {
    if n == 0 then m
    else
      FlatCopied(Stored(MemoryAfter(job, m, rounds, n - 1), job.buffer, rounds[n - 1].data),
                 Up(job.target, Sum(rounds, n - 1) % TWO32), job.buffer, rounds[n - 1].size)
  }

  /** The loop's variables after `n` stored packets. */
  function After(job: Job, m: Memory, trace: seq<Event>, rounds: seq<Round>, n: nat): State
    requires Valid(job) && n <= |rounds|
  {
    State(MemoryAfter(job, m, rounds, n), Sum(rounds, n) % TWO32, n % TWO16, n, trace + RoundsTrace(job, rounds, n))
  }

  /** The end of a loop in which packets below `n` were accepted and packet `n` was not. */
  function EndAt(job: Job, m: Memory, trace: seq<Event>, rounds: seq<Round>, n: nat): Result
    requires Valid(job) && n <= |rounds|
  {
    var s := After(job, m, trace, rounds, n);
    if Sum(rounds, n) >= job.hint then Result(s, Filled)
    else if n == |rounds| then Result(s, Starved)
    else
      var code := Rejection(job, rounds, n);
      if code != SUCCESS then
        Result(s.(mem := Stored(s.mem, job.buffer, rounds[n].data), trace := s.trace + [Read]), Stopped(code))
      else Result(After(job, m, trace, rounds, n + 1), Stopped(rounds[n].update))
  }

  lemma SumInRange(job: Job, rounds: seq<Round>, n: nat, most: Word)
    requires NoWrap(job, most) && Sized(rounds, most) && Accepts(job, rounds, n)
    ensures n <= Sum(rounds, n) < TWO32
    ensures n > 0 ==> Sum(rounds, n) <= job.targetSize && Sum(rounds, n - 1) < job.hint
    ensures n < |rounds| && Sum(rounds, n) < job.hint ==> Sum(rounds, n + 1) < TWO32
  {
    if n > 0 {
      assert Good(job, rounds, n - 1);
      SumInRange(job, rounds, n - 1, most);
    }
  }

  /** One turn from the state after `n` packets. */
  lemma TurnAfter(job: Job, m: Memory, trace: seq<Event>, rounds: seq<Round>, n: nat, most: Word)
    requires Valid(job) && NoWrap(job, most) && Sized(rounds, most) && Accepts(job, rounds, n)
    requires n < |rounds| && Sum(rounds, n) < job.hint
    ensures var turn := Turn(job, After(job, m, trace, rounds, n), rounds[n]);
            if Good(job, rounds, n) then !turn.verdict.Stopped? && turn.state == After(job, m, trace, rounds, n + 1)
            else turn == EndAt(job, m, trace, rounds, n)
  {
    SumInRange(job, rounds, n, most);
    TurnNumbers(rounds, n);
    hide NoWrap, Sized, Accepts, Turn, After, EndAt, Sum;
    if Good(job, rounds, n) {
      TurnStores(job, m, trace, rounds, n);
    } else {
      TurnEnds(job, m, trace, rounds, n);
    }
  }

  /** A packet that is accepted leads to the next state. */
  lemma TurnStores(job: Job, m: Memory, trace: seq<Event>, rounds: seq<Round>, n: nat)
    requires Valid(job) && n < |rounds| && Good(job, rounds, n) && Sum(rounds, n + 1) < TWO32
    ensures var turn := Turn(job, After(job, m, trace, rounds, n), rounds[n]);
            !turn.verdict.Stopped? && turn.state == After(job, m, trace, rounds, n + 1)
  {
    TurnNumbers(rounds, n);
    AfterNext(job, m, trace, rounds, n);
    hide FlatCopied, Stored, Up, Add16, Sum, MemoryAfter, RoundsTrace, Valid;
  }

  /** A packet that is refused, or vetoed once it is stored, ends the loop. */
  lemma TurnEnds(job: Job, m: Memory, trace: seq<Event>, rounds: seq<Round>, n: nat)
    requires Valid(job) && n < |rounds| && !Good(job, rounds, n) && Sum(rounds, n) < job.hint
    requires Sum(rounds, n + 1) < TWO32
    ensures Turn(job, After(job, m, trace, rounds, n), rounds[n]) == EndAt(job, m, trace, rounds, n)
  {
    TurnNumbers(rounds, n);
    AfterNext(job, m, trace, rounds, n);
    hide FlatCopied, Stored, Up, Add16, Sum, MemoryAfter, RoundsTrace, Valid;
  }

  lemma TurnNumbers(rounds: seq<Round>, n: nat)
    requires n < |rounds| && Sum(rounds, n + 1) < TWO32
    ensures Sum(rounds, n) % TWO32 == Sum(rounds, n) && Sum(rounds, n + 1) % TWO32 == Sum(rounds, n + 1)
    ensures Up(Sum(rounds, n), rounds[n].size) == Sum(rounds, n + 1)
    ensures Add16(n % TWO16, 1) == (n + 1) % TWO16
  {
  }

  lemma AfterNext(job: Job, m: Memory, trace: seq<Event>, rounds: seq<Round>, n: nat)
    requires Valid(job) && n < |rounds|
    ensures MemoryAfter(job, m, rounds, n + 1) ==
            FlatCopied(Stored(MemoryAfter(job, m, rounds, n), job.buffer, rounds[n].data),
                       Up(job.target, Sum(rounds, n) % TWO32), job.buffer, rounds[n].size)
    ensures trace + RoundsTrace(job, rounds, n) + [Read] + [Update(job.hint, Sum(rounds, n + 1) % TWO32)] ==
            trace + RoundsTrace(job, rounds, n + 1)
  {
    hide FlatCopied, Stored, Up, Sum;
  }

  /** One turn of the loop over the replies from `k` on. */
  lemma LoopStep(job: Job, s: State, rounds: seq<Round>, k: nat)
    requires Valid(job) && k <= |rounds|
    ensures Loop(job, s, rounds[k..]) ==
            if s.total >= job.hint then Result(s, Filled)
            else if k == |rounds| then Result(s, Starved)
            else
              var turn := Turn(job, s, rounds[k]);
              if turn.verdict.Stopped? then turn else Loop(job, turn.state, rounds[k + 1..])
  {
    hide Turn;
    if k < |rounds| {
      assert rounds[k..][0] == rounds[k] && rounds[k..][1..] == rounds[k + 1..];
    }
  }

  /** The loop, from any accepted prefix on, ends at the first packet that is not accepted. */
  lemma {:induction false} LoopFrom(job: Job, m: Memory, trace: seq<Event>, rounds: seq<Round>, k: nat, most: Word)
    requires Valid(job) && NoWrap(job, most) && Sized(rounds, most) && Accepts(job, rounds, k)
    ensures Loop(job, After(job, m, trace, rounds, k), rounds[k..]) == EndAt(job, m, trace, rounds, Reached(job, rounds, k))
    decreases |rounds| - k
  {
    ReachedStep(job, rounds, k);
    GoodInHint(job, rounds, k);
    if k < |rounds| && Good(job, rounds, k) {
      AcceptsNext(job, rounds, k);
      LoopFrom(job, m, trace, rounds, k + 1, most);
      LoopGoesOn(job, m, trace, rounds, k, most);
    } else if k < |rounds| && Sum(rounds, k) < job.hint {
      LoopStops(job, m, trace, rounds, k, most);
    } else {
      LoopRests(job, m, trace, rounds, k, most);
    }
    hide *;
  }

  lemma GoodInHint(job: Job, rounds: seq<Round>, k: nat)
    ensures k < |rounds| && Good(job, rounds, k) ==> Sum(rounds, k) < job.hint
  {
    hide Sum, Rejection;
  }

  lemma AcceptsNext(job: Job, rounds: seq<Round>, k: nat)
    requires k < |rounds| && Accepts(job, rounds, k) && Good(job, rounds, k)
    ensures Accepts(job, rounds, k + 1)
  {
    hide Good;
  }

  lemma LoopGoesOn(job: Job, m: Memory, trace: seq<Event>, rounds: seq<Round>, k: nat, most: Word)
    requires Valid(job) && NoWrap(job, most) && Sized(rounds, most) && Accepts(job, rounds, k)
    requires k < |rounds| && Good(job, rounds, k) && Sum(rounds, k) < job.hint
    ensures Loop(job, After(job, m, trace, rounds, k), rounds[k..]) ==
            Loop(job, After(job, m, trace, rounds, k + 1), rounds[k + 1..])
  {
    SumInRange(job, rounds, k, most);
    AfterTotal(job, m, trace, rounds, k);
    TurnAfter(job, m, trace, rounds, k, most);
    hide *;
    LoopStep(job, After(job, m, trace, rounds, k), rounds, k);
  }

  lemma LoopStops(job: Job, m: Memory, trace: seq<Event>, rounds: seq<Round>, k: nat, most: Word)
    requires Valid(job) && NoWrap(job, most) && Sized(rounds, most) && Accepts(job, rounds, k)
    requires k < |rounds| && !Good(job, rounds, k) && Sum(rounds, k) < job.hint
    ensures Loop(job, After(job, m, trace, rounds, k), rounds[k..]) == EndAt(job, m, trace, rounds, k)
  {
    SumInRange(job, rounds, k, most);
    AfterTotal(job, m, trace, rounds, k);
    TurnAfter(job, m, trace, rounds, k, most);
    EndStops(job, m, trace, rounds, k);
    hide *;
    LoopStep(job, After(job, m, trace, rounds, k), rounds, k);
  }

  lemma LoopRests(job: Job, m: Memory, trace: seq<Event>, rounds: seq<Round>, k: nat, most: Word)
    requires Valid(job) && NoWrap(job, most) && Sized(rounds, most) && Accepts(job, rounds, k)
    requires k == |rounds| || (k < |rounds| && Sum(rounds, k) >= job.hint)
    ensures Loop(job, After(job, m, trace, rounds, k), rounds[k..]) == EndAt(job, m, trace, rounds, k)
  {
    SumInRange(job, rounds, k, most);
    AfterTotal(job, m, trace, rounds, k);
    EndRests(job, m, trace, rounds, k);
    hide *;
    LoopStep(job, After(job, m, trace, rounds, k), rounds, k);
  }

  lemma AfterTotal(job: Job, m: Memory, trace: seq<Event>, rounds: seq<Round>, k: nat)
    requires Valid(job) && k <= |rounds| && Sum(rounds, k) < TWO32
    ensures After(job, m, trace, rounds, k).total == Sum(rounds, k)
  {
    hide Sum, MemoryAfter, RoundsTrace;
  }

  lemma ReachedStep(job: Job, rounds: seq<Round>, k: nat)
    requires k <= |rounds|
    ensures k == |rounds| || Sum(rounds, k) >= job.hint || !Good(job, rounds, k) ==> Reached(job, rounds, k) == k
    ensures k < |rounds| && Good(job, rounds, k) ==> Reached(job, rounds, k) == Reached(job, rounds, k + 1)
  {
    hide Rejection, Sum;
  }

  lemma EndRests(job: Job, m: Memory, trace: seq<Event>, rounds: seq<Round>, n: nat)
    requires Valid(job) && n <= |rounds| && (n == |rounds| || Sum(rounds, n) >= job.hint)
    ensures EndAt(job, m, trace, rounds, n) ==
            Result(After(job, m, trace, rounds, n), if Sum(rounds, n) >= job.hint then Filled else Starved)
  {
    hide After, Sum;
  }

  lemma EndStops(job: Job, m: Memory, trace: seq<Event>, rounds: seq<Round>, n: nat)
    requires Valid(job) && n < |rounds| && Sum(rounds, n) < job.hint
    ensures EndAt(job, m, trace, rounds, n).verdict.Stopped?
  {
    hide After, Sum, Rejection, Stored;
  }

  /** The whole loop: its result follows from the number of packets accepted. */
  lemma LoopEnds(job: Job, m: Memory, trace: seq<Event>, rounds: seq<Round>, most: Word)
    requires Valid(job) && NoWrap(job, most) && Sized(rounds, most)
    ensures Loop(job, Start(m, trace), rounds) == EndAt(job, m, trace, rounds, Reached(job, rounds, 0))
  {
    StartAfter(job, m, trace, rounds);
    hide *;
    assert rounds[0..] == rounds;
    LoopFrom(job, m, trace, rounds, 0, most);
  }

  lemma StartAfter(job: Job, m: Memory, trace: seq<Event>, rounds: seq<Round>)
    requires Valid(job)
    ensures After(job, m, trace, rounds, 0) == Start(m, trace)
    ensures Accepts(job, rounds, 0)
  {
  }

  // ---- Success ----

  /** The first `n` packets are accepted and reach the expected size. */
  predicate Completes(job: Job, rounds: seq<Round>, n: nat) {
    n <= |rounds| && Accepts(job, rounds, n) && Sum(rounds, n) >= job.hint
  }

  /**
   The loop fills the target exactly when the accepted packets reach the hint; the total is then the
   sum of their sizes, between the hint and the target's size.
   */
  lemma FilledExactly(job: Job, m: Memory, trace: seq<Event>, rounds: seq<Round>, most: Word)
    requires Valid(job) && NoWrap(job, most) && Sized(rounds, most) && job.hint > 0
    ensures var result := Loop(job, Start(m, trace), rounds);
            && (result.verdict.Filled? <==> exists n :: Completes(job, rounds, n))
            && (result.verdict.Filled? ==>
                  && Completes(job, rounds, result.state.stored)
                  && result.state.total == Sum(rounds, result.state.stored)
                  && job.hint <= result.state.total <= job.targetSize)
  {
    LoopEnds(job, m, trace, rounds, most);
    EndKinds(job, m, trace, rounds, Reached(job, rounds, 0));
    ReachedCompletes(job, rounds);
    ReachedSum(job, rounds, most);
    hide *;
  }

  lemma ReachedSum(job: Job, rounds: seq<Round>, most: Word)
    requires NoWrap(job, most) && Sized(rounds, most) && job.hint > 0
    ensures var n := Reached(job, rounds, 0);
            && (Completes(job, rounds, n) <==> Sum(rounds, n) >= job.hint)
            && Sum(rounds, n) % TWO32 == Sum(rounds, n)
            && (Completes(job, rounds, n) ==> job.hint <= Sum(rounds, n) <= job.targetSize)
  {
    var n := Reached(job, rounds, 0);
    SumInRange(job, rounds, n, most);
    hide Reached, Good;
  }

  /** If any number of packets completes, it is the number the loop reaches. */
  lemma ReachedCompletes(job: Job, rounds: seq<Round>)
    ensures Accepts(job, rounds, Reached(job, rounds, 0))
    ensures forall i :: Completes(job, rounds, i) ==> i == Reached(job, rounds, 0)
  {
    hide Reached, Sum, Rejection;
    var n := Reached(job, rounds, 0);
    forall i | Completes(job, rounds, i) ensures i == n {
      assert i < n ==> Good(job, rounds, i);
      assert n < i ==> Good(job, rounds, n);
    }
  }

  lemma EndKinds(job: Job, m: Memory, trace: seq<Event>, rounds: seq<Round>, n: nat)
    requires Valid(job) && n <= |rounds|
    requires n == |rounds| || Sum(rounds, n) >= job.hint || !Good(job, rounds, n)
    ensures var end := EndAt(job, m, trace, rounds, n);
            && (end.verdict.Filled? <==> Sum(rounds, n) >= job.hint)
            && (end.verdict.Starved? <==> n == |rounds| && Sum(rounds, n) < job.hint)
            && (end.verdict.Stopped? ==> end.verdict.status != SUCCESS)
            && (end.verdict.Filled? ==> end.state.stored == n && end.state.total == Sum(rounds, n) % TWO32)
  {
    AfterFields(job, m, trace, rounds, n);
    hide After, Sum;
  }

  lemma AfterFields(job: Job, m: Memory, trace: seq<Event>, rounds: seq<Round>, n: nat)
    requires Valid(job) && n <= |rounds|
    ensures var s := After(job, m, trace, rounds, n);
            && s.stored == n && s.total == Sum(rounds, n) % TWO32
            && s.mem == MemoryAfter(job, m, rounds, n) && s.trace == trace + RoundsTrace(job, rounds, n)
  {
  }

  // ---- What lies in memory ----

  /** The target range does not wrap and does not meet the static buffer. */
  predicate Separate(job: Job) {
    && job.target + job.targetSize <= TWO32
    && (job.buffer + BUFFER_SIZE <= job.target || job.target + job.targetSize <= job.buffer)
  }

  /** Each read stores at most a buffer, and a successful one stores as many bytes as it reports. */
  predicate FitsBuffer(r: Round) {
    |r.data| <= BUFFER_SIZE && r.size <= BUFFER_SIZE && (r.status == SUCCESS ==> |r.data| == r.size)
  }

  predicate AllFit(rounds: seq<Round>) {
    forall i :: 0 <= i < |rounds| ==> FitsBuffer(rounds[i])
  }

  predicate InBuffer(job: Job, a: int) {
    job.buffer <= a < job.buffer + BUFFER_SIZE
  }

  /** The first `n` packets are stored; the last of them may still be vetoed by the update function. */
  predicate StoredUpTo(job: Job, rounds: seq<Round>, n: nat) {
    n <= |rounds| && forall i :: 0 <= i < n ==> Rejection(job, rounds, i) == SUCCESS
  }

  /** The contents of the first `n` packets in a row. */
  function Contents(rounds: seq<Round>, n: nat): seq<Byte>
    requires n <= |rounds|
  {
    if n == 0 then [] else Contents(rounds, n - 1) + rounds[n - 1].data
  }

  /** `after` holds `content` at the target; outside it and the buffer it is `before`. */
  ghost predicate TargetHolds(job: Job, before: Memory, after: Memory, content: seq<Byte>) {
    && |content| <= job.targetSize
    && forall a: int :: 0 <= a < TWO32 && !InBuffer(job, a) ==>
         after[a] == if job.target <= a < job.target + |content| then content[a - job.target] else before[a]
  }

  /** ... and the content is that of the first `n` packets. */
  ghost predicate Holds(job: Job, before: Memory, after: Memory, rounds: seq<Round>, n: nat)
    requires n <= |rounds|
  {
    |Contents(rounds, n)| == Sum(rounds, n) && TargetHolds(job, before, after, Contents(rounds, n))
  }

  lemma StoredByte(m: Memory, buffer: Dword, data: seq<Byte>, a: int)
    requires buffer + |data| <= TWO32 && 0 <= a < TWO32
    ensures Stored(m, buffer, data)[a] == if buffer <= a < buffer + |data| then data[a - buffer] else m[a]
  {
  }

  /** A packet stored in the buffer and copied from it. */
  lemma CopiedByte(m: Memory, target: Dword, buffer: Dword, data: seq<Byte>, a: int)
    requires target + |data| <= TWO32 && buffer + |data| <= TWO32 && 0 < |data| && 0 <= a < TWO32 && |data| < TWO32
    requires !(buffer <= a < buffer + |data|)
    ensures FlatCopied(Stored(m, buffer, data), target, buffer, |data|)[a] ==
            if target <= a < target + |data| then data[a - target] else m[a]
  {
    var filled := Stored(m, buffer, data);
    CopyMovesByte(filled, target, buffer, |data|, a);
    MovedByteUnwrapped(filled, target, buffer, |data|, a);
    StoredByte(m, buffer, data, if target <= a < target + |data| then buffer + (a - target) else a);
    hide FlatCopied, Stored, MovedByte;
  }

  /** Copying the next packet behind the content appends it. */
  lemma AppendHolds(job: Job, before: Memory, m: Memory, content: seq<Byte>, data: seq<Byte>)
    requires Valid(job) && Separate(job) && TargetHolds(job, before, m, content)
    requires 0 < |data| <= BUFFER_SIZE && |content| + |data| <= job.targetSize
    ensures |content| < TWO32
    ensures TargetHolds(job, before, FlatCopied(Stored(m, job.buffer, data), Up(job.target, |content|), job.buffer, |data|),
                        content + data)
  {
    var t := job.target + |content|;
    assert Up(job.target, |content|) == t;
    hide FlatCopied, Stored, Up;
    var after := FlatCopied(Stored(m, job.buffer, data), t, job.buffer, |data|);
    forall a: int | 0 <= a < TWO32 && !InBuffer(job, a)
      ensures after[a] ==
              if job.target <= a < job.target + |content + data| then (content + data)[a - job.target] else before[a]
    {
      CopiedByte(m, t, job.buffer, data, a);
    }
  }

  lemma {:induction false} MemoryHolds(job: Job, m: Memory, rounds: seq<Round>, n: nat)
    requires Valid(job) && Separate(job) && AllFit(rounds) && StoredUpTo(job, rounds, n)
    ensures Holds(job, m, MemoryAfter(job, m, rounds, n), rounds, n)
  {
    hide FlatCopied, Stored, Rejection, Separate, FitsBuffer, Valid;
    if n > 0 {
      MemoryHolds(job, m, rounds, n - 1);
      StoredSizes(job, rounds, n - 1);
      AppendHolds(job, m, MemoryAfter(job, m, rounds, n - 1), Contents(rounds, n - 1), rounds[n - 1].data);
    }
  }

  lemma StoredSizes(job: Job, rounds: seq<Round>, n: nat)
    requires n < |rounds| && Rejection(job, rounds, n) == SUCCESS && FitsBuffer(rounds[n])
    ensures rounds[n].size == |rounds[n].data| > 0 && |rounds[n].data| <= BUFFER_SIZE
    ensures Sum(rounds, n) + rounds[n].size == Sum(rounds, n + 1) <= job.targetSize
    ensures Sum(rounds, n) % TWO32 == Sum(rounds, n)
  {
  }

  /** Storing in the buffer alone keeps what the target holds. */
  lemma BufferKeeps(job: Job, before: Memory, m: Memory, content: seq<Byte>, data: Payload)
    requires Valid(job) && |data| <= BUFFER_SIZE && TargetHolds(job, before, m, content)
    ensures TargetHolds(job, before, Stored(m, job.buffer, data), content)
  {
  }

  /**
   At every head of the loop the target holds exactly the contents of the packets accepted so far, one
   behind the other, and nothing but the target and the buffer has changed.
   */
  lemma LoopHead(job: Job, m: Memory, trace: seq<Event>, rounds: seq<Round>, k: nat)
    requires Valid(job) && NoWrap(job, BUFFER_SIZE) && Separate(job) && AllFit(rounds) && Accepts(job, rounds, k)
    ensures var head := After(job, m, trace, rounds, k);
            && Loop(job, Start(m, trace), rounds) == Loop(job, head, rounds[k..])
            && Holds(job, m, head.mem, rounds, k) && head.total == Sum(rounds, k)
  {
    hide Loop, EndAt, MemoryAfter, Reached, Sum, Good, Rejection, NoWrap, Sized, AllFit, Valid, Separate,
         RoundsTrace, Holds;
    FitIsSized(rounds);
    SumInRange(job, rounds, k, BUFFER_SIZE);
    ReachedSame(job, rounds, k);
    LoopEnds(job, m, trace, rounds, BUFFER_SIZE);
    LoopFrom(job, m, trace, rounds, k, BUFFER_SIZE);
    AcceptedStored(job, rounds, k);
    MemoryHolds(job, m, rounds, k);
    AfterFields(job, m, trace, rounds, k);
    hide After;
  }

  lemma FitIsSized(rounds: seq<Round>)
    requires AllFit(rounds)
    ensures Sized(rounds, BUFFER_SIZE)
  {
  }

  lemma AcceptedStored(job: Job, rounds: seq<Round>, n: nat)
    requires Accepts(job, rounds, n)
    ensures StoredUpTo(job, rounds, n)
  {
    forall i | 0 <= i < n ensures Rejection(job, rounds, i) == SUCCESS {
      assert Good(job, rounds, i);
    }
  }

  lemma {:induction false} ReachedSame(job: Job, rounds: seq<Round>, k: nat)
    requires Accepts(job, rounds, k)
    ensures Reached(job, rounds, 0) == Reached(job, rounds, k)
  {
    if k > 0 {
      assert Good(job, rounds, k - 1);
      ReachedSame(job, rounds, k - 1);
    }
  }

  /**
   However the loop ends, the target holds exactly the contents of the packets counted as stored. A
   packet that is refused, for its status, number, length or size, is not among them: none of its
   bytes reach the target.
   */
  lemma {:induction false} LoopMemory(job: Job, m: Memory, trace: seq<Event>, rounds: seq<Round>)
    requires Valid(job) && NoWrap(job, BUFFER_SIZE) && Separate(job) && AllFit(rounds)
    ensures var result := Loop(job, Start(m, trace), rounds);
            && result.state.stored <= |rounds| && StoredUpTo(job, rounds, result.state.stored)
            && Holds(job, m, result.state.mem, rounds, result.state.stored)
            && (result.verdict.Stopped? ==>
                  || (result.state.stored < |rounds| && Rejection(job, rounds, result.state.stored) == result.verdict.status)
                  || (result.state.stored > 0 && rounds[result.state.stored - 1].update == result.verdict.status))
  {
    var n := Reached(job, rounds, 0);
    assert n <= |rounds|;
    hide *;
    FitIsSized(rounds);
    LoopEnds(job, m, trace, rounds, BUFFER_SIZE);
    ReachedCompletes(job, rounds);
    AcceptedStored(job, rounds, n);
    EndMemory(job, m, trace, rounds, n);
  }

  /** Packets that complete the loop leave their contents in the target. */
  lemma CompletedHolds(job: Job, m: Memory, trace: seq<Event>, rounds: seq<Round>, n: nat)
    requires Valid(job) && NoWrap(job, BUFFER_SIZE) && Separate(job) && AllFit(rounds) && job.hint > 0
    requires n <= |rounds| && Completes(job, rounds, n)
    ensures TargetHolds(job, m, Loop(job, Start(m, trace), rounds).state.mem, Contents(rounds, n))
  {
    FitIsSized(rounds);
    LoopMemory(job, m, trace, rounds);
    FilledExactly(job, m, trace, rounds, BUFFER_SIZE);
    ReachedCompletes(job, rounds);
    hide Loop, Completes, NoWrap, Separate, AllFit, Sized, Contents, Reached, Sum, StoredUpTo, TargetHolds, Rejection, Valid;
    var stored := Loop(job, Start(m, trace), rounds).state.stored;
    assert Completes(job, rounds, stored) && stored == n;
  }

  lemma EndMemory(job: Job, m: Memory, trace: seq<Event>, rounds: seq<Round>, n: nat)
    requires Valid(job) && Separate(job) && AllFit(rounds) && StoredUpTo(job, rounds, n)
    ensures var end := EndAt(job, m, trace, rounds, n);
            && end.state.stored <= |rounds| && StoredUpTo(job, rounds, end.state.stored)
            && Holds(job, m, end.state.mem, rounds, end.state.stored)
            && (end.verdict.Stopped? ==>
                  || (end.state.stored < |rounds| && Rejection(job, rounds, end.state.stored) == end.verdict.status)
                  || (end.state.stored > 0 && rounds[end.state.stored - 1].update == end.verdict.status))
  {
    MemoryHolds(job, m, rounds, n);
    AfterFields(job, m, trace, rounds, n);
    hide MemoryAfter, Stored, TargetHolds, Contents, Sum, After, Rejection, Separate;
    if Sum(rounds, n) < job.hint && n < |rounds| {
      if Rejection(job, rounds, n) == SUCCESS {
        MemoryHolds(job, m, rounds, n + 1);
        AfterFields(job, m, trace, rounds, n + 1);
      } else {
        BufferKeeps(job, m, MemoryAfter(job, m, rounds, n), Contents(rounds, n), rounds[n].data);
      }
    }
  }
}
