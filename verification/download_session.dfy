/**
 Whole download runs: when they succeed, which calls they make in which order, and when they end.
 */
module DownloadSession {
  import opened Words
  import opened FlatMemory
  import opened Pxe
  import opened Download
  import opened DownloadProofs

  /** The job as the loop sees it. */
  function Effective(job: Job, replies: Replies): Job {
    job.(hint := EffectiveHint(job, replies))
  }

  /** The checks before the connection is opened pass: a zero hint is replaced by a size that fits the target. */
  predicate Entered(job: Job, replies: Replies) {
    var hint := EffectiveHint(job, replies);
    hint != 0 && (job.hint != 0 || hint <= job.targetSize)
  }

  /**
   With an update function, a run succeeds exactly when the hint is usable, opening and closing report
   success, and the accepted packets reach the hint; it then reports the sum of their sizes, which lies
   between the hint and the target's size.
   */
  lemma SuccessExactly(job: Job, replies: Replies, before: Dword, m: Memory, trace: seq<Event>, most: Word)
    requires Valid(job) && NoWrap(Effective(job, replies), most) && Sized(replies.rounds, most)
    ensures var outcome := Run(job, true, replies, before, m, trace).outcome;
            var loop := Effective(job, replies);
            && (outcome.Ended? && outcome.status == SUCCESS <==>
                  && Entered(job, replies) && replies.open.Status() == SUCCESS && replies.close == SUCCESS
                  && exists n :: Completes(loop, replies.rounds, n))
            && (outcome.Ended? && outcome.status == SUCCESS ==>
                  && loop.hint <= outcome.size <= job.targetSize
                  && exists n :: Completes(loop, replies.rounds, n) && outcome.size == Sum(replies.rounds, n))
  {
    var loop := Effective(job, replies);
    var calls := OpenCalls(job, replies, trace);
    if Entered(job, replies) {
      FilledExactly(loop, m, calls, replies.rounds, most);
      StoppedFails(loop, Start(m, calls), replies.rounds);
    }
    hide Loop, Completes, NoWrap, Sized, Sum;
  }

  /**
   The status of every run. It is that of the first thing to go wrong: an empty or too large file, opening,
   the first packet that is not accepted, or closing; the size is reported only with success.
   */
  lemma OutcomeExactly(job: Job, replies: Replies, before: Dword, m: Memory, trace: seq<Event>, most: Word)
    requires Valid(job) && NoWrap(Effective(job, replies), most) && Sized(replies.rounds, most)
    ensures var loop, rounds := Effective(job, replies), replies.rounds;
            var n := Reached(loop, rounds, 0);
            Run(job, true, replies, before, m, trace).outcome ==
            if loop.hint == 0 then Ended(CANT_DOWNLOAD_EMPTY, before)
            else if job.hint == 0 && loop.hint > job.targetSize then Ended(BUFFER_NOT_LARGE_ENOUGH, before)
            else if replies.open.Status() != SUCCESS then Ended(replies.open.Status(), before)
            else if Sum(rounds, n) >= loop.hint then
              Ended(replies.close, if replies.close == SUCCESS then Sum(rounds, n) % TWO32 else before)
            else if n == |rounds| then Waiting
            else if Rejection(loop, rounds, n) != SUCCESS then Ended(Rejection(loop, rounds, n), before)
            else Ended(rounds[n].update, before)
    ensures Run(job, false, replies, before, m, trace).outcome ==
            Ended(if replies.whole.cached.Usable() then replies.whole.status else replies.whole.cached.status,
                  if replies.whole.cached.Usable() && replies.whole.status == SUCCESS then replies.whole.size else before)
  {
    hide Run, Loop, Start, Reached, Rejection, Good, NoWrap, Sized, Sum, OpenCalls;
    WholeOutcome(job, replies, before, m, trace);
    if Entered(job, replies) && replies.open.Status() == SUCCESS {
      LoopOutcome(Effective(job, replies), m, OpenCalls(job, replies, trace), replies.rounds, most);
      EnteredOutcome(job, replies, before, m, trace);
    } else {
      EarlyOutcome(job, replies, before, m, trace);
    }
  }

  lemma WholeOutcome(job: Job, replies: Replies, before: Dword, m: Memory, trace: seq<Event>)
    requires Valid(job)
    ensures Run(job, false, replies, before, m, trace).outcome ==
            Ended(if replies.whole.cached.Usable() then replies.whole.status else replies.whole.cached.status,
                  if replies.whole.cached.Usable() && replies.whole.status == SUCCESS then replies.whole.size else before)
  {
    hide Loop, FilledBuffer;
  }

  lemma EarlyOutcome(job: Job, replies: Replies, before: Dword, m: Memory, trace: seq<Event>)
    requires Valid(job) && !(Entered(job, replies) && replies.open.Status() == SUCCESS)
    ensures var hint := EffectiveHint(job, replies);
            Run(job, true, replies, before, m, trace).outcome ==
            if hint == 0 then Ended(CANT_DOWNLOAD_EMPTY, before)
            else if job.hint == 0 && hint > job.targetSize then Ended(BUFFER_NOT_LARGE_ENOUGH, before)
            else Ended(replies.open.Status(), before)
  {
    hide Loop, FilledBuffer;
  }

  lemma EnteredOutcome(job: Job, replies: Replies, before: Dword, m: Memory, trace: seq<Event>)
    requires Valid(job) && Entered(job, replies) && replies.open.Status() == SUCCESS
    ensures var result := Loop(Effective(job, replies), Start(m, OpenCalls(job, replies, trace)), replies.rounds);
            Run(job, true, replies, before, m, trace).outcome ==
            match result.verdict
            case Starved => Waiting
            case Stopped(code) => Ended(code, before)
            case Filled => Ended(replies.close, if replies.close == SUCCESS then result.state.total else before)
  {
    hide Loop, FilledBuffer;
  }

  lemma LoopOutcome(job: Job, m: Memory, trace: seq<Event>, rounds: seq<Round>, most: Word)
    requires Valid(job) && NoWrap(job, most) && Sized(rounds, most) && job.hint > 0
    ensures var result, n := Loop(job, Start(m, trace), rounds), Reached(job, rounds, 0);
            && (Sum(rounds, n) >= job.hint ==> result.verdict == Filled && result.state.total == Sum(rounds, n))
            && (Sum(rounds, n) < job.hint && n == |rounds| ==> result.verdict == Starved)
            && (Sum(rounds, n) < job.hint && n < |rounds| ==>
                  result.verdict == Stopped(if Rejection(job, rounds, n) != SUCCESS then Rejection(job, rounds, n)
                                            else rounds[n].update))
  {
    LoopEnds(job, m, trace, rounds, most);
    ReachedSum(job, rounds, most);
    AfterFields(job, m, trace, rounds, Reached(job, rounds, 0));
    hide Loop, Reached, Rejection, NoWrap, Sized, Sum, After, Completes;
  }

  /** The calls made before the first read. */
  function OpenCalls(job: Job, replies: Replies, trace: seq<Event>): seq<Event> {
    var asked := if job.hint == 0 then trace + replies.query.Trace(GetFileSize) else trace;
    asked + replies.open.Trace(Open(BUFFER_SIZE))
  }

  /** A loop that is stopped is stopped with an error. */
  lemma {:induction false} StoppedFails(job: Job, s: State, rounds: seq<Round>)
    requires Valid(job)
    ensures Loop(job, s, rounds).verdict.Stopped? ==> Loop(job, s, rounds).verdict.status != SUCCESS
    decreases |rounds|
  {
    if s.total < job.hint && rounds != [] {
      var turn := Turn(job, s, rounds[0]);
      if !turn.verdict.Stopped? {
        hide Turn;
        StoppedFails(job, turn.state, rounds[1..]);
      }
    }
  }

  // ---- The calls of a run ----

  function Reads(trace: seq<Event>): nat {
    if trace == [] then 0 else Reads(trace[..|trace| - 1]) + if trace[|trace| - 1] == Read then 1 else 0
  }

  lemma {:induction false} ReadsAppend(a: seq<Event>, b: seq<Event>)
    ensures Reads(a + b) == Reads(a) + Reads(b)
    decreases |b|
  {
    if b == [] {
      assert a + b == a;
    } else {
      ReadsAppend(a, b[..|b| - 1]);
      assert (a + b)[..|a + b| - 1] == a + b[..|b| - 1];
    }
  }

  /** Events `2 * i` and `2 * i + 1` are the turn of packet `i`. */
  predicate TurnAt(job: Job, rounds: seq<Round>, trace: seq<Event>, i: nat)
    requires i < |rounds| && 2 * i + 1 < |trace|
  {
    trace[2 * i] == Read && trace[2 * i + 1] == Update(job.hint, Sum(rounds, i + 1) % TWO32)
  }

  /** Packet `i` makes the total grow, within the target. */
  predicate Grows(job: Job, rounds: seq<Round>, i: nat)
    requires i < |rounds|
  {
    Sum(rounds, i) < Sum(rounds, i + 1) <= job.targetSize
  }

  /** Reads and updates alternate, and the updates report strictly increasing totals. */
  lemma {:induction false} RoundsAlternate(job: Job, rounds: seq<Round>, n: nat)
    requires StoredUpTo(job, rounds, n)
    ensures |RoundsTrace(job, rounds, n)| == 2 * n && Reads(RoundsTrace(job, rounds, n)) == n
    ensures forall i :: 0 <= i < n ==> TurnAt(job, rounds, RoundsTrace(job, rounds, n), i) && Grows(job, rounds, i)
  {
    if n > 0 {
      RoundsAlternate(job, rounds, n - 1);
      assert Rejection(job, rounds, n - 1) == SUCCESS && Grows(job, rounds, n - 1);
      hide Rejection, Sum, Grows;
      var before, update := RoundsTrace(job, rounds, n - 1), Update(job.hint, Sum(rounds, n) % TWO32);
      assert RoundsTrace(job, rounds, n) == before + [Read, update];
      ReadsOfTurn(before, update);
      forall i | 0 <= i < n ensures TurnAt(job, rounds, before + [Read, update], i) {
        assert i < n - 1 ==> TurnAt(job, rounds, before, i);
      }
    }
  }

  lemma ReadsOfTurn(before: seq<Event>, update: Event)
    requires update != Read
    ensures Reads(before + [Read, update]) == Reads(before) + 1
  {
    ReadsAppend(before, [Read, update]);
    assert [Read, update][..1] == [Read] && [Read][..0] == [];
  }

  /** What the loop adds to the calls: the stored packets' turns, and the read of a refused packet. */
  function LoopCalls(job: Job, rounds: seq<Round>, n: nat, refused: bool): seq<Event>
    requires n <= |rounds|
  {
    RoundsTrace(job, rounds, n) + if refused then [Read] else []
  }

  /** The calls of a loop, with at most as many reads as the hint counts bytes. */
  ghost predicate InSession(job: Job, trace: seq<Event>, rounds: seq<Round>, end: Result) {
    && end.state.stored <= |rounds| && StoredUpTo(job, rounds, end.state.stored)
    && exists refused: bool ::
         && (refused ==> end.verdict.Stopped?)
         && end.state.trace == trace + LoopCalls(job, rounds, end.state.stored, refused)
         && Reads(LoopCalls(job, rounds, end.state.stored, refused)) <= job.hint
  }

  lemma LoopSession(job: Job, m: Memory, trace: seq<Event>, rounds: seq<Round>, most: Word)
    requires Valid(job) && NoWrap(job, most) && Sized(rounds, most) && job.hint > 0
    ensures InSession(job, trace, rounds, Loop(job, Start(m, trace), rounds))
  {
    LoopEnds(job, m, trace, rounds, most);
    ReachedCompletes(job, rounds);
    EndSession(job, m, trace, rounds, Reached(job, rounds, 0), most);
    hide *;
  }

  lemma EndSession(job: Job, m: Memory, trace: seq<Event>, rounds: seq<Round>, n: nat, most: Word)
    requires Valid(job) && NoWrap(job, most) && Sized(rounds, most) && job.hint > 0 && Accepts(job, rounds, n)
    ensures InSession(job, trace, rounds, EndAt(job, m, trace, rounds, n))
  {
    AcceptedStored(job, rounds, n);
    AcceptedBound(job, rounds, n, most);
    AfterFields(job, m, trace, rounds, n);
    hide After, Sum, MemoryAfter, Stored, NoWrap, Sized, Rejection, Accepts, RoundsTrace, InSession, StoredUpTo, AllFit;
    if Sum(rounds, n) >= job.hint || n == |rounds| {
      SessionWith(job, trace, rounds, EndAt(job, m, trace, rounds, n), false);
    } else if Rejection(job, rounds, n) != SUCCESS {
      SessionWith(job, trace, rounds, EndAt(job, m, trace, rounds, n), true);
    } else {
      StoredNext(job, rounds, n);
      AfterFields(job, m, trace, rounds, n + 1);
      SessionWith(job, trace, rounds, EndAt(job, m, trace, rounds, n), false);
    }
  }

  lemma StoredNext(job: Job, rounds: seq<Round>, n: nat)
    requires StoredUpTo(job, rounds, n) && n < |rounds| && Rejection(job, rounds, n) == SUCCESS
    ensures StoredUpTo(job, rounds, n + 1)
  {
    hide Rejection;
  }

  lemma SessionWith(job: Job, trace: seq<Event>, rounds: seq<Round>, end: Result, refused: bool)
    requires end.state.stored <= |rounds| && StoredUpTo(job, rounds, end.state.stored)
    requires refused ==> end.verdict.Stopped?
    requires end.state.stored + (if refused then 1 else 0) <= job.hint
    requires end.state.trace == trace + RoundsTrace(job, rounds, end.state.stored) + if refused then [Read] else []
    ensures InSession(job, trace, rounds, end)
  {
    ReadsOfCalls(job, rounds, end.state.stored);
    CallsJoined(job, trace, rounds, end.state.stored);
    hide Reads, RoundsTrace, LoopCalls, StoredUpTo;
  }

  lemma CallsJoined(job: Job, trace: seq<Event>, rounds: seq<Round>, n: nat)
    requires n <= |rounds|
    ensures trace + LoopCalls(job, rounds, n, false) == trace + RoundsTrace(job, rounds, n)
    ensures trace + LoopCalls(job, rounds, n, true) == trace + RoundsTrace(job, rounds, n) + [Read]
  {
  }

  lemma AcceptedBound(job: Job, rounds: seq<Round>, n: nat, most: Word)
    requires NoWrap(job, most) && Sized(rounds, most) && Accepts(job, rounds, n) && job.hint > 0
    ensures n <= job.hint && (Sum(rounds, n) < job.hint ==> n < job.hint)
  {
    SumInRange(job, rounds, n, most);
    if n > 0 {
      SumInRange(job, rounds, n - 1, most);
    }
  }

  lemma ReadsOfCalls(job: Job, rounds: seq<Round>, n: nat)
    requires StoredUpTo(job, rounds, n)
    ensures Reads(LoopCalls(job, rounds, n, false)) == n && Reads(LoopCalls(job, rounds, n, true)) == n + 1
  {
    RoundsAlternate(job, rounds, n);
    ReadsAppend(RoundsTrace(job, rounds, n), []);
    ReadsAppend(RoundsTrace(job, rounds, n), [Read]);
    OneRead();
    hide Reads, RoundsTrace;
  }

  lemma OneRead()
    ensures Reads([Read]) == 1 && Reads([]) == 0
  {
    assert [Read][..0] == [];
  }

  /**
   The session of a run: what is asked first, then the connection, then the turns of the loop, then one
   close. Nothing is read unless opening reports success, there are at most as many reads as expected
   bytes, and the connection is closed, once and last, exactly when the loop filled the target.
   */
  lemma Session(job: Job, replies: Replies, before: Dword, m: Memory, most: Word)
    requires Valid(job) && NoWrap(Effective(job, replies), most) && Sized(replies.rounds, most)
    ensures var trace := Run(job, true, replies, before, m, []).trace;
            var loop, calls := Effective(job, replies), OpenCalls(job, replies, []);
            if !Entered(job, replies) then trace == if job.hint == 0 then replies.query.Trace(GetFileSize) else []
            else if replies.open.Status() != SUCCESS then trace == calls
            else
              var result := Loop(loop, Start(m, calls), replies.rounds);
              && result.state.stored <= |replies.rounds| && StoredUpTo(loop, replies.rounds, result.state.stored)
              && exists refused: bool ::
                   && (refused ==> result.verdict.Stopped?)
                   && Reads(LoopCalls(loop, replies.rounds, result.state.stored, refused)) <= loop.hint
                   && trace == calls + LoopCalls(loop, replies.rounds, result.state.stored, refused)
                               + if result.verdict.Filled? then [Close] else []
  {
    if Entered(job, replies) && replies.open.Status() == SUCCESS {
      var loop, calls := Effective(job, replies), OpenCalls(job, replies, []);
      LoopSession(loop, m, calls, replies.rounds, most);
      RunTrace(job, replies, before, m, []);
      hide Run, Loop, LoopCalls, NoWrap, Sized, Reads, Entered, Effective, OpenCalls;
      var result := Loop(loop, Start(m, calls), replies.rounds);
      var refused: bool :| && (refused ==> result.verdict.Stopped?)
                           && result.state.trace == calls + LoopCalls(loop, replies.rounds, result.state.stored, refused)
                           && Reads(LoopCalls(loop, replies.rounds, result.state.stored, refused)) <= loop.hint;
      assert Run(job, true, replies, before, m, []).trace ==
             calls + LoopCalls(loop, replies.rounds, result.state.stored, refused)
             + if result.verdict.Filled? then [Close] else [];
    }
  }

  /** The calls of a run whose connection is open are those of its loop, and a close once the target is filled. */
  lemma RunTrace(job: Job, replies: Replies, before: Dword, m: Memory, trace: seq<Event>)
    requires Valid(job) && Entered(job, replies) && replies.open.Status() == SUCCESS
    ensures var result := Loop(Effective(job, replies), Start(m, OpenCalls(job, replies, trace)), replies.rounds);
            Run(job, true, replies, before, m, trace).trace ==
            result.state.trace + if result.verdict.Filled? then [Close] else []
  {
    hide Loop;
  }

  /**
   A run that gets past its first checks asks the firmware to open a connection exactly when there is a
   cached packet. Without one, opening still reports success if asking for the packet did, and the
   reads go to a connection that was never opened.
   */
  lemma OpenedExactly(job: Job, replies: Replies)
    requires Entered(job, replies)
    ensures Open(BUFFER_SIZE) in OpenCalls(job, replies, []) <==> replies.open.cached.Usable()
    ensures replies.open.Status() == SUCCESS && Open(BUFFER_SIZE) !in OpenCalls(job, replies, []) <==>
            replies.open.cached.status == SUCCESS && !replies.open.cached.present
  {
  }

  // ---- When runs end ----

  /** The largest total from which the loop still reads. */
  function Top(job: Job): int {
    Min(job.hint - 1, job.targetSize)
  }

  /** A packet that keeps the loop going from total `t`: up to the top, and from there around 2^32. */
  function NextSize(job: Job, t: Dword, most: Word): Word
    requires most > 0
  {
    if t < Top(job) && Top(job) - t < most then Top(job) - t else most
  }

  /** Every packet stores as many bytes as it reports. */
  predicate Honest(rounds: seq<Round>) {
    forall i :: 0 <= i < |rounds| ==> |rounds[i].data| == rounds[i].size
  }

  /** If some packet can carry the total past 2^32, there are replies of any number that never end the loop. */
  lemma {:induction false} Endless(job: Job, s: State, most: Word, count: nat) returns (rounds: seq<Round>)
    requires Valid(job) && most > 0 && !NoWrap(job, most) && s.total <= Top(job)
    ensures |rounds| == count && Sized(rounds, most) && Honest(rounds)
    ensures Loop(job, s, rounds).verdict.Starved?
    decreases count
  {
    if count == 0 {
      rounds := [];
    } else {
      var size := NextSize(job, s.total, most);
      var r := Round(SUCCESS, Add16(s.last, 1), size, seq(size, i => 0), SUCCESS);
      NextKeepsGoing(job, s.total, most);
      var turn := Turn(job, s, r);
      hide FlatCopied, Stored, Add16, Up, NextSize;
      var rest := Endless(job, turn.state, most, count - 1);
      rounds := [r] + rest;
      assert rounds[0] == r && rounds[1..] == rest;
    }
  }

  lemma NextKeepsGoing(job: Job, t: Dword, most: Word)
    requires most > 0 && !NoWrap(job, most) && t <= Top(job)
    ensures var size := NextSize(job, t, most);
            0 < size <= most && Up(t, size) <= Top(job)
  {
  }

  /** Given as many replies as expected bytes, the loop ends. */
  ghost predicate EndsOn(job: Job, m: Memory, rounds: seq<Round>)
    requires Valid(job)
  {
    |rounds| >= job.hint ==> !Loop(job, Start(m, []), rounds).verdict.Starved?
  }

  /**
   With packets of at most `most` bytes, every run of the loop ends within as many replies as expected
   bytes exactly when no packet can carry the 32-bit total past 2^32; this is so whether or not packets
   are as long as they say.
   */
  lemma EndsExactly(job: Job, most: Word)
    requires Valid(job) && most > 0 && job.hint > 0
    ensures (forall m: Memory, rounds: seq<Round> :: Sized(rounds, most) ==> EndsOn(job, m, rounds)) <==> NoWrap(job, most)
    ensures (forall m: Memory, rounds: seq<Round> :: Sized(rounds, most) && Honest(rounds) ==> EndsOn(job, m, rounds))
       <==> NoWrap(job, most)
  {
    if NoWrap(job, most) {
      forall m: Memory, rounds: seq<Round> | Sized(rounds, most) ensures EndsOn(job, m, rounds) {
        EndsWithinHint(job, m, rounds, most);
      }
    } else {
      var m: Memory := seq(TWO32, i => 0);
      var rounds := Endless(job, Start(m, []), most, job.hint);
      hide Loop, NoWrap, Sized, Honest;
      assert !EndsOn(job, m, rounds);
    }
  }

  lemma EndsWithinHint(job: Job, m: Memory, rounds: seq<Round>, most: Word)
    requires Valid(job) && job.hint > 0 && NoWrap(job, most) && Sized(rounds, most)
    ensures EndsOn(job, m, rounds)
  {
    var n := Reached(job, rounds, 0);
    LoopEnds(job, m, [], rounds, most);
    ReachedCompletes(job, rounds);
    AcceptedBound(job, rounds, n, most);
    EndKinds(job, m, [], rounds, n);
    hide Loop, EndAt, NoWrap, Sized, Sum, Reached, Completes;
  }

  // ---- Size queries that fail ----

  /**
   Without a hint, a run ends as for an empty file, with no call but the size query's, exactly when the
   query is not answered or answers zero.
   */
  lemma EmptyExactly(job: Job, replies: Replies, before: Dword, m: Memory, trace: seq<Event>)
    requires Valid(job) && job.hint == 0
    ensures var run := Run(job, true, replies, before, m, trace);
            run.outcome == Ended(CANT_DOWNLOAD_EMPTY, before) && run.trace == trace + replies.query.Trace(GetFileSize) <==>
            !replies.query.Answered() || replies.query.size == 0
    ensures replies.query.Status() != SUCCESS ==>
              Run(job, true, replies, before, m, trace)
              == RunResult(Ended(CANT_DOWNLOAD_EMPTY, before), m, trace + replies.query.Trace(GetFileSize))
  {
    hide Loop;
    if replies.query.Answered() && 0 < replies.query.size <= job.targetSize {
      OpenedLater(job, replies, before, m, trace);
    }
  }

  /** A run that gets to opening the connection has made more calls than the size query's. */
  lemma OpenedLater(job: Job, replies: Replies, before: Dword, m: Memory, trace: seq<Event>)
    requires Valid(job) && Entered(job, replies)
    ensures |Run(job, true, replies, before, m, trace).trace| >= |OpenCalls(job, replies, trace)|
    ensures |OpenCalls(job, replies, trace)| > |trace + if job.hint == 0 then replies.query.Trace(GetFileSize) else []|
  {
    LoopLengthens(Effective(job, replies), Start(m, OpenCalls(job, replies, trace)), replies.rounds);
    hide Loop;
  }

  lemma {:induction false} LoopLengthens(job: Job, s: State, rounds: seq<Round>)
    requires Valid(job)
    ensures |Loop(job, s, rounds).state.trace| >= |s.trace|
    decreases |rounds|
  {
    if s.total < job.hint && rounds != [] {
      var turn := Turn(job, s, rounds[0]);
      assert |turn.state.trace| > |s.trace|;
      if !turn.verdict.Stopped? {
        hide Turn;
        LoopLengthens(job, turn.state, rounds[1..]);
      }
    }
  }

  /** The status of a failed size query is lost: two queries that fail differently, as here, end in the same run. */
  lemma QueryStatusLost(job: Job, replies: Replies, status: Word, before: Dword, m: Memory, trace: seq<Event>)
    requires Valid(job) && job.hint == 0 && status != SUCCESS
    requires replies.query.cached.Usable() && replies.query.status != SUCCESS
    ensures Run(job, true, replies.(query := replies.query.(status := status)), before, m, trace) ==
            Run(job, true, replies, before, m, trace)
    ensures status != CANT_DOWNLOAD_EMPTY ==>
              Run(job, true, replies, before, m, trace).outcome != Ended(status, before)
  {
    EmptyExactly(job, replies, before, m, trace);
    EmptyExactly(job, replies.(query := replies.query.(status := status)), before, m, trace);
    hide Run;
  }

  // ---- The firmware's own file transfer ----

  /**
   Without an update function the firmware receives the file itself: with a cached packet the target
   holds as much of the file as fits, around the address space, and without one nothing is stored. No
   byte outside the target changes either way.
   */
  lemma WholeFile(job: Job, replies: Replies, before: Dword, m: Memory, trace: seq<Event>)
    requires Valid(job)
    ensures var after := Run(job, false, replies, before, m, trace).mem;
            && (!replies.whole.cached.Usable() ==> after == m)
            && (forall a: Dword :: Down(a, job.target) >= Min(|replies.contents|, job.targetSize) ==> after[a] == m[a])
            && (replies.whole.cached.Usable() ==>
                  forall i: Dword :: i < Min(|replies.contents|, job.targetSize) ==>
                    after[Up(job.target, i)] == replies.contents[i])
  {
    var data := Delivered(replies.contents, job.targetSize);
    hide Up, Down;
    forall i: Dword | i < |data| ensures FilledBuffer(m, job.target, data)[Up(job.target, i)] == replies.contents[i] {
      UpDown(job.target, i);
    }
  }

  lemma UpDown(a: Dword, i: Dword)
    ensures Down(Up(a, i), a) == i
  {
  }

  /**
   Both ways of downloading agree: packets that complete the loop and a firmware transfer of the same
   contents leave the same memory, the static buffer apart.
   */
  lemma BothWaysAgree(job: Job, replies: Replies, before: Dword, m: Memory, trace: seq<Event>, n: nat)
    requires Valid(job) && Entered(job, replies) && replies.open.Status() == SUCCESS
    requires NoWrap(Effective(job, replies), BUFFER_SIZE) && Separate(job) && AllFit(replies.rounds)
    requires Completes(Effective(job, replies), replies.rounds, n) && replies.contents == Contents(replies.rounds, n)
    requires replies.whole.cached.Usable()
    ensures forall a: int :: 0 <= a < TWO32 && !InBuffer(job, a) ==>
              Run(job, true, replies, before, m, trace).mem[a] == Run(job, false, replies, before, m, trace).mem[a]
  {
    var after := Run(job, true, replies, before, m, trace).mem;
    PacketsHeld(job, replies, before, m, trace, n);
    hide Run, Entered, Completes, NoWrap, AllFit, Contents, Effective;
    forall a: int | 0 <= a < TWO32 && !InBuffer(job, a)
      ensures after[a] == Run(job, false, replies, before, m, trace).mem[a]
    {
      WholeByte(job, replies, before, m, trace, a);
    }
  }

  /** A run whose packets complete the loop leaves their contents in the target. */
  lemma PacketsHeld(job: Job, replies: Replies, before: Dword, m: Memory, trace: seq<Event>, n: nat)
    requires Valid(job) && Entered(job, replies) && replies.open.Status() == SUCCESS
    requires NoWrap(Effective(job, replies), BUFFER_SIZE) && Separate(job) && AllFit(replies.rounds)
    requires Completes(Effective(job, replies), replies.rounds, n)
    ensures TargetHolds(job, m, Run(job, true, replies, before, m, trace).mem, Contents(replies.rounds, n))
  {
    var loop, calls := Effective(job, replies), OpenCalls(job, replies, trace);
    assert Separate(loop) && loop.hint > 0;
    RunMemory(job, replies, before, m, trace);
    CompletedHolds(loop, m, calls, replies.rounds, n);
    SameTarget(job, loop, m, Loop(loop, Start(m, calls), replies.rounds).state.mem, Contents(replies.rounds, n));
    hide *;
  }

  lemma SameTarget(job: Job, other: Job, before: Memory, after: Memory, content: seq<Byte>)
    requires other == job.(hint := other.hint) && TargetHolds(other, before, after, content)
    ensures TargetHolds(job, before, after, content)
  {
  }

  /** The memory of a run whose connection is open is that of its loop. */
  lemma RunMemory(job: Job, replies: Replies, before: Dword, m: Memory, trace: seq<Event>)
    requires Valid(job) && Entered(job, replies) && replies.open.Status() == SUCCESS
    ensures Run(job, true, replies, before, m, trace).mem ==
            Loop(Effective(job, replies), Start(m, OpenCalls(job, replies, trace)), replies.rounds).state.mem
  {
    hide Loop;
  }

  lemma WholeByte(job: Job, replies: Replies, before: Dword, m: Memory, trace: seq<Event>, a: Dword)
    requires Valid(job) && Separate(job) && replies.whole.cached.Usable() && |replies.contents| <= job.targetSize
    ensures Run(job, false, replies, before, m, trace).mem[a] ==
            if job.target <= a < job.target + |replies.contents| then replies.contents[a - job.target] else m[a]
  {
  }
}
