/** The byte counters of TFileOperationProgressType (source/core/FileOperationProgress.cpp) as
    values: what each operation does to them, and what holds over whole runs. */
module TransferCounters {
  import opened Basics

  datatype Counters = Counters(
    localSize: int, locallyUsed: int,
    transferSize: int, transferedSize: int, skippedSize: int,
    totalTransfered: int, totalSkipped: int, totalSize: int, totalSizeSet: bool,
    ticks: seq<nat>, totalTransferredThen: seq<int>)

  const MSECS_PER_SEC: nat := 1000
  const KEPT_TICKS: nat := 10

  // ----- The operations -----

  function Cleared(): Counters {
    Counters(0, 0, 0, 0, 0, 0, 0, 0, false, [], [])
  }

  function ClearTransfer(c: Counters): Counters {
    var rest :=
      if c.transferSize > 0 && c.transferedSize < c.transferSize then c.transferSize - c.transferedSize else 0;
    c.(totalSkipped := c.totalSkipped + rest,
       localSize := 0, transferSize := 0, locallyUsed := 0, skippedSize := 0, transferedSize := 0)
  }

  function SetTotalSize(c: Counters, size: int): Counters {
    c.(totalSize := size, totalSizeSet := true)
  }

  function SetTransferSize(c: Counters, size: int): Counters {
    c.(transferSize := size)
  }

  function ChangeTransferSize(c: Counters, size: int): Counters {
    c.(totalSize := if c.totalSizeSet then c.totalSize + (size - c.transferSize) else c.totalSize,
       transferSize := size)
  }

  function RollbackTransfer(c: Counters): Counters {
    c.(totalTransfered := c.totalTransfered - (c.transferedSize - c.skippedSize),
       totalSkipped := c.totalSkipped - c.skippedSize,
       ticks := [], totalTransferredThen := [],
       skippedSize := 0, transferedSize := 0, transferSize := 0, locallyUsed := 0)
  }

  /** A new sample of the transfer speed, at most one a second, the last ten kept. */
  function Sampled(c: Counters, now: nat): Counters {
    var due := c.ticks == [] || c.ticks[|c.ticks| - 1] > now || now - c.ticks[|c.ticks| - 1] >= MSECS_PER_SEC;
    var t := if due then c.ticks + [now] else c.ticks;
    var then' := if due then c.totalTransferredThen + [c.totalTransfered] else c.totalTransferredThen;
    var full := |t| > KEPT_TICKS;
    c.(ticks := if full then t[1..] else t,
       totalTransferredThen := if full && then' != [] then then'[1..] else then')
  }

  function AddTransfered(c: Counters, size: int, addToTotals: bool, now: nat): Counters {
    var t := c.transferedSize + size;
    var grown := t > c.transferSize;
    var d := c.(transferedSize := t,
                totalSize := if grown && c.totalSizeSet then c.totalSize + (t - c.transferSize) else c.totalSize,
                transferSize := if grown then t else c.transferSize);
    if addToTotals then Sampled(d.(totalTransfered := d.totalTransfered + size), now) else d
  }

  function AddLocallyUsed(c: Counters, size: int): Counters {
    var used := c.locallyUsed + size;
    c.(locallyUsed := used, localSize := if used > c.localSize then used else c.localSize)
  }

  function AddResumed(c: Counters, size: int, now: nat): Counters {
    var d := c.(totalSkipped := c.totalSkipped + size, skippedSize := c.skippedSize + size);
    AddLocallyUsed(AddTransfered(d, size, false, now), size)
  }

  function AddSkippedFileSize(c: Counters, size: int): Counters {
    c.(totalSkipped := c.totalSkipped + size)
  }

  /** C++ division: truncated towards zero. */
  function Div(a: int, b: int): int
    requires b > 0
  {
    if a >= 0 then a / b else -((-a) / b)
  }

  function TotalTransferProgress(c: Counters): int {
    var p := if c.totalSize > 0 then Div((c.totalTransfered + c.totalSkipped) * 100, c.totalSize) else 0;
    if p < 100 then p else 100
  }

  // ----- Runs -----

  /** Everything that moves bytes between the counters during an operation. */
  datatype Event =
    | FileStart // SetFile
    | SizeKnown(fileSize: int) // SetTransferSize
    | Data(size: nat, now: nat)
    | Resumed(size: nat, now: nat)
    | UsedLocally(size: nat)
    | SizeChanged(fileSize: int)
    | FileSkipped(size: nat)
    | Rollback
    | Stop

  /** The counters, and the sizes of the files not started yet, added up. A file that is rolled
      back is pending again. */
  datatype Run = Run(c: Counters, pending: int)

  function Step(r: Run, e: Event): Run {
    match e
    case FileStart => r.(c := ClearTransfer(r.c))
    case SizeKnown(size) => Run(SetTransferSize(r.c, size), r.pending - (size - r.c.transferSize))
    case Data(size, now) => r.(c := AddTransfered(r.c, size, true, now))
    case Resumed(size, now) => r.(c := AddResumed(r.c, size, now))
    case UsedLocally(size) => r.(c := AddLocallyUsed(r.c, size))
    case SizeChanged(size) => r.(c := ChangeTransferSize(r.c, size))
    case FileSkipped(size) => Run(AddSkippedFileSize(r.c, size), r.pending - size)
    case Rollback => Run(RollbackTransfer(r.c), r.pending + r.c.transferSize)
    case Stop => r.(c := ClearTransfer(r.c))
  }

  function After(r: Run, events: seq<Event>): Run
    decreases events
  {
    if events == [] then r else After(Step(r, events[0]), events[1..])
  }

  /** An operation over files of this total size, before its first file. */
  function Started(size: nat): Run {
    Run(SetTotalSize(Cleared(), size), size)
  }

  lemma {:induction false} AfterSnoc(r: Run, events: seq<Event>, e: Event)
    ensures After(r, events + [e]) == Step(After(r, events), e)
    decreases events
  {
    if events == [] {
      assert [e][1..] == [];
    } else {
      assert (events + [e])[1..] == events[1..] + [e];
      AfterSnoc(Step(r, events[0]), events[1..], e);
    }
  }

  // ----- What holds in every state of every run -----

  function Remaining(c: Counters): int {
    c.transferSize - c.transferedSize
  }

  /** The totals as they were when the current file started (plus files skipped since). */
  function TransferedBefore(c: Counters): int {
    c.totalTransfered - (c.transferedSize - c.skippedSize)
  }

  function SkippedBefore(c: Counters): int {
    c.totalSkipped - c.skippedSize
  }

  predicate SamplesOrdered(c: Counters) {
    && |c.ticks| == |c.totalTransferredThen| <= KEPT_TICKS
    && (forall i, j | 0 <= i < j < |c.totalTransferredThen| :: c.totalTransferredThen[i] <= c.totalTransferredThen[j])
    && (forall i | 0 <= i < |c.totalTransferredThen| :: c.totalTransferredThen[i] <= c.totalTransfered)
  }

  /** Nothing is negative, also once the current file is taken back. */
  predicate Inv(c: Counters) {
    && 0 <= c.skippedSize <= c.transferedSize
    && TransferedBefore(c) >= 0 && SkippedBefore(c) >= 0
    && 0 <= c.locallyUsed <= c.localSize
    && SamplesOrdered(c)
  }

  lemma StepKeepsInv(r: Run, e: Event)
    requires Inv(r.c)
    ensures Inv(Step(r, e).c) && Step(r, e).c.totalSizeSet == r.c.totalSizeSet
  {
  }

  /** Both assertions of RollbackTransfer hold in every state it can be called in. */
  lemma {:induction false} RunKeepsInv(r: Run, events: seq<Event>)
    requires Inv(r.c)
    ensures var c := After(r, events).c;
            Inv(c) && c.transferedSize - c.skippedSize <= c.totalTransfered && c.skippedSize <= c.totalSkipped
    decreases events
  {
    if events != [] {
      StepKeepsInv(r, events[0]);
      RunKeepsInv(Step(r, events[0]), events[1..]);
    }
  }

  // ----- Conservation of bytes -----

  /** What the counters account for, less the total. */
  function Balance(c: Counters): int {
    c.totalTransfered + c.totalSkipped + Remaining(c) - c.totalSize
  }

  /** Every byte of the total is transferred, skipped, still to come in this file, or pending. */
  predicate Conserved(r: Run) {
    Balance(r.c) + r.pending == 0
  }

  /** A file is left that transferred more than its size: the guard of ClearTransfer does not
      count what is beyond. */
  predicate LosesAt(r: Run, e: Event) {
    (e.FileStart? || e.Stop?) && r.c.transferedSize > r.c.transferSize
  }

  /** How much is transferred beyond the size of a file when it is left, over a whole run. */
  function Lost(r: Run, events: seq<Event>): nat
    decreases events
  {
    if events == [] then 0
    else
      (if LosesAt(r, events[0]) then r.c.transferedSize - r.c.transferSize else 0)
      + Lost(Step(r, events[0]), events[1..])
  }

  predicate NeverLoses(r: Run, events: seq<Event>)
    decreases events
  {
    events == [] || (!LosesAt(r, events[0]) && NeverLoses(Step(r, events[0]), events[1..]))
  }

  lemma StepBalance(r: Run, e: Event)
    requires Inv(r.c) && r.c.totalSizeSet
    ensures Balance(Step(r, e).c) + Step(r, e).pending
            == Balance(r.c) + r.pending + if LosesAt(r, e) then r.c.transferedSize - r.c.transferSize else 0
  {
  }

  lemma {:induction false} RunBalance(r: Run, events: seq<Event>)
    requires Inv(r.c) && r.c.totalSizeSet
    ensures Balance(After(r, events).c) + After(r, events).pending == Balance(r.c) + r.pending + Lost(r, events)
    ensures After(r, events).c.totalSizeSet
    decreases events
  {
    if events != [] {
      StepKeepsInv(r, events[0]);
      StepBalance(r, events[0]);
      RunBalance(Step(r, events[0]), events[1..]);
    }
  }

  lemma {:induction false} NothingLost(r: Run, events: seq<Event>)
    ensures Lost(r, events) == 0 <==> NeverLoses(r, events)
    decreases events
  {
    if events != [] {
      NothingLost(Step(r, events[0]), events[1..]);
    }
  }

  /** Over every run the counters are off by exactly what was lost, so bytes are conserved exactly
      if no file is left that transferred more than its size. */
  lemma BytesConserved(size: nat, events: seq<Event>)
    ensures var r := After(Started(size), events);
            && Balance(r.c) + r.pending == Lost(Started(size), events)
            && (Conserved(r) <==> NeverLoses(Started(size), events))
  {
    RunBalance(Started(size), events);
    NothingLost(Started(size), events);
  }

  /** Whatever happened before, a file that shrinks below what was transferred loses the difference
      when it is left; if it grows again before that, as text does that is converted block by
      block, it loses nothing. */
  lemma ShrunkFile(r: Run, less: nat, now: nat)
    requires Inv(r.c)
    ensures Lost(r, [SizeChanged(r.c.transferedSize - less), Stop]) == less
    ensures Lost(r, [SizeChanged(r.c.transferedSize - less), Data(less, now), Stop]) == 0
  {
    var shrunk := Step(r, SizeChanged(r.c.transferedSize - less));
    LostFrom(r, SizeChanged(r.c.transferedSize - less), [Stop]);
    LostFrom(shrunk, Stop, []);
    LostFrom(r, SizeChanged(r.c.transferedSize - less), [Data(less, now), Stop]);
    LostFrom(shrunk, Data(less, now), [Stop]);
    LostFrom(Step(shrunk, Data(less, now)), Stop, []);
  }

  /** So by BytesConserved one of these runs conserves bytes, and the other does not. */
  lemma SomeRunsLose()
    ensures NeverLoses(Started(10), [SizeKnown(10), Data(10, 0), SizeChanged(6), Data(5, 0), Stop])
    ensures !NeverLoses(Started(10), [SizeKnown(10), Data(10, 0), SizeChanged(5), Stop])
  {
  }

  lemma LostFrom(r: Run, e: Event, events: seq<Event>)
    ensures Lost(r, [e] + events)
            == (if LosesAt(r, e) then r.c.transferedSize - r.c.transferSize else 0) + Lost(Step(r, e), events)
  {
    assert ([e] + events)[1..] == events;
  }

  /** Leaving one file conserves just when no more was transferred than its size says. */
  lemma ClearConservesExactly(r: Run)
    requires Conserved(r) && r.c.transferedSize >= 0
    ensures Conserved(Step(r, FileStart)) <==> r.c.transferedSize <= r.c.transferSize
  {
  }

  /** Adding transferred bytes without adding them to the totals conserves only for none; the
      resume path is safe because it counts the same bytes as skipped. */
  lemma UncountedTransferConservesExactly(r: Run, size: int, addToTotals: bool, now: nat)
    requires Conserved(r) && r.c.totalSizeSet
    ensures Conserved(r.(c := AddTransfered(r.c, size, addToTotals, now))) <==> addToTotals || size == 0
  {
  }

  /** No size is set, for a file just started or while it is transferred, that is below what was
      transferred of it already. */
  predicate SizesSuffice(r: Run, events: seq<Event>)
    decreases events
  {
    events == []
    || (&& (events[0].SizeKnown? || events[0].SizeChanged? ==> r.c.transferedSize <= events[0].fileSize)
        && SizesSuffice(Step(r, events[0]), events[1..]))
  }

  /** Files may grow while they are transferred: nothing is lost. */
  lemma {:induction false} GrowthLosesNothing(r: Run, events: seq<Event>)
    requires 0 <= r.c.transferedSize <= r.c.transferSize && SizesSuffice(r, events)
    ensures Lost(r, events) == 0 && NeverLoses(r, events)
    ensures var c := After(r, events).c; 0 <= c.transferedSize <= c.transferSize
    decreases events
  {
    if events != [] {
      GrowthLosesNothing(Step(r, events[0]), events[1..]);
    }
  }

  // ----- What the operations do, field by field -----

  lemma NothingCounted()
    ensures var c := Cleared();
            && c.localSize == c.locallyUsed == c.transferSize == c.transferedSize == c.skippedSize == 0
            && c.totalTransfered == c.totalSkipped == c.totalSize == 0 && !c.totalSizeSet
            && c.ticks == c.totalTransferredThen == []
  {
  }

  lemma NoTotalNoProgress(c: Counters)
    requires c.totalSize <= 0
    ensures TotalTransferProgress(c) == 0
  {
  }

  /** The file counts all its bytes; if it grew, its size and a known total grow by what it grew. */
  lemma AddTransferedFields(c: Counters, size: int, addToTotals: bool, now: nat)
    ensures var d := AddTransfered(c, size, addToTotals, now);
            && d.transferedSize == c.transferedSize + size
            && d.transferedSize <= d.transferSize && c.transferSize <= d.transferSize
            && (d.transferSize == c.transferSize || d.transferSize == d.transferedSize)
            && d.totalSize - c.totalSize == (if c.totalSizeSet then d.transferSize - c.transferSize else 0)
            && d.totalTransfered == c.totalTransfered + (if addToTotals then size else 0)
            && d.totalSkipped == c.totalSkipped && d.skippedSize == c.skippedSize
            && d.localSize == c.localSize && d.locallyUsed == c.locallyUsed
  {
  }

  /** Resumed bytes are skipped ones that the file has already, here and on the other side. */
  lemma AddResumedFields(c: Counters, size: nat, now: nat)
    ensures var d := AddResumed(c, size, now);
            && d.totalSkipped == c.totalSkipped + size && d.skippedSize == c.skippedSize + size
            && d.transferedSize == c.transferedSize + size && d.totalTransfered == c.totalTransfered
            && d.locallyUsed == c.locallyUsed + size && c.localSize <= d.localSize && d.locallyUsed <= d.localSize
            && (d.localSize == c.localSize || d.localSize == d.locallyUsed)
            && d.ticks == c.ticks
  {
    AddTransferedFields(c, size, false, now);
  }

  /** Leaving a file: what is missing of its size is skipped, and all its counters start anew. */
  lemma ClearTransferFields(c: Counters)
    requires 0 <= c.transferedSize
    ensures var d := ClearTransfer(c);
            && d.totalSkipped - c.totalSkipped >= 0 && d.totalSkipped - c.totalSkipped >= Remaining(c)
            && (d.totalSkipped == c.totalSkipped || d.totalSkipped - c.totalSkipped == Remaining(c))
            && d.localSize == d.locallyUsed == d.transferSize == d.transferedSize == d.skippedSize == 0
            && d.totalTransfered == c.totalTransfered && d.totalSize == c.totalSize
            && d.ticks == c.ticks && d.totalTransferredThen == c.totalTransferredThen
  {
  }

  /** Taking a file back: of what it counted as transferred only what was not skipped is in the
      totals as transferred. Its size stays in the total, and its local size is kept. */
  lemma RollbackTransferFields(c: Counters)
    ensures var d := RollbackTransfer(c);
            && c.totalTransfered - d.totalTransfered + (c.totalSkipped - d.totalSkipped) == c.transferedSize
            && c.totalSkipped - d.totalSkipped == c.skippedSize
            && d.transferSize == d.transferedSize == d.skippedSize == d.locallyUsed == 0
            && d.localSize == c.localSize && d.totalSize == c.totalSize && d.ticks == d.totalTransferredThen == []
  {
  }

  /** A sample is taken a thousand milliseconds after the last one, or when the clock went back,
      and the oldest of more than ten is dropped. */
  lemma TicksTaken(c: Counters, now: nat)
    requires |c.ticks| <= 10 && (c.ticks == [] || now < c.ticks[|c.ticks| - 1] || c.ticks[|c.ticks| - 1] + 1000 <= now)
    ensures Sampled(c, now).ticks == if |c.ticks| == 10 then c.ticks[1..] + [now] else c.ticks + [now]
  {
    assert |c.ticks| == 10 ==> (c.ticks + [now])[1..] == c.ticks[1..] + [now];
  }

  lemma TotalsTaken(c: Counters, now: nat)
    requires |c.ticks| == |c.totalTransferredThen| <= 10
    requires c.ticks == [] || now < c.ticks[|c.ticks| - 1] || c.ticks[|c.ticks| - 1] + 1000 <= now
    ensures var s, x := c.totalTransferredThen, c.totalTransfered;
            Sampled(c, now).totalTransferredThen == if |s| == 10 then s[1..] + [x] else s + [x]
  {
    var s, x := c.totalTransferredThen, c.totalTransfered;
    assert |s| == 10 ==> (s + [x])[1..] == s[1..] + [x];
  }

  lemma NoSampleTaken(c: Counters, now: nat)
    requires |c.ticks| == |c.totalTransferredThen| <= 10
    requires c.ticks != [] && c.ticks[|c.ticks| - 1] <= now < c.ticks[|c.ticks| - 1] + 1000
    ensures Sampled(c, now) == c
  {
  }

  // ----- The percentage -----

  /** The percentage is full exactly when the part has reached the whole. */
  lemma PercentOf(part: int, whole: int)
    requires whole > 0
    ensures Div(part * 100, whole) >= 100 <==> part >= whole
    ensures part >= 0 ==> Div(part * 100, whole) >= 0
  {
    if part >= 0 {
      var q := part * 100 / whole;
      MulMonotonic(100, q, whole);
      MulMonotonic(q + 1, 100, whole);
    } else {
      MulMonotonic(1, -part * 100 / whole, whole);
    }
  }

  /** Until then it is what transferred and skipped bytes make of the total, rounded down. */
  lemma PercentRoundsDown(c: Counters)
    requires 0 <= c.totalTransfered + c.totalSkipped < c.totalSize
    ensures var p := TotalTransferProgress(c);
            p * c.totalSize <= 100 * (c.totalTransfered + c.totalSkipped) < (p + 1) * c.totalSize
  {
    var part, whole := c.totalTransfered + c.totalSkipped, c.totalSize;
    var q := part * 100 / whole;
    assert q * whole <= part * 100 < (q + 1) * whole;
    PercentOf(part, whole);
  }

  /** At any point of any run with a positive total, the reported progress is a percentage, and
      it is 100 just when what is left of this file and pending is no more than what was lost. */
  lemma ProgressIsExact(size: nat, events: seq<Event>)
    ensures var r := After(Started(size), events);
            r.c.totalSize > 0 ==>
              && 0 <= TotalTransferProgress(r.c) <= 100
              && (TotalTransferProgress(r.c) == 100 <==> Remaining(r.c) + r.pending <= Lost(Started(size), events))
  {
    RunKeepsInv(Started(size), events);
    RunBalance(Started(size), events);
    var c := After(Started(size), events).c;
    if c.totalSize > 0 {
      PercentOf(c.totalTransfered + c.totalSkipped, c.totalSize);
    }
  }

  /** A run that was stopped reports 100 exactly if no more is pending than was lost: in
      particular if every file was started or skipped. */
  lemma FinishedRunReports100(size: nat, events: seq<Event>)
    ensures var end := After(Started(size), events + [Stop]);
            end.c.totalSize > 0 ==>
              (TotalTransferProgress(end.c) == 100 <==> end.pending <= Lost(Started(size), events + [Stop]))
  {
    ProgressIsExact(size, events + [Stop]);
    AfterSnoc(Started(size), events, Stop);
  }

  // ----- One file, rolled back -----

  /** What may happen to a file between its start and its rollback. */
  predicate WithinFile(events: seq<Event>) {
    forall e | e in events :: e.Data? || e.Resumed? || e.UsedLocally? || e.SizeChanged? || e.SizeKnown?
  }

  lemma {:induction false} FileKeepsBefore(r: Run, events: seq<Event>)
    requires WithinFile(events)
    ensures TransferedBefore(After(r, events).c) == TransferedBefore(r.c)
    ensures SkippedBefore(After(r, events).c) == SkippedBefore(r.c)
    decreases events
  {
    if events != [] {
      assert events[0] in events && forall e | e in events[1..] :: e in events;
      FileKeepsBefore(Step(r, events[0]), events[1..]);
    }
  }

  /** Rolling back undoes everything a file did to the totals, whatever happened in it, and it
      hands the file's size back to the pending sum. */
  lemma RollbackUndoesFile(r: Run, events: seq<Event>)
    requires WithinFile(events) && r.c.transferedSize == 0 && r.c.skippedSize == 0
    ensures var end := After(r, events + [Rollback]);
            && end.c.totalTransfered == r.c.totalTransfered && end.c.totalSkipped == r.c.totalSkipped
            && end.pending == After(r, events).pending + After(r, events).c.transferSize
  {
    FileKeepsBefore(r, events);
    AfterSnoc(r, events, Rollback);
  }
}
