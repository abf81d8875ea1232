/** TFileOperationProgressType of source/core/FileOperationProgress.cpp: the byte counters and
    the speed limit. The progress callback is the environment's. */
module FileOperationProgress {
  import TransferCounters
  import opened Throttling

  /** What the operating system and the progress callback do. */
  class Environment {
    /** GetTickCount() / MSecsPerSec at each reading of the clock. */
    const second: nat -> nat
    /** The speed limit that a progress callback leaves, given how often the clock was read
        before it and the limit until then. */
    const limitAfterProgress: (nat, nat) -> nat
    var readings: nat

    constructor (second: nat -> nat, limitAfterProgress: (nat, nat) -> nat)
      ensures this.second == second && this.limitAfterProgress == limitAfterProgress && readings == 0
    {
      this.second, this.limitAfterProgress := second, limitAfterProgress;
      readings := 0;
    }

    method CurrentSecond() returns (s: nat)
      modifies this
      ensures s == second(old(readings)) && readings == old(readings) + 1
    {
      s := second(readings);
      readings := readings + 1;
    }
  }

  class TFileOperationProgress {
    const env: Environment

    var localSize: int
    var locallyUsed: int
    var transferSize: int
    var transferedSize: int
    var skippedSize: int
    var totalTransfered: int
    var totalSkipped: int
    var totalSize: int
    var totalSizeSet: bool
    var ticks: seq<nat>
    var totalTransferredThen: seq<int>

    var cpsLimit: nat
    var lastSecond: nat
    var remainingCps: nat
    /** What AdjustToCPSLimit let through since the last ClearTransfer, and in which second. */
    ghost var grants: seq<Grant>
    /** All that AdjustToCPSLimit ever let through, with or without a limit. */
    ghost var letThrough: nat

    /** The byte counters as one value. */
    ghost function Counters(): TransferCounters.Counters
      reads this
    {
      TransferCounters.Counters(localSize, locallyUsed, transferSize, transferedSize, skippedSize,
                                totalTransfered, totalSkipped, totalSize, totalSizeSet, ticks, totalTransferredThen)
    }

    /** Nothing is negative, also once the current file is taken back. */
    ghost predicate Valid()
      reads this
    {
      TransferCounters.Inv(Counters())
    }

    /** What the counters account for, less the total: with the sizes of the files not started
        yet it is zero, unless bytes were lost. */
    ghost function Balance(): int
      reads this
    {
      TransferCounters.Balance(Counters())
    }

    constructor (env: Environment, cpsLimit: nat)
      ensures this.env == env && Counters() == TransferCounters.Cleared() && Valid()
      ensures this.cpsLimit == cpsLimit && lastSecond == 0 && grants == []
    {
      this.env := env;
      localSize, locallyUsed, transferSize, transferedSize, skippedSize := 0, 0, 0, 0, 0;
      totalTransfered, totalSkipped, totalSize, totalSizeSet := 0, 0, 0, false;
      ticks, totalTransferredThen := [], [];
      this.cpsLimit, lastSecond, grants, letThrough := cpsLimit, 0, [], 0;
    }

    // ----- The byte counters -----

    method ClearTransfer()
      modifies this
      ensures Counters() == TransferCounters.ClearTransfer(old(Counters()))
      ensures lastSecond == 0 && grants == [] && cpsLimit == old(cpsLimit) && remainingCps == old(remainingCps)
      ensures old(Valid()) ==>
                && Valid()
                && Balance()
                   == old(Balance() + if transferedSize > transferSize then transferedSize - transferSize else 0)
    {
      if transferSize > 0 && transferedSize < transferSize {
        var remainingSize := transferSize - transferedSize;
        totalSkipped := totalSkipped + remainingSize;
      }
      localSize := 0;
      transferSize := 0;
      locallyUsed := 0;
      skippedSize := 0;
      transferedSize := 0;
      lastSecond := 0;
      grants := [];
    }

    method SetTotalSize(size: int)
      modifies this`totalSize, this`totalSizeSet
      ensures Counters() == TransferCounters.SetTotalSize(old(Counters()), size)
      ensures Balance() + size == old(Balance() + totalSize) && (old(Valid()) ==> Valid())
    {
      totalSize := size;
      totalSizeSet := true;
    }

    method SetTransferSize(size: int)
      modifies this`transferSize
      ensures Counters() == TransferCounters.SetTransferSize(old(Counters()), size)
      ensures Balance() == old(Balance()) + (size - old(transferSize)) && (old(Valid()) ==> Valid())
    {
      transferSize := size;
    }

    method ChangeTransferSize(size: int)
      modifies this`totalSize, this`transferSize
      ensures Counters() == TransferCounters.ChangeTransferSize(old(Counters()), size)
      ensures (totalSizeSet ==> Balance() == old(Balance())) && (old(Valid()) ==> Valid())
    {
      if totalSizeSet {
        totalSize := totalSize + (size - transferSize);
      }
      transferSize := size;
    }

    /** RollbackTransfer, its two assertions included. */
    method RollbackTransfer()
      requires Valid()
      modifies this`transferedSize, this`totalTransfered, this`ticks, this`totalTransferredThen
      modifies this`totalSkipped, this`skippedSize, this`transferSize, this`locallyUsed
      ensures Counters() == TransferCounters.RollbackTransfer(old(Counters()))
      ensures Valid() && Balance() + old(transferSize) == old(Balance())
    {
      transferedSize := transferedSize - skippedSize;
      assert transferedSize <= totalTransfered;
      totalTransfered := totalTransfered - transferedSize;
      assert skippedSize <= totalSkipped;
      ticks := [];
      totalTransferredThen := [];
      totalSkipped := totalSkipped - skippedSize;
      skippedSize := 0;
      transferedSize := 0;
      transferSize := 0;
      locallyUsed := 0;
    }

    method AddTransfered(size: int, addToTotals: bool, now: nat)
      modifies this`transferedSize, this`totalSize, this`transferSize, this`totalTransfered
      modifies this`ticks, this`totalTransferredThen
      ensures Counters() == TransferCounters.AddTransfered(old(Counters()), size, addToTotals, now)
      ensures transferedSize == old(transferedSize) + size <= transferSize
      ensures transferSize == if old(transferSize) > transferedSize then old(transferSize) else transferedSize
      ensures totalSizeSet ==> totalSize - transferSize == old(totalSize - transferSize)
      ensures totalTransfered == old(totalTransfered) + if addToTotals then size else 0
      ensures totalSizeSet ==> Balance() == old(Balance()) - if addToTotals then 0 else size
    {
      CountForFile(size);
      if addToTotals {
        totalTransfered := totalTransfered + size;
        Sample(now);
      }
    }

    /** The part of AddTransfered that counts for the file: one that grew past its size makes the
        total grow with it. */
    method CountForFile(size: int)
      modifies this`transferedSize, this`totalSize, this`transferSize
      ensures transferedSize == old(transferedSize) + size <= transferSize
      ensures transferSize == if old(transferSize) > transferedSize then old(transferSize) else transferedSize
      ensures totalSize == old(totalSize) + if totalSizeSet then transferSize - old(transferSize) else 0
    {
      transferedSize := transferedSize + size;
      if transferedSize > transferSize {
        if totalSizeSet {
          totalSize := totalSize + (transferedSize - transferSize);
        }
        transferSize := transferedSize;
      }
    }

    /** The part of AddTransfered that keeps samples for the transfer speed. */
    method Sample(now: nat)
      modifies this`ticks, this`totalTransferredThen
      ensures Counters() == TransferCounters.Sampled(old(Counters()), now)
    {
      if |ticks| == 0 || ticks[|ticks| - 1] > now || now - ticks[|ticks| - 1] >= TransferCounters.MSECS_PER_SEC {
        ticks := ticks + [now];
        totalTransferredThen := totalTransferredThen + [totalTransfered];
      }
      if |ticks| > TransferCounters.KEPT_TICKS {
        ticks := ticks[1..];
        if |totalTransferredThen| > 0 {
          totalTransferredThen := totalTransferredThen[1..];
        }
      }
    }

    method AddLocallyUsed(size: int)
      modifies this`locallyUsed, this`localSize
      ensures Counters() == TransferCounters.AddLocallyUsed(old(Counters()), size)
      ensures locallyUsed <= localSize && Balance() == old(Balance()) && (old(Valid()) && size >= 0 ==> Valid())
    {
      locallyUsed := locallyUsed + size;
      if locallyUsed > localSize {
        localSize := locallyUsed;
      }
    }

    method AddResumed(size: int, now: nat)
      modifies this`totalSkipped, this`skippedSize, this`transferedSize, this`totalSize, this`transferSize
      modifies this`totalTransfered, this`ticks, this`totalTransferredThen, this`locallyUsed, this`localSize
      ensures Counters() == TransferCounters.AddResumed(old(Counters()), size, now)
      ensures totalSizeSet ==> Balance() == old(Balance())
    {
      totalSkipped := totalSkipped + size;
      skippedSize := skippedSize + size;
      AddTransfered(size, false, now);
      AddLocallyUsed(size);
    }

    method AddSkippedFileSize(size: int)
      modifies this`totalSkipped
      ensures Counters() == TransferCounters.AddSkippedFileSize(old(Counters()), size)
      ensures Balance() == old(Balance()) + size && (old(Valid()) && size >= 0 ==> Valid())
    {
      totalSkipped := totalSkipped + size;
    }

    /** What is reported is a percentage; it is full exactly when transferred and skipped bytes
        have reached the total. */
    method TotalTransferProgress() returns (percent: int)
      ensures percent == TransferCounters.TotalTransferProgress(Counters())
      ensures percent <= 100 && (Valid() ==> percent >= 0)
      ensures percent == 100 <==> totalSize > 0 && totalTransfered + totalSkipped >= totalSize
    {
      percent := if totalSize > 0 then TransferCounters.Div((totalTransfered + totalSkipped) * 100, totalSize) else 0;
      if totalSize > 0 {
        TransferCounters.PercentOf(totalTransfered + totalSkipped, totalSize);
      }
      if percent >= 100 {
        percent := 100;
      }
    }

    /** The method that an event of a run stands for. */
    method Handle(e: TransferCounters.Event, ghost pending: int)
      requires Valid()
      modifies this
      ensures Valid()
      ensures Counters() == TransferCounters.Step(TransferCounters.Run(old(Counters()), pending), e).c
    {
      TransferCounters.StepKeepsInv(TransferCounters.Run(Counters(), pending), e);
      match e
      case FileStart => ClearTransfer();
      case SizeKnown(size) => SetTransferSize(size);
      case Data(size, now) => AddTransfered(size, true, now);
      case Resumed(size, now) => AddResumed(size, now);
      case UsedLocally(size) => AddLocallyUsed(size);
      case SizeChanged(size) => ChangeTransferSize(size);
      case FileSkipped(size) => AddSkippedFileSize(size);
      case Rollback => RollbackTransfer();
      case Stop => ClearTransfer();
    }

    /** A whole run of events: with the total known, the counters are off afterwards by what they
        were off before and what was lost. */
    method HandleAll(events: seq<TransferCounters.Event>, ghost pending: int)
      requires Valid()
      modifies this
      ensures Valid()
      ensures Counters() == TransferCounters.After(TransferCounters.Run(old(Counters()), pending), events).c
      ensures var r := TransferCounters.Run(old(Counters()), pending);
              old(totalSizeSet) ==>
                Balance() + TransferCounters.After(r, events).pending
                == old(Balance()) + pending + TransferCounters.Lost(r, events)
    {
      ghost var r := TransferCounters.Run(Counters(), pending);
      ghost var start := r;
      for i := 0 to |events|
        invariant r == TransferCounters.After(start, events[..i]) && Counters() == r.c && Valid()
      {
        TransferCounters.AfterSnoc(start, events[..i], events[i]);
        assert events[..i + 1] == events[..i] + [events[i]];
        Handle(events[i], r.pending);
        r := TransferCounters.Step(r, events[i]);
      }
      assert events[..|events|] == events;
      if start.c.totalSizeSet {
        TransferCounters.RunBalance(start, events);
      }
    }

    // ----- The speed limit -----

    /** The bookkeeping of the current second agrees with what was let through in it. */
    ghost predicate Throttled(limit: nat)
      reads this, env
    {
      && cpsLimit == limit > 0
      && WithinLimit(grants, limit)
      && (forall i | 0 <= i < |grants| :: grants[i].second <= lastSecond)
      && (if lastSecond == 0 then grants == [] else remainingCps + GrantedIn(grants, lastSecond) == limit)
      && (forall k | k >= env.readings :: lastSecond <= env.second(k))
    }

    /** One pass of the waiting loop: look at the clock, and if there is nothing left to grant,
        report progress. */
    method WaitPass(ghost limit: nat)
      requires cpsLimit > 0
      modifies env, this`cpsLimit, this`lastSecond, this`remainingCps
      ensures env.readings == old(env.readings) + 1
      ensures lastSecond == env.second(old(env.readings)) && (ClockRuns(env.second) ==> lastSecond > 0)
      ensures old(lastSecond) != lastSecond ==> remainingCps == old(cpsLimit)
      ensures old(lastSecond) == lastSecond ==> remainingCps == old(remainingCps)
      ensures remainingCps > 0 ==> cpsLimit == old(cpsLimit)
      ensures SteadyLimit(env.limitAfterProgress) ==> cpsLimit == old(cpsLimit)
      ensures old(Throttled(limit)) && SteadyLimit(env.limitAfterProgress) && ClockRuns(env.second) ==> Throttled(limit)
    {
      ghost var clock, k := env.second, env.readings;
      var second := env.CurrentSecond();
      if second != lastSecond {
        remainingCps := cpsLimit;
        lastSecond := second;
      }
      if remainingCps == 0 {
        cpsLimit := env.limitAfterProgress(env.readings, cpsLimit);
      }
      assert ClockRuns(clock) ==> forall j | j >= k :: clock(k) <= clock(j);
      if old(lastSecond) != lastSecond && old(Throttled(limit)) && ClockRuns(clock) {
        NothingGrantedYet(grants, lastSecond, old(lastSecond));
      }
    }

    /** The waiting loop of AdjustToCPSLimit: it ends with something to grant, or without a limit.
        The ghost function next names a later reading in a later second; that there is one is what
        makes the loop end. */
    method WaitForCps(ghost next: nat -> nat, ghost limit: nat)
      requires ClockAdvances(env.second, next) && cpsLimit > 0
      modifies env, this`cpsLimit, this`lastSecond, this`remainingCps
      ensures cpsLimit == 0 || remainingCps > 0
      ensures cpsLimit > 0 ==>
                remainingCps
                == if old(remainingCps) > 0 && lastSecond == old(lastSecond) then old(remainingCps) else cpsLimit
      ensures env.readings >= old(env.readings)
      ensures SteadyLimit(env.limitAfterProgress) ==> cpsLimit == old(cpsLimit)
      ensures old(Throttled(limit)) && SteadyLimit(env.limitAfterProgress) && ClockRuns(env.second)
              ==> Throttled(limit) && lastSecond > 0
    {
      ghost var start := env.readings;
      ghost var steady := old(Throttled(limit)) && SteadyLimit(env.limitAfterProgress) && ClockRuns(env.second);
      WaitPass(limit);
      while cpsLimit > 0 && remainingCps == 0
        invariant env.readings > start
        invariant cpsLimit > 0 && remainingCps == 0 ==> lastSecond == env.second(start) && env.readings <= next(start)
        invariant cpsLimit > 0 && remainingCps == 0 ==> old(remainingCps) == 0
        invariant cpsLimit > 0 && remainingCps > 0 ==>
                    remainingCps
                    == if old(remainingCps) > 0 && lastSecond == old(lastSecond) then old(remainingCps) else cpsLimit
        invariant SteadyLimit(env.limitAfterProgress) ==> cpsLimit == old(cpsLimit)
        invariant steady ==> Throttled(limit) && lastSecond > 0
        decreases next(start) - env.readings
      {
        WaitPass(limit);
      }
    }

    /** AdjustToCPSLimit */
    method AdjustToCPSLimit(size: nat, ghost next: nat -> nat, ghost limit: nat) returns (granted: nat)
      requires ClockAdvances(env.second, next)
      modifies env, this`cpsLimit, this`lastSecond, this`remainingCps, this`grants, this`letThrough
      ensures granted <= size && (size > 0 ==> granted > 0) && letThrough == old(letThrough) + granted
      ensures old(cpsLimit) == 0 || cpsLimit == 0 ==> granted == size
      ensures old(cpsLimit) > 0 && cpsLimit > 0 ==>
                var left :=
                  if old(remainingCps) > 0 && lastSecond == old(lastSecond) then old(remainingCps) else cpsLimit;
                granted == (if left < size then left else size) && remainingCps == left - granted
      ensures env.readings >= old(env.readings)
      ensures grants == old(grants) + (if old(cpsLimit) > 0 && cpsLimit > 0 then [Grant(lastSecond, granted)] else [])
      ensures SteadyLimit(env.limitAfterProgress) ==> cpsLimit == old(cpsLimit)
      ensures old(Throttled(limit)) && SteadyLimit(env.limitAfterProgress) && ClockRuns(env.second) ==> Throttled(limit)
    {
      granted := size;
      if cpsLimit > 0 {
        WaitForCps(next, limit);
        if cpsLimit > 0 {
          if remainingCps < size {
            granted := remainingCps;
          }
          remainingCps := remainingCps - granted;
          grants := grants + [Grant(lastSecond, granted)];
          GrantMore(old(grants), limit, lastSecond, granted);
        }
      }
      letThrough := letThrough + granted;
    }

    /** ThrottleToCPSLimit: the grants add up to the size asked for, whatever limit there is and
        whatever progress callbacks do to it. */
    method ThrottleToCPSLimit(size: nat, ghost next: nat -> nat, ghost limit: nat)
      requires ClockAdvances(env.second, next)
      modifies env, this`cpsLimit, this`lastSecond, this`remainingCps, this`grants, this`letThrough
      ensures letThrough == old(letThrough) + size
      ensures old(Throttled(limit)) && SteadyLimit(env.limitAfterProgress) && ClockRuns(env.second)
              ==> Throttled(limit) && Total(grants) == Total(old(grants)) + size
    {
      var remaining := size;
      ghost var steady := old(Throttled(limit)) && SteadyLimit(env.limitAfterProgress) && ClockRuns(env.second);
      while remaining > 0
        invariant 0 <= remaining && letThrough + remaining == old(letThrough) + size
        invariant steady ==> Throttled(limit) && Total(grants) == Total(old(grants)) + (size - remaining)
      {
        ghost var before := grants;
        var granted := AdjustToCPSLimit(remaining, next, limit);
        GrantMore(before, limit, lastSecond, granted);
        remaining := remaining - granted;
      }
    }

    /** A throttled transfer of one file: under a steady positive limit, exactly the requested
        amount goes through, never more than the limit in one second, and so over at least
        ceil(size / limit) distinct seconds. */
    method ThrottleFile(size: nat, ghost next: nat -> nat)
      requires ClockAdvances(env.second, next) && ClockRuns(env.second) && SteadyLimit(env.limitAfterProgress)
      requires cpsLimit > 0
      modifies env, this
      ensures cpsLimit == old(cpsLimit) && Total(grants) == size && WithinLimit(grants, cpsLimit)
      ensures |Seconds(grants)| >= SecondsNeeded(size, cpsLimit)
    {
      ghost var limit := cpsLimit;
      ClearTransfer();
      assert Throttled(limit);
      ThrottleToCPSLimit(size, next, limit);
      ManySeconds(grants, limit);
    }
  }

  /** An operation from start to stop over files of this total size: bytes are conserved in the
      end exactly if no file was left that transferred more than its size, and the progress is
      full exactly if no more is pending than was lost. */
  method RunOperation(env: Environment, cpsLimit: nat, size: nat, events: seq<TransferCounters.Event>)
    returns (progress: TFileOperationProgress, percent: int)
    ensures fresh(progress) && progress.Valid()
    ensures var all := events + [TransferCounters.Stop];
            var end := TransferCounters.After(TransferCounters.Started(size), all);
            var lost := TransferCounters.Lost(TransferCounters.Started(size), all);
            && progress.totalTransfered + progress.totalSkipped + end.pending == progress.totalSize + lost
            && (lost == 0 <==> TransferCounters.NeverLoses(TransferCounters.Started(size), all))
            && (progress.totalSize > 0 ==> (percent == 100 <==> end.pending <= lost))
  {
    progress := new TFileOperationProgress(env, cpsLimit);
    progress.SetTotalSize(size);
    ghost var start := TransferCounters.Started(size);
    assert progress.Counters() == start.c;
    progress.HandleAll(events + [TransferCounters.Stop], size);
    TransferCounters.AfterSnoc(start, events, TransferCounters.Stop);
    TransferCounters.NothingLost(start, events + [TransferCounters.Stop]);
    percent := progress.TotalTransferProgress();
  }
}
