/** `SchedulerService`: a periodic cleanup driven by a timer. The timer itself is an abstract
    handle that only records its interval and whether it was disposed; a firing of the timer
    is a call of `DoScheduledCleanup`. */
module Scheduler {
  import opened Common
  import opened Options
  import opened Manager

  /** The milliseconds in an hour. */
  const MillisPerHour := 3600000

  /** The longest due time and period a `System.Threading.Timer` accepts, in milliseconds. */
  const MaxTimerMillis := 4294967294

  /** The largest magnitude, in hours, `TimeSpan.FromHours` can represent. */
  const MaxTimeSpanHours := 256204778

  /** The intervals, in whole hours, a timer can be built with. */
  predicate ValidInterval(hours: int) {
    0 <= hours * MillisPerHour <= MaxTimerMillis
  }

  /** Whole hours make a valid timer interval exactly from 0 to 1193 hours. */
  lemma ValidIntervalRange(hours: int)
    ensures ValidInterval(hours) <==> 0 <= hours <= 1193
  {
    if hours > 1193 {
      assert hours * MillisPerHour >= 1194 * MillisPerHour;
    }
    if hours < 0 {
      assert hours * MillisPerHour <= -MillisPerHour;
    }
  }

  /** What building the interval and the timer throws for an invalid interval: the
      conversion to a `TimeSpan` overflows first for huge magnitudes; otherwise the timer
      rejects its due time. */
  function IntervalError(hours: int): Exn {
    if hours > MaxTimeSpanHours || hours < -MaxTimeSpanHours then Overflow
    else ArgumentOutOfRange("dueTime")
  }

  /** A `System.Threading.Timer` that fires every `intervalHours` hours, the first time after
      one interval, until it is disposed. */
  class Timer {
    const intervalHours: nat
    var disposed: bool

    constructor(intervalHours: nat)
      ensures this.intervalHours == intervalHours && !disposed
    {
      this.intervalHours := intervalHours;
      disposed := false;
    }

    /** Disposing twice is harmless. */
    method Dispose()
      modifies this
      ensures disposed
    {
      disposed := true;
    }
  }

  class SchedulerService {
    const manager: CleaningManager
    var timer: Timer?
    /** `_options`, null until the first `ScheduleCleanup`. */
    var options: Option<CleaningOptions>
    var isScheduled: bool

    /** A scheduled service has a timer, and a timer only exists once options were given. */
    predicate Valid()
      reads this
    {
      (isScheduled ==> timer != null) && (timer != null ==> options.Some?)
    }

    constructor(manager: CleaningManager)
      ensures this.manager == manager && timer == null && options == None && !isScheduled
      ensures Valid()
    {
      this.manager := manager;
      timer := null;
      options := None;
      isScheduled := false;
    }

    /** `ScheduleCleanup`. The options are stored first, so they are replaced even when the
        interval is then rejected; the timer and `IsScheduled` change only on success. A
        previous timer is dropped without being disposed, so it keeps firing. */
    method ScheduleCleanup(o: CleaningOptions, hoursInterval: int) returns (r: Outcome<()>)
      requires Valid()
      modifies this
      ensures Valid()
      ensures options == Some(o)
      ensures r.Done? <==> ValidInterval(hoursInterval)
      ensures r.Threw? ==> r.error == IntervalError(hoursInterval) &&
                           timer == old(timer) && isScheduled == old(isScheduled)
      ensures r.Done? ==> timer != null && fresh(timer) && timer.intervalHours == hoursInterval &&
                          !timer.disposed && isScheduled
      ensures old(timer) != null ==> old(timer).disposed == old(timer.disposed)
    {
      options := Some(o);
      if !ValidInterval(hoursInterval) {
        return Threw(IntervalError(hoursInterval));
      }
      timer := new Timer(hoursInterval);
      isScheduled := true;
      r := Done(());
    }

    /** `CancelSchedule`: disposes the current timer, if any, and clears `IsScheduled`. */
    method CancelSchedule()
      requires Valid()
      modifies this, timer
      ensures Valid()
      ensures !isScheduled && timer == old(timer) && options == old(options)
      ensures timer != null ==> timer.disposed
    {
      if timer != null {
        timer.Dispose();
      }
      isScheduled := false;
    }

    /** `Dispose`: disposes the current timer, if any, but leaves `IsScheduled` as it was. */
    method Dispose()
      requires Valid()
      modifies timer
      ensures Valid()
      ensures timer != null ==> timer.disposed
    {
      if timer != null {
        timer.Dispose();
      }
    }

    /** `DoScheduledCleanup`, one firing of the timer: a cleaning with the stored options and
        no cancellation. `ran` is what the cleaning call produced; whatever it is, the firing
        itself completes normally. Without options the call fails on the null options. With
        options it can only throw for a cleaner type that was not injected, never for
        cancellation. */
    method DoScheduledCleanup(run: Cleaner -> ServiceRun) returns (r: Outcome<()>, ran: Outcome<bool>)
      ensures r == Done(())
      ensures options.None? ==> ran == Threw(NullReference)
      ensures options.Some? ==>
        (ran.Threw? <==> SelectServices(manager.cleaners, options.value).Threw?) &&
        (ran.Done? ==> (ran.value <==> forall c :: c in SelectServices(manager.cleaners, options.value).value ==>
                                                   Succeeded(run(c))))
    {
      if options.None? {
        ran := Threw(NullReference);
      } else {
        var pollsOut;
        ran, pollsOut := manager.PerformCleaning(options.value, NoCancellation, 0, run);
      }
      r := Done(());
    }
  }
}
