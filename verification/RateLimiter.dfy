/**
 The sliding-window rate limiter shared by all TMDB clients. One call runs at a time under the
 limiter's lock. Readings of the clock are parameters: `now` at the start of a call, and a delay
 that the wake-up adds to the sleep that was asked for.
 */
module RateLimiter {

  const MAX_PER_SECOND: nat := 50

  /** Consecutive readings of a clock that does not run backwards. */
  ghost predicate Ascending(times: seq<real>) {
    forall i, j :: 0 <= i < j < |times| ==> times[i] <= times[j]
  }

  /** Any request and the one `MAX_PER_SECOND` places later are at least a second apart. */
  ghost predicate Spaced(times: seq<real>) {
    forall k :: 0 <= k && k + MAX_PER_SECOND < |times| ==> times[k + MAX_PER_SECOND] - times[k] >= 1.0
  }

  /**
   The deque is the end of the history, what left it is a second old by the clock, and the history
   keeps the rate limit.
   */
  ghost predicate IsWindow(timestamps: seq<real>, history: seq<real>, gone: nat, clock: real) {
    && |timestamps| <= MAX_PER_SECOND
    && |history| == gone + |timestamps|
    && timestamps == history[gone..]
    && (forall k :: 0 <= k < gone ==> clock - history[k] >= 1.0)
    && (forall k :: 0 <= k < |history| ==> history[k] <= clock)
    && Ascending(history)
    && Spaced(history)
  }

  /** The last fifty requests are all younger than a second. */
  predicate IsBusy(history: seq<real>, now: real) {
    |history| >= MAX_PER_SECOND && now - history[|history| - MAX_PER_SECOND] < 1.0
  }

  /** The deque is full exactly then. */
  lemma FullWhenBusy(timestamps: seq<real>, history: seq<real>, gone: nat, now: real)
    requires IsWindow(timestamps, history, gone, now)
    requires timestamps != [] ==> now - timestamps[0] < 1.0
    ensures |timestamps| >= MAX_PER_SECOND <==> IsBusy(history, now)
    ensures IsBusy(history, now) ==> timestamps[0] == history[|history| - MAX_PER_SECOND]
  {
  }

  /** And then exactly fifty requests are: those before them are a second old. */
  lemma BusyMeansFifty(timestamps: seq<real>, history: seq<real>, gone: nat, now: real)
    requires IsWindow(timestamps, history, gone, now)
    ensures IsBusy(history, now)
            <==> |history| >= 50 && forall k :: |history| - 50 <= k < |history| ==> now - history[k] < 1.0
  {
  }

  lemma RecordKeepsWindow(timestamps: seq<real>, history: seq<real>, gone: nat, clock: real, stamp: real)
    requires IsWindow(timestamps, history, gone, clock) && clock <= stamp && |timestamps| < MAX_PER_SECOND
    ensures IsWindow(timestamps + [stamp], history + [stamp], gone, stamp)
  {
    RecordKeepsSpacing(history, gone, stamp);
    assert (history + [stamp])[gone..] == history[gone..] + [stamp];
  }

  lemma PopKeepsWindow(timestamps: seq<real>, history: seq<real>, gone: nat, clock: real, now: real)
    requires IsWindow(timestamps, history, gone, clock) && clock <= now
    requires timestamps != [] && now - timestamps[0] >= 1.0
    ensures IsWindow(timestamps[1..], history, gone + 1, now)
  {
    assert history[gone..][1..] == history[gone + 1..];
  }

  class Limiter {
    var timestamps: seq<real>
    /** Every request ever recorded, how many of them left the deque, and the last reading of the clock. */
    ghost var history: seq<real>
    ghost var gone: nat
    ghost var clock: real

    ghost predicate Valid()
      reads this
    {
      IsWindow(timestamps, history, gone, clock)
    }

    constructor (start: real)
      ensures Valid() && history == [] && clock == start
    {
      timestamps, history, gone, clock := [], [], 0, start;
    }

    /** A deque with `maxlen`: appending to a full one silently drops its first entry. */
    method Append(time: real)
      modifies this`timestamps
      ensures timestamps
              == (if |old(timestamps)| >= MAX_PER_SECOND then old(timestamps)[1..] else old(timestamps)) + [time]
    {
      if |timestamps| >= MAX_PER_SECOND {
        timestamps := timestamps[1..];
      }
      timestamps := timestamps + [time];
    }

    /** Takes the oldest timestamp, at least a second old by now, out of the deque. */
    method PopOldest(now: real)
      requires Valid() && timestamps != [] && clock <= now && now - timestamps[0] >= 1.0
      modifies this`timestamps, this`gone, this`clock
      ensures Valid() && clock == now
      ensures timestamps == old(timestamps)[1..]
    {
      PopKeepsWindow(timestamps, history, gone, clock, now);
      timestamps, gone, clock := timestamps[1..], gone + 1, now;
    }

    /** Drops the timestamps that are at least a second old; those that stay are younger. */
    method DropExpired(now: real)
      requires Valid() && clock <= now
      modifies this`timestamps, this`gone, this`clock
      ensures Valid() && clock == now
      ensures timestamps != [] ==> now - timestamps[0] < 1.0
    {
      clock := now;
      while timestamps != [] && now - timestamps[0] >= 1.0
        invariant Valid() && clock == now
        decreases |timestamps|
      {
        PopOldest(now);
      }
    }

    /** Records a request in a deque that is not full: the bound on its length discards nothing. */
    method Record(stamp: real)
      requires Valid() && clock <= stamp && |timestamps| < MAX_PER_SECOND
      modifies this
      ensures Valid() && clock == stamp
      ensures history == old(history) + [stamp] && timestamps == old(timestamps) + [stamp]
    {
      RecordKeepsWindow(timestamps, history, gone, clock, stamp);
      Append(stamp);
      history, clock := history + [stamp], stamp;
    }

    /**
     One request: without fifty requests younger than a second it is recorded at once. With them it
     waits until the fiftieth last is a second old and no longer, unless it is canceled while it sleeps.
     */
    method WaitForRateLimit(now: real, oversleep: real, canceled: bool) returns (recorded: bool)
      requires Valid() && clock <= now && oversleep >= 0.0
      modifies this
      ensures Valid()
      ensures recorded <==> !(IsBusy(old(history), now) && canceled)
      ensures history == if recorded then old(history) + [clock] else old(history)
      ensures !IsBusy(old(history), now) ==> clock == now + oversleep
      ensures IsBusy(old(history), now) && !canceled ==>
                && clock == old(history)[|old(history)| - MAX_PER_SECOND] + 1.0 + oversleep
                && timestamps == old(history)[|old(history)| - MAX_PER_SECOND + 1..] + [clock]
      ensures !IsBusy(old(history), now) ==>
                && gone <= |old(history)| && timestamps == old(history)[gone..] + [clock]
                && forall k :: 0 <= k < |old(history)| ==> (k < gone <==> now - old(history)[k] >= 1.0)
    {
      DropExpired(now);
      FullWhenBusy(timestamps, history, gone, now);
      var slept := 0.0;
      if |timestamps| >= MAX_PER_SECOND {
        var sleepTime := 1.0 - (now - timestamps[0]);
        if sleepTime > 0.0 {
          if canceled {
            return false;
          }
          slept := sleepTime;
          PopOldest(now + slept + oversleep);
        }
      }
      Record(now + slept + oversleep);
      return true;
    }
  }

  lemma RecordKeepsSpacing(history: seq<real>, gone: nat, stamp: real)
    requires Ascending(history) && Spaced(history)
    requires gone <= |history| < gone + MAX_PER_SECOND
    requires forall k :: 0 <= k < gone ==> stamp - history[k] >= 1.0
    requires forall k :: 0 <= k < |history| ==> history[k] <= stamp
    ensures Ascending(history + [stamp]) && Spaced(history + [stamp])
  {
  }

  // -------------------------------------------------------------------------------------------
  // What the spacing means

  /** How many of some requests were made in the second that starts at a time. */
  function CountFrom(times: seq<real>, start: real): nat {
    if times == [] then 0
    else (if start <= times[0] < start + 1.0 then 1 else 0) + CountFrom(times[1..], start)
  }

  lemma {:induction false} CountAfter(times: seq<real>, start: real)
    requires forall k :: 0 <= k < |times| ==> times[k] >= start + 1.0
    ensures CountFrom(times, start) == 0
  {
    if times != [] { CountAfter(times[1..], start); }
  }

  lemma {:induction false} CountSplit(first: seq<real>, second: seq<real>, start: real)
    ensures CountFrom(first + second, start) == CountFrom(first, start) + CountFrom(second, start)
    ensures CountFrom(first, start) <= |first|
  {
    if first == [] {
      assert first + second == second;
    } else {
      CountSplit(first[1..], second, start);
      assert (first + second)[1..] == first[1..] + second;
    }
  }

  /** A spaced history never has more than fifty requests within any one second. */
  lemma {:induction false} NoSecondIsOverfull(times: seq<real>, start: real)
    requires Ascending(times) && Spaced(times)
    ensures CountFrom(times, start) <= MAX_PER_SECOND
  {
    if times != [] && times[0] < start {
      forall k | 0 <= k && k + MAX_PER_SECOND < |times[1..]|
        ensures times[1..][k + MAX_PER_SECOND] - times[1..][k] >= 1.0
      {
        assert times[1..][k + MAX_PER_SECOND] == times[k + 1 + MAX_PER_SECOND];
      }
      NoSecondIsOverfull(times[1..], start);
    } else if |times| > MAX_PER_SECOND {
      var first, rest := times[..MAX_PER_SECOND], times[MAX_PER_SECOND..];
      assert times == first + rest;
      CountSplit(first, rest, start);
      assert times[0 + MAX_PER_SECOND] - times[0] >= 1.0;
      forall k | 0 <= k < |rest| ensures rest[k] >= start + 1.0 {
        assert rest[k] == times[k + MAX_PER_SECOND] >= times[MAX_PER_SECOND];
      }
      CountAfter(rest, start);
    } else {
      CountSplit(times, [], start);
    }
  }

  /** Conversely, a history whose every second has at most fifty requests is spaced. */
  lemma OverfullSecondWithoutSpacing(times: seq<real>, k: nat)
    requires Ascending(times)
    requires k + MAX_PER_SECOND < |times| && times[k + MAX_PER_SECOND] - times[k] < 1.0
    ensures CountFrom(times, times[k]) > MAX_PER_SECOND
  {
    var start := times[k];
    var middle := times[k..k + MAX_PER_SECOND + 1];
    CountAll(middle, start);
    assert times == times[..k] + (middle + times[k + MAX_PER_SECOND + 1..]);
    CountSplit(times[..k], middle + times[k + MAX_PER_SECOND + 1..], start);
    CountSplit(middle, times[k + MAX_PER_SECOND + 1..], start);
  }

  lemma {:induction false} CountAll(times: seq<real>, start: real)
    requires forall i :: 0 <= i < |times| ==> start <= times[i] < start + 1.0
    ensures CountFrom(times, start) == |times|
  {
    if times != [] { CountAll(times[1..], start); }
  }
}
