/** The 30-second demo session of src/contexts/DemoAuthContext.tsx as a state
    machine. `Date.now()` is the explicit parameter `now` of each event, and the
    interval is a flag: while it runs, the page delivers `Tick` events. */
module DemoAuth {
  import opened Wrappers
  import opened JsText
  import opened WebStorage

  /** `BYPASS_DURATION`, in milliseconds. */
  const BypassDuration := 30 * 1000

  const AuthKey := "demo-auth"
  const StartKey := "demo-auth-start-time"

  /** What is left of a session started at `start`, at time `now`. */
  function Remaining(start: int, now: int): (r: int)
    ensures now >= start ==> r <= BypassDuration
    ensures r > 0 <==> now - start < BypassDuration
  {
    BypassDuration - (now - start)
  }

  class DemoSession {
    /** `isAuthenticated` */
    var isAuthenticated: bool
    /** `timeRemaining`; `None` is `null`. */
    var timeRemaining: Option<int>
    /** `startTimeRef.current` */
    var startTime: Option<int>
    /** `timerRef.current !== null` */
    var timerRunning: bool
    /** The browser's local storage. */
    const storage: LocalStorage

    /** An authenticated session has a start time and a positive remaining time
        that was computed from that start. */
    ghost predicate Valid()
      reads this
    {
      isAuthenticated ==> startTime.Some? && timeRemaining.Some? && timeRemaining.value > 0
    }

    /** The session flag mirrors the stored `demo-auth` entry. */
    ghost predicate Synced()
      reads this, storage
    {
      isAuthenticated <==> storage.GetItem(AuthKey) == Some("true")
    }

    constructor (storage: LocalStorage)
      ensures Valid()
      ensures !isAuthenticated && timeRemaining == None && startTime == None && !timerRunning
      ensures this.storage == storage
    {
      isAuthenticated := false;
      timeRemaining := None;
      startTime := None;
      timerRunning := false;
      this.storage := storage;
    }

    /** `startTimer`: the previous interval, if any, is cleared and a new one runs. */
    method StartTimer()
      modifies this
      ensures timerRunning
      ensures isAuthenticated == old(isAuthenticated) && timeRemaining == old(timeRemaining)
      ensures startTime == old(startTime)
    {
      timerRunning := true;
    }

    /** The mount effect: restores a saved session that is still running and
        forgets an expired one. A start time that does not parse is NaN, which
        counts as expired. */
    method Mount(now: int)
      requires Valid() && !isAuthenticated && !timerRunning
      modifies this, storage
      ensures Valid()
      ensures var savedAuth, savedStart := old(storage.GetItem(AuthKey)), old(storage.GetItem(StartKey));
        var start := if savedStart.Some? then ParseInt(savedStart.value) else None;
        if savedAuth == Some("true") && savedStart.Some? && savedStart.value != "" then
          if start.Some? && Remaining(start.value, now) > 0 then
            && isAuthenticated && startTime == start && timeRemaining == Some(Remaining(start.value, now))
            && timerRunning && storage.items == old(storage.items)
          else
            && !isAuthenticated && timeRemaining == old(timeRemaining) && !timerRunning
            && storage.items == old(storage.items) - {AuthKey, StartKey}
        else
          !isAuthenticated && timeRemaining == old(timeRemaining) && !timerRunning && storage.items == old(storage.items)
      ensures Synced() <==> !(old(storage.GetItem(AuthKey)) == Some("true") &&
                              (old(storage.GetItem(StartKey)) == None || old(storage.GetItem(StartKey)).value == ""))
      ensures isAuthenticated && now >= startTime.value ==> 0 < timeRemaining.value <= BypassDuration
    {
      var savedAuth := storage.GetItem(AuthKey);
      var savedStart := storage.GetItem(StartKey);
      if savedAuth == Some("true") && savedStart.Some? && savedStart.value != "" {
        var start := ParseInt(savedStart.value);
        if start.Some? && Remaining(start.value, now) > 0 {
          var remaining := Remaining(start.value, now);
          isAuthenticated := true;
          startTime := start;
          timeRemaining := Some(remaining);
          StartTimer();
        } else {
          storage.RemoveItem(AuthKey);
          storage.RemoveItem(StartKey);
          assert storage.items == old(storage.items) - {AuthKey} - {StartKey};
        }
      }
    }

    /** One firing of the interval at time `now`. Nothing happens without a
        running interval or with a falsy start time (`null` or 0). */
    method Tick(now: int)
      requires Valid()
      modifies this, storage
      ensures Valid()
      ensures !(old(timerRunning) && old(startTime).Some? && old(startTime).value != 0) ==>
                && isAuthenticated == old(isAuthenticated) && timeRemaining == old(timeRemaining)
                && timerRunning == old(timerRunning) && storage.items == old(storage.items)
      ensures old(timerRunning) && old(startTime).Some? && old(startTime).value != 0 ==>
                var remaining := Remaining(old(startTime).value, now);
                if remaining > 0 then
                  && isAuthenticated == old(isAuthenticated) && timeRemaining == Some(remaining)
                  && timerRunning && storage.items == old(storage.items)
                else
                  && !isAuthenticated && timeRemaining == None && !timerRunning
                  && storage.items == old(storage.items) - {AuthKey, StartKey}
      ensures startTime == old(startTime)
      ensures old(Synced()) ==> Synced()
      ensures old(timerRunning) && isAuthenticated && startTime.value != 0 && now >= startTime.value ==>
                0 < timeRemaining.value <= BypassDuration
    {
      if timerRunning && startTime.Some? && startTime.value != 0 {
        var remaining := Remaining(startTime.value, now);
        if remaining > 0 {
          timeRemaining := Some(remaining);
        } else {
          isAuthenticated := false;
          timeRemaining := None;
          storage.RemoveItem(AuthKey);
          storage.RemoveItem(StartKey);
          assert storage.items == old(storage.items) - {AuthKey} - {StartKey};
          timerRunning := false;
        }
      }
    }

    /** `bypassLogin` at time `now`. */
    method BypassLogin(now: nat)
      modifies this, storage
      ensures Valid() && Synced()
      ensures isAuthenticated && timeRemaining == Some(BypassDuration) && startTime == Some(now) && timerRunning
      ensures storage.items == old(storage.items)[AuthKey := "true"][StartKey := NatToString(now)]
    {
      isAuthenticated := true;
      timeRemaining := Some(BypassDuration);
      startTime := Some(now);
      storage.SetItem(AuthKey, "true");
      storage.SetItem(StartKey, NatToString(now));
      StartTimer();
    }

    /** `logout` */
    method Logout()
      modifies this, storage
      ensures Valid() && Synced()
      ensures !isAuthenticated && timeRemaining == None && startTime == None && !timerRunning
      ensures storage.items == old(storage.items) - {AuthKey, StartKey}
    {
      isAuthenticated := false;
      timeRemaining := None;
      startTime := None;
      storage.RemoveItem(AuthKey);
      storage.RemoveItem(StartKey);
      assert storage.items == old(storage.items) - {AuthKey} - {StartKey};
      timerRunning := false;
    }

    /** The unmount cleanup: the interval stops. */
    method Unmount()
      modifies this
      ensures !timerRunning
      ensures isAuthenticated == old(isAuthenticated) && timeRemaining == old(timeRemaining)
      ensures startTime == old(startTime)
    {
      timerRunning := false;
    }
  }
}
