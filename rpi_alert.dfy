/**
 * The alert poller of `RpiAlertCog`: the text extracted from the alert
 * document, the two cached fields `LAST_ALERT_CACHED` / `ALERT_CACHE_TIME`
 * and the decision, on every poll, whether a new alert embed is produced.
 *
 * Timestamps are integers (what `datetime.now()` returns is supplied by the
 * caller); a fetch that raises is `None`.
 */
module RpiAlert {
  import opened Wrappers
  import opened PyStr

  const AlertStart: string := "alert_content = "
  const AlertEnd: string := "alert_default ="

  /** What the cache holds after a poll that extracted no text. */
  const NoActiveAlerts: string := "No active alerts detected."

  /*
   * Text extraction
   */

  /**
   * The alert text of a fetched document: from one character past the
   * start marker to three characters before the end marker, stripped.
   * Both markers are looked up with `find`, and a missing one (-1) simply
   * shifts the Python slice, which clamps instead of failing.
   */
  function ExtractAlert(doc: string): (r: string)
    ensures NoOuterSpace(r)
    ensures |r| <= |doc|
  {
    Strip(PySlice(doc, Find(doc, AlertStart) + |AlertStart| + 1, Find(doc, AlertEnd) - 3))
  }

  /** The extraction's slice bounds, with the start marker's length written out. */
  lemma ExtractSlice(doc: string)
    ensures ExtractAlert(doc) == Strip(PySlice(doc, Find(doc, AlertStart) + 17, Find(doc, AlertEnd) - 3))
  {
  }

  /** Extraction never fails: whatever the document, the result is one of its substrings. */
  lemma ExtractIsSubstring(doc: string)
    ensures exists lo :: InfixAt(ExtractAlert(doc), doc, lo)
  {
    var i, j := Find(doc, AlertStart) + 17, Find(doc, AlertEnd) - 3;
    ExtractSlice(doc);
    StripSliceSubstring(doc, i, j);
  }

  /** With both markers present and in order, the result is exactly the stripped text between them. */
  lemma ExtractBetweenMarkers(doc: string)
    requires Find(doc, AlertStart) >= 0 && Find(doc, AlertEnd) >= 0
    requires Find(doc, AlertStart) + 17 <= Find(doc, AlertEnd) - 3
    ensures ExtractAlert(doc) == Strip(doc[Find(doc, AlertStart) + 17..Find(doc, AlertEnd) - 3])
  {
    SliceInRange(doc, Find(doc, AlertStart) + 17, Find(doc, AlertEnd) - 3);
  }

  /**
   * With neither marker present, the code does not report an error: the
   * slice becomes `doc[16 : -4]`, which Python resolves to `doc[16 .. |doc|-4]`
   * when the document has at least 20 characters and to the empty string
   * otherwise (an empty response body among them).
   */
  lemma ExtractWithoutMarkers(doc: string)
    requires Find(doc, AlertStart) == -1 && Find(doc, AlertEnd) == -1
    ensures |doc| >= 20 ==> ExtractAlert(doc) == Strip(doc[16..|doc| - 4])
    ensures |doc| < 20 ==> ExtractAlert(doc) == ""
  {
    ExtractSlice(doc);
    if |doc| >= 20 {
      NegativeStop(doc, 16, -4);
      SliceInRange(doc, 16, |doc| - 4);
    } else {
      assert PySlice(doc, 16, -4) == [];
    }
  }

  /*
   * Cache state machine
   */

  /** The two fields `LAST_ALERT_CACHED` and `ALERT_CACHE_TIME`. */
  datatype AlertState = AlertState(cached: string, cachedAt: int)

  /** The new state after one poll, and whether that poll returns an alert embed. */
  datatype Outcome = Outcome(state: AlertState, notify: bool)

  /**
   * One tick of the poller: the text extracted from the fetched document
   * (`None` when the fetch raised) and the clock.
   */
  datatype PollEvent = PollEvent(text: Option<string>, now: int)

  /** The event a tick produces from what the fetch returned. */
  function Observe(fetched: Option<string>, now: int): (ev: PollEvent)
    ensures ev.now == now
    ensures ev.text.None? <==> fetched.None?
    ensures ev.text.Some? ==> NoOuterSpace(ev.text.value)
  {
    match fetched
    case None => PollEvent(None, now)
    case Some(doc) => PollEvent(Some(ExtractAlert(doc)), now)
  }

  /** The state the cog is constructed in: empty cache, time of construction. */
  function Initial(now: int): AlertState
  {
    AlertState("", now)
  }

  /** How one extracted text moves the cache, branch by branch as in `checkRPIAlert`. */
  function Evaluate(st: AlertState, text: string, now: int): (o: Outcome)
    ensures o.notify <==> text != [] && st.cached != [] && st.cached != text
    ensures text == [] ==> o.state == AlertState(NoActiveAlerts, now)
    ensures text != [] ==> o.state.cached == text
    ensures text != [] && st.cached == text ==> o.state == st
    ensures o.state == st || o.state.cachedAt == now
    ensures o.state.cached != []
  {
    if text == [] then Outcome(AlertState(NoActiveAlerts, now), false)
    else if st.cached == [] then Outcome(AlertState(text, now), false)
    else if st.cached != text then Outcome(AlertState(text, now), true)
    else Outcome(st, false)
  }

  /**
   * `checkRPIAlert` as written: line 79 calls `createAlertEmbed()` without
   * `self.`, so the changed-alert branch raises `NameError` after both fields
   * are updated; the handler at line 81 turns it into `None`. The cache moves
   * exactly as in `Evaluate`, but no poll ever reports a new alert.
   */
  function EvaluateAsWritten(st: AlertState, text: string, now: int): (o: Outcome)
    ensures !o.notify
    ensures o.state == Evaluate(st, text, now).state
  {
    if text == [] then Outcome(AlertState(NoActiveAlerts, now), false)
    else if st.cached == [] then Outcome(AlertState(text, now), false)
    else if st.cached != text then Outcome(AlertState(text, now), false)
    else Outcome(st, false)
  }

  /** A changed alert after a cached one: the intended poll announces it, the written one stays silent. */
  lemma ChangedAlertNeverAnnounced(t0: int, t1: int)
    ensures Evaluate(AlertState("Snow day", t0), "Lockdown", t1) == Outcome(AlertState("Lockdown", t1), true)
    ensures EvaluateAsWritten(AlertState("Snow day", t0), "Lockdown", t1) == Outcome(AlertState("Lockdown", t1), false)
  {
  }

  /** One poll: a failed fetch is caught before anything is touched. */
  function Step(st: AlertState, ev: PollEvent): (o: Outcome)
    ensures ev.text.None? ==> o == Outcome(st, false)
    ensures ev.text.Some? ==> o.state.cached != []
    ensures o.notify <==> ev.text.Some? && ev.text.value != [] && st.cached != [] && st.cached != ev.text.value
  {
    match ev.text
    case None => Outcome(st, false)
    case Some(text) => Evaluate(st, text, ev.now)
  }

  /** The final state and the per-tick notifications of a run of polls. */
  datatype Trace = Trace(final: AlertState, notified: seq<bool>)

  /** A run of polls from `st`, one `Step` per tick. */
  function Run(st: AlertState, evs: seq<PollEvent>): (t: Trace)
    decreases |evs|
    ensures |t.notified| == |evs|
    ensures st.cached != [] ==> t.final.cached != []
  {
    if evs == [] then Trace(st, [])
    else
      var o := Step(st, evs[0]);
      var rest := Run(o.state, evs[1..]);
      Trace(rest.final, [o.notify] + rest.notified)
  }

  /** Ticks whose fetch failed leave the state as it was and notify nothing. */
  lemma {:induction false} FailedFetchesChangeNothing(st: AlertState, evs: seq<PollEvent>)
    requires forall i :: 0 <= i < |evs| ==> evs[i].text.None?
    ensures Run(st, evs).final == st
    ensures forall i :: 0 <= i < |evs| ==> !Run(st, evs).notified[i]
    decreases |evs|
  {
    if evs != [] {
      FailedFetchesChangeNothing(st, evs[1..]);
    }
  }

  /** A run of `a` then `b` is the run of `b` from where `a` left off. */
  lemma {:induction false} RunSplit(st: AlertState, a: seq<PollEvent>, b: seq<PollEvent>)
    ensures Run(st, a + b).final == Run(Run(st, a).final, b).final
    ensures Run(st, a + b).notified == Run(st, a).notified + Run(Run(st, a).final, b).notified
    decreases |a|
  {
    if a != [] {
      var o := Step(st, a[0]);
      var ab := a + b;
      assert ab[0] == a[0];
      assert ab[1..] == a[1..] + b;
      RunSplit(o.state, a[1..], b);
      var mid := Run(o.state, a[1..]);
      var rest := Run(mid.final, b);
      assert Run(st, a) == Trace(mid.final, [o.notify] + mid.notified);
      assert Run(st, ab) == Trace(rest.final, [o.notify] + (mid.notified + rest.notified));
      assert [o.notify] + (mid.notified + rest.notified) == ([o.notify] + mid.notified) + rest.notified;
    } else {
      assert a + b == b;
    }
  }

  /** Tick `i` of a run notifies exactly when its own `Step` does, from the state the first `i` ticks leave. */
  lemma RunAt(st: AlertState, evs: seq<PollEvent>, i: nat)
    requires i < |evs|
    ensures Run(st, evs[..i + 1]).final == Step(Run(st, evs[..i]).final, evs[i]).state
    ensures Run(st, evs).notified[i] == Step(Run(st, evs[..i]).final, evs[i]).notify
  {
    assert evs[..i + 1] == evs[..i] + [evs[i]];
    RunSplit(st, evs[..i], [evs[i]]);
    assert evs == evs[..i + 1] + evs[i + 1..];
    RunSplit(st, evs[..i + 1], evs[i + 1..]);
  }

  /** Once any poll has succeeded the cache is never empty again. */
  lemma NonEmptyAfterSuccess(st: AlertState, evs: seq<PollEvent>, i: nat, j: nat)
    requires i < j <= |evs|
    requires evs[i].text.Some?
    ensures Run(st, evs[..j]).final.cached != []
  {
    RunAt(st, evs, i);
    var mid := Run(st, evs[..i + 1]).final;
    assert evs[..j] == evs[..i + 1] + evs[i + 1..j];
    RunSplit(st, evs[..i + 1], evs[i + 1..j]);
  }

  /** A successful poll that finds the cache empty and stores its text without notifying. */
  predicate SilentStore(st: AlertState, ev: PollEvent)
  {
    ev.text.Some? && st.cached == [] && ev.text.value != []
  }

  /** The startup suppression fires at most once per run: after it, no later tick can be a silent store. */
  lemma SilentStoreAtMostOnce(st: AlertState, evs: seq<PollEvent>, i: nat, j: nat)
    requires i < j < |evs|
    requires SilentStore(Run(st, evs[..i]).final, evs[i])
    ensures !SilentStore(Run(st, evs[..j]).final, evs[j])
  {
    NonEmptyAfterSuccess(st, evs, i, j);
  }

  /** From the constructed state, no tick notifies before some earlier poll has succeeded. */
  lemma NoNotifyBeforeFirstSuccess(now0: int, evs: seq<PollEvent>, i: nat)
    requires i < |evs|
    requires forall j :: 0 <= j < i ==> evs[j].text.None?
    ensures !Run(Initial(now0), evs).notified[i]
  {
    RunAt(Initial(now0), evs, i);
    FailedFetchesChangeNothing(Initial(now0), evs[..i]);
  }

  /**
   * Startup: a poll that finds no alert stores the sentinel, so the first
   * real alert afterwards is announced.
   */
  lemma EmptyThenAlertNotifies(now0: int, t1: int, x: string, t2: int)
    requires x != [] && x != NoActiveAlerts
    ensures Run(Initial(now0), [PollEvent(Some(""), t1), PollEvent(Some(x), t2)])
         == Trace(AlertState(x, t2), [false, true])
  {
    var evs := [PollEvent(Some(""), t1), PollEvent(Some(x), t2)];
    var s1 := AlertState(NoActiveAlerts, t1);
    assert Step(Initial(now0), evs[0]) == Outcome(s1, false);
    assert evs[1..] == [PollEvent(Some(x), t2)];
    assert Step(s1, evs[1]) == Outcome(AlertState(x, t2), true);
    assert Run(AlertState(x, t2), []) == Trace(AlertState(x, t2), []);
    assert evs[1..][1..] == [];
    assert Run(s1, evs[1..]) == Trace(AlertState(x, t2), [true]);
  }

  /**
   * Four ticks: no alert, an alert, the same alert again, no alert. Only
   * the second tick notifies, and the run ends on the sentinel.
   */
  lemma AlertLifecycle(now0: int, t1: int, t2: int, t3: int, t4: int, x: string)
    requires x != [] && x != NoActiveAlerts
    ensures Run(Initial(now0), [PollEvent(Some(""), t1), PollEvent(Some(x), t2), PollEvent(Some(x), t3), PollEvent(Some(""), t4)])
         == Trace(AlertState(NoActiveAlerts, t4), [false, true, false, false])
  {
    var evs := [PollEvent(Some(""), t1), PollEvent(Some(x), t2), PollEvent(Some(x), t3), PollEvent(Some(""), t4)];
    RunSplit(Initial(now0), evs[..2], evs[2..]);
    assert evs == evs[..2] + evs[2..];
    EmptyThenAlertNotifies(now0, t1, x, t2);
    assert evs[..2] == [PollEvent(Some(""), t1), PollEvent(Some(x), t2)];
    var s2 := AlertState(x, t2);
    assert evs[2..] == [PollEvent(Some(x), t3), PollEvent(Some(""), t4)];
    assert Step(s2, evs[2]) == Outcome(s2, false);
    var s4 := AlertState(NoActiveAlerts, t4);
    assert evs[2..][1..] == [PollEvent(Some(""), t4)];
    assert evs[2..][1..][1..] == [];
    assert Run(s4, []) == Trace(s4, []);
    assert Run(s2, evs[2..][1..]) == Trace(s4, [false]);
    assert Run(s2, evs[2..]) == Trace(s4, [false, false]);
  }

  /** Polling the text the cache already holds changes nothing, not even the timestamp, and is silent. */
  lemma RepeatIsQuiet(st: AlertState, x: string, t1: int, t2: int)
    requires x != []
    ensures var s1 := Step(st, PollEvent(Some(x), t1)).state;
            Step(s1, PollEvent(Some(x), t2)) == Outcome(s1, false)
  {
  }

  /** The events a sequence of fetches (with their clock readings) produces. */
  function ObserveAll(ticks: seq<(Option<string>, int)>): (evs: seq<PollEvent>)
    ensures |evs| == |ticks|
    ensures forall i :: 0 <= i < |ticks| ==> evs[i] == Observe(ticks[i].0, ticks[i].1)
  {
    if ticks == [] then [] else [Observe(ticks[0].0, ticks[0].1)] + ObserveAll(ticks[1..])
  }

  /**
   * The cached state of `RpiAlertCog`. `Poll` is `checkRPIAlert` with the
   * fetched document (or the failed fetch) and the clock passed in; it
   * returns whether an alert embed would be produced.
   */
  class AlertCache {
    var lastAlertCached: string
    var alertCacheTime: int

    function State(): AlertState
      reads this
    {
      AlertState(lastAlertCached, alertCacheTime)
    }

    constructor (now: int)
      ensures State() == Initial(now)
    {
      lastAlertCached := "";
      alertCacheTime := now;
    }

    method Poll(fetched: Option<string>, now: int) returns (notify: bool)
      modifies this
      ensures Outcome(State(), notify) == Step(old(State()), Observe(fetched, now))
    {
      if fetched.None? {
        return false;
      }
      var alertText := ExtractAlert(fetched.value);
      if alertText == [] {
        lastAlertCached := NoActiveAlerts;
        alertCacheTime := now;
        return false;
      }
      if lastAlertCached == [] {
        lastAlertCached := alertText;
        alertCacheTime := now;
        return false;
      }
      if lastAlertCached != alertText {
        alertCacheTime := now;
        lastAlertCached := alertText;
        return true;
      }
      notify := false;
    }

    /** The poll loop, one `Poll` per tick, reporting which ticks produced an embed. */
    method PollEach(ticks: seq<(Option<string>, int)>) returns (notified: seq<bool>)
      modifies this
      ensures Trace(State(), notified) == Run(old(State()), ObserveAll(ticks))
    {
      ghost var evs := ObserveAll(ticks);
      notified := [];
      var i := 0;
      while i < |ticks|
        invariant 0 <= i <= |ticks|
        invariant Trace(State(), notified) == Run(old(State()), evs[..i])
      {
        var n := Poll(ticks[i].0, ticks[i].1);
        RunSplit(old(State()), evs[..i], [evs[i]]);
        assert evs[..i + 1] == evs[..i] + [evs[i]];
        notified := notified + [n];
        i := i + 1;
      }
      assert evs[..i] == evs;
    }
  }
}
