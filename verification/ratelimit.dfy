/** `RateLimiter` of back-end/providers.py: a sliding one-minute window of
    call times. The clock is the explicit `now` parameter and the sleep is
    returned rather than performed; the call being limited happens at
    `now + sleep`. */
module RateLimit {
  import opened Results

  const Window: real := 60.0

  /** The limits of the two global limiters: Gemini's free tier, and a
      generous one for the local Ollama server. */
  const GeminiPerMinute: nat := 50
  const OllamaPerMinute: nat := 1000

  datatype Limiter = Limiter(perMinute: int, calls: seq<real>)

  /** The outcome of one `wait_if_needed`: the updated limiter and how long
      it slept. */
  datatype Waited = Waited(limiter: Limiter, sleep: real)

  /** `RateLimiter(calls_per_minute)`. */
  function NewLimiter(perMinute: int): (rl: Limiter)
    ensures rl.perMinute == perMinute && rl.calls == []
  {
    Limiter(perMinute, [])
  }

  /** `[t for t in calls if t > cutoff]`. */
  function Recent(calls: seq<real>, cutoff: real): (r: seq<real>)
    ensures |r| <= |calls|
  {
    if calls == [] then []
    else
      var last := calls[|calls| - 1];
      Recent(calls[..|calls| - 1], cutoff) + (if last > cutoff then [last] else [])
  }

  /** The survivors are exactly the calls after the cutoff. */
  lemma {:induction false} RecentMembers(calls: seq<real>, cutoff: real)
    ensures forall x :: x in Recent(calls, cutoff) <==> x in calls && x > cutoff
  {
    if calls != [] {
      var init, last := calls[..|calls| - 1], calls[|calls| - 1];
      RecentMembers(init, cutoff);
      assert calls == init + [last];
    }
  }

  function Max(a: real, b: real): (m: real)
    ensures m >= a && m >= b && (m == a || m == b)
  {
    if a >= b then a else b
  }

  /** `wait_if_needed` as written: drop the calls at least a minute old; when
      `calls_per_minute` or more remain, sleep until the oldest remaining one
      is a minute old; then record `now`, the time read before sleeping. With
      no call remaining and a limit of zero or less, `self.calls[0]` raises
      an IndexError. */
  function WaitIfNeeded(rl: Limiter, now: real): (r: Result<Waited>)
    ensures var recent := Recent(rl.calls, now - Window);
      && (r.Err? <==> |recent| >= rl.perMinute && recent == [])
      && (r.Ok? ==> r.value.limiter == Limiter(rl.perMinute, recent + [now]))
      && (r.Ok? && |recent| < rl.perMinute ==> r.value.sleep == 0.0)
      && (r.Ok? && |recent| >= rl.perMinute ==> now + r.value.sleep == Max(now, recent[0] + Window))
  {
    var recent := Recent(rl.calls, now - Window);
    if |recent| >= rl.perMinute && recent == [] then Err("IndexError: list index out of range")
    else
      var sleep := if |recent| >= rl.perMinute then Window - (now - recent[0]) else 0.0;
      Ok(Waited(Limiter(rl.perMinute, recent + [now]), if sleep > 0.0 then sleep else 0.0))
  }

  /** When the limiter does sleep and every recorded call lies in the past,
      the sleep lasts more than 0 and at most 60 seconds. */
  lemma SleepIsBounded(rl: Limiter, now: real)
    requires forall c :: c in rl.calls ==> c <= now
    requires WaitIfNeeded(rl, now).Ok?
    requires |Recent(rl.calls, now - Window)| >= rl.perMinute
    ensures 0.0 < WaitIfNeeded(rl, now).value.sleep <= Window
  {
    var recent := Recent(rl.calls, now - Window);
    RecentMembers(rl.calls, now - Window);
    assert recent[0] in recent;
  }

  /** The corrected step: identical, except that it records the time the
      call actually goes out, after the sleep. */
  function WaitThenRecord(rl: Limiter, now: real): (r: Result<Waited>)
    ensures WaitIfNeeded(rl, now).Err? <==> r.Err?
    ensures r.Ok? ==> r.value.sleep == WaitIfNeeded(rl, now).value.sleep
    ensures r.Ok? ==> r.value.limiter == Limiter(rl.perMinute, Recent(rl.calls, now - Window) + [now + r.value.sleep])
  {
    var w :- WaitIfNeeded(rl, now);
    Ok(Waited(Limiter(rl.perMinute, Recent(rl.calls, now - Window) + [now + w.sleep]), w.sleep))
  }

  // ---------------------------------------------------------------------------
  // Runs: one caller issuing requests in turn
  // ---------------------------------------------------------------------------

  /** The limiter after a run of requests, and the times the limited calls
      actually went out. */
  datatype Trace = Trace(limiter: Limiter, sent: seq<real>)

  /** A request issued at `req` is handled no earlier than the moment the
      previous call went out. */
  function Effective(sent: seq<real>, req: real): (now: real)
    ensures now >= req
    ensures sent != [] ==> now >= sent[|sent| - 1]
  {
    if sent == [] then req else Max(req, sent[|sent| - 1])
  }

  /** `after` is `before` extended by one call that goes out no earlier than
      the request `req`. */
  predicate Appended(before: seq<real>, after: seq<real>, req: real) {
    |after| == |before| + 1 && after[..|before|] == before && after[|before|] >= req
  }

  /** One call per request, none sent before it was requested. */
  predicate NoEarlier(sent: seq<real>, reqs: seq<real>) {
    |sent| == |reqs| && forall i :: 0 <= i < |reqs| ==> sent[i] >= reqs[i]
  }

  /** One request of a run, handled by the limiter as written: the limited
      call goes out after the sleep. */
  function StepAsWritten(prev: Trace, req: real): (r: Result<Trace>)
    ensures r.Ok? ==> Appended(prev.sent, r.value.sent, req)
    ensures r.Ok? ==> r.value.limiter.calls != [] && r.value.limiter.calls[|r.value.limiter.calls| - 1] == Effective(prev.sent, req)
  {
    var now := Effective(prev.sent, req);
    var w :- WaitIfNeeded(prev.limiter, now);
    Ok(Trace(w.limiter, prev.sent + [now + w.sleep]))
  }

  /** One request of a run, handled by the corrected limiter. */
  function StepCorrected(prev: Trace, req: real): (r: Result<Trace>)
    ensures r.Ok? ==> Appended(prev.sent, r.value.sent, req)
    ensures r.Ok? ==> r.value.limiter.calls != [] && r.value.limiter.calls[|r.value.limiter.calls| - 1] == r.value.sent[|r.value.sent| - 1]
  {
    var now := Effective(prev.sent, req);
    var w :- WaitThenRecord(prev.limiter, now);
    Ok(Trace(w.limiter, prev.sent + [now + w.sleep]))
  }

  /** A run with the limiter as written. */
  function RunAsWritten(perMinute: int, reqs: seq<real>): (r: Result<Trace>)
    ensures r.Ok? ==> NoEarlier(r.value.sent, reqs)
  {
    if reqs == [] then Ok(Trace(NewLimiter(perMinute), []))
    else
      var prev :- RunAsWritten(perMinute, reqs[..|reqs| - 1]);
      StepAsWritten(prev, reqs[|reqs| - 1])
  }

  /** A run with the corrected limiter. */
  function RunCorrected(perMinute: int, reqs: seq<real>): (r: Result<Trace>)
    ensures r.Ok? ==> NoEarlier(r.value.sent, reqs)
  {
    if reqs == [] then Ok(Trace(NewLimiter(perMinute), []))
    else
      var prev :- RunCorrected(perMinute, reqs[..|reqs| - 1]);
      StepCorrected(prev, reqs[|reqs| - 1])
  }

  /** Calls `perMinute` or more places apart are at least a minute apart, so
      no sixty-second window holds more than `perMinute` calls. */
  predicate Spaced(sent: seq<real>, perMinute: nat) {
    forall i, j :: 0 <= i && i + perMinute <= j < |sent| ==> sent[i] + Window <= sent[j]
  }

  predicate Sorted(s: seq<real>) {
    forall i, j :: 0 <= i < j < |s| ==> s[i] <= s[j]
  }

  /** Requests at 0 s and 1 s with one call per minute: the second call is
      held back until 60 s but recorded at 1 s. */
  lemma FirstTwoRequests()
    ensures RunAsWritten(1, [0.0, 1.0]) == Ok(Trace(Limiter(1, [0.0, 1.0]), [0.0, 60.0]))
  {
    var t0 := Trace(Limiter(1, []), []);
    assert RunAsWritten(1, []) == Ok(t0);
    assert Recent([], 0.0 - Window) == [];
    var t1 := Trace(Limiter(1, [0.0]), [0.0]);
    assert [] + [0.0] == [0.0];
    assert StepAsWritten(t0, 0.0) == Ok(t1);
    assert [0.0][..0] == [];
    assert RunAsWritten(1, [0.0]) == Ok(t1);
    assert Recent([0.0], 1.0 - Window) == [0.0];
    assert [0.0] + [1.0] == [0.0, 1.0] && [0.0] + [1.0 + 59.0] == [0.0, 60.0];
    assert WaitIfNeeded(t1.limiter, 1.0) == Ok(Waited(Limiter(1, [0.0, 1.0]), 59.0));
    assert StepAsWritten(t1, 1.0) == Ok(Trace(Limiter(1, [0.0, 1.0]), [0.0, 60.0]));
    assert [0.0, 1.0][..1] == [0.0];
  }

  /** With the limiter as written, a limit of one call per minute lets two
      calls out one second apart: requests at 0 s, 1 s and 60.5 s go out at
      0 s, 60 s and 61 s, because the second call is recorded at 1 s although
      it went out at 60 s. */
  lemma RecordedTimeCanExceedLimit()
    ensures RunAsWritten(1, [0.0, 1.0, 60.5]).Ok?
    ensures RunAsWritten(1, [0.0, 1.0, 60.5]).value.sent == [0.0, 60.0, 61.0]
    ensures !Spaced(RunAsWritten(1, [0.0, 1.0, 60.5]).value.sent, 1)
  {
    ThreeRequests();
    var sent := [0.0, 60.0, 61.0];
    assert !Spaced(sent, 1) by {
      assert sent[0 + 1] + Window > sent[2];
    }
  }

  lemma ThreeRequests()
    ensures RunAsWritten(1, [0.0, 1.0, 60.5]) == Ok(Trace(Limiter(1, [1.0, 60.5]), [0.0, 60.0, 61.0]))
  {
    var reqs := [0.0, 1.0, 60.5];
    var t2 := Trace(Limiter(1, [0.0, 1.0]), [0.0, 60.0]);
    var t3 := Trace(Limiter(1, [1.0, 60.5]), [0.0, 60.0, 61.0]);
    assert RunAsWritten(1, reqs[..|reqs| - 1]) == Ok(t2) by {
      assert reqs[..|reqs| - 1] == [0.0, 1.0];
      FirstTwoRequests();
    }
    assert StepAsWritten(t2, reqs[|reqs| - 1]) == Ok(t3) by {
      ThirdRequest();
    }
    RunAsWrittenLast(1, reqs, t2);
  }

  /** A run that got through all but the last request ends with that
      request's step. */
  lemma RunAsWrittenLast(perMinute: int, reqs: seq<real>, prev: Trace)
    requires reqs != [] && RunAsWritten(perMinute, reqs[..|reqs| - 1]) == Ok(prev)
    ensures RunAsWritten(perMinute, reqs) == StepAsWritten(prev, reqs[|reqs| - 1])
  {
  }

  /** The request at 60.5 s finds only the call recorded at 1 s inside the
      window and sleeps until 61 s. */
  lemma ThirdRequest()
    ensures StepAsWritten(Trace(Limiter(1, [0.0, 1.0]), [0.0, 60.0]), 60.5)
         == Ok(Trace(Limiter(1, [1.0, 60.5]), [0.0, 60.0, 61.0]))
  {
    CutAtThirdRequest();
    assert [1.0] + [60.5] == [1.0, 60.5] && [0.0, 60.0] + [60.5 + 0.5] == [0.0, 60.0, 61.0];
    assert WaitIfNeeded(Limiter(1, [0.0, 1.0]), 60.5) == Ok(Waited(Limiter(1, [1.0, 60.5]), 0.5));
  }

  lemma CutAtThirdRequest()
    ensures Recent([0.0, 1.0], 60.5 - Window) == [1.0]
  {
    assert [0.0, 1.0][..1] == [0.0];
    assert Recent([0.0], 60.5 - Window) == [] by {
      assert [0.0][..0] == [];
    }
  }

  // ---------------------------------------------------------------------------
  // The corrected limiter keeps its promise
  // ---------------------------------------------------------------------------

  /** On a sorted list the survivors of the cut are a suffix: everything
      before it is at or below the cutoff. */
  lemma {:induction false} RecentOfSorted(s: seq<real>, cutoff: real)
    requires Sorted(s)
    ensures var j := |s| - |Recent(s, cutoff)|;
      && Recent(s, cutoff) == s[j..]
      && (forall i :: 0 <= i < j ==> s[i] <= cutoff)
  {
    if s != [] {
      var init := s[..|s| - 1];
      SortedPrefix(s);
      RecentOfSorted(init, cutoff);
      if s[|s| - 1] > cutoff {
        LastSurvives(s, cutoff);
      } else {
        LastIsCut(s, cutoff);
      }
    }
  }

  lemma SortedPrefix(s: seq<real>)
    requires Sorted(s) && s != []
    ensures Sorted(s[..|s| - 1])
  {
    var init := s[..|s| - 1];
    forall i, k | 0 <= i < k < |init| ensures init[i] <= init[k] {
      assert init[i] == s[i] && init[k] == s[k];
    }
  }

  /** The inductive step when the newest call survives the cut. */
  lemma LastSurvives(s: seq<real>, cutoff: real)
    requires s != [] && s[|s| - 1] > cutoff
    requires var init := s[..|s| - 1];
      var j := |init| - |Recent(init, cutoff)|;
      && Recent(init, cutoff) == init[j..]
      && (forall i :: 0 <= i < j ==> init[i] <= cutoff)
    ensures var j := |s| - |Recent(s, cutoff)|;
      && Recent(s, cutoff) == s[j..]
      && (forall i :: 0 <= i < j ==> s[i] <= cutoff)
  {
    var init, x := s[..|s| - 1], s[|s| - 1];
    var j := |init| - |Recent(init, cutoff)|;
    assert Recent(s, cutoff) == init[j..] + [x];
    assert s[j..] == init[j..] + [x];
    forall i | 0 <= i < j ensures s[i] <= cutoff {
      assert s[i] == init[i];
    }
  }

  /** The inductive step when the newest call is cut: on a sorted list so
      is every other. */
  lemma LastIsCut(s: seq<real>, cutoff: real)
    requires Sorted(s) && s != [] && s[|s| - 1] <= cutoff
    ensures Recent(s, cutoff) == []
    ensures forall i :: 0 <= i < |s| ==> s[i] <= cutoff
  {
    var n := |s|;
    var init := s[..n - 1];
    forall i | 0 <= i < n ensures s[i] <= cutoff {
      if i < n - 1 {
        assert s[i] <= s[n - 1];
      }
    }
    forall i | 0 <= i < |init| ensures init[i] <= cutoff {
      assert init[i] == s[i];
    }
    RecentOfNone(init, cutoff);
  }

  lemma {:induction false} RecentOfNone(s: seq<real>, cutoff: real)
    requires forall i :: 0 <= i < |s| ==> s[i] <= cutoff
    ensures Recent(s, cutoff) == []
  {
    if s != [] {
      RecentOfNone(s[..|s| - 1], cutoff);
    }
  }

  /** The state a corrected run keeps: the recorded calls are the last
      `|calls|` sent times, every older one is at least a minute before the
      latest call, the sent times are ordered, and they are spaced. */
  predicate Invariant(t: Trace, perMinute: nat) {
    && t.limiter.perMinute == perMinute
    && |t.limiter.calls| <= |t.sent|
    && t.limiter.calls == t.sent[|t.sent| - |t.limiter.calls|..]
    && (forall i :: 0 <= i < |t.sent| - |t.limiter.calls| ==> t.sent[i] + Window <= t.sent[|t.sent| - 1])
    && Sorted(t.sent)
    && Spaced(t.sent, perMinute)
  }

  lemma SuffixSorted(s: seq<real>, m: nat)
    requires Sorted(s) && m <= |s|
    ensures Sorted(s[m..])
  {
    var t := s[m..];
    forall i, j | 0 <= i < j < |t| ensures t[i] <= t[j] {
      assert t[i] == s[m + i] && t[j] == s[m + j];
    }
  }

  /** Every survivor lies after the cutoff. */
  lemma {:induction false} RecentAbove(calls: seq<real>, cutoff: real)
    ensures forall i :: 0 <= i < |Recent(calls, cutoff)| ==> Recent(calls, cutoff)[i] > cutoff
  {
    if calls != [] {
      RecentAbove(calls[..|calls| - 1], cutoff);
    }
  }

  /** The survivors of the cut are the last sent times when the recorded
      calls are the last sent times and every older one is below the cut. */
  lemma SurvivorsAreSuffix(sent: seq<real>, calls: seq<real>, cutoff: real)
    requires Sorted(sent) && |calls| <= |sent|
    requires calls == sent[|sent| - |calls|..]
    requires forall i :: 0 <= i < |sent| - |calls| ==> sent[i] <= cutoff
    ensures var m' := |sent| - |Recent(calls, cutoff)|;
      && Recent(calls, cutoff) == sent[m'..]
      && (forall i :: 0 <= i < m' ==> sent[i] <= cutoff)
      && (forall i :: m' <= i < |sent| ==> sent[i] > cutoff)
  {
    SuffixSorted(sent, |sent| - |calls|);
    RecentOfSorted(calls, cutoff);
    RecentAbove(calls, cutoff);
    SuffixOfSuffix(sent, calls, Recent(calls, cutoff), cutoff);
  }

  /** A suffix of a suffix is a suffix, and the bounds carry over. */
  lemma SuffixOfSuffix(sent: seq<real>, calls: seq<real>, recent: seq<real>, cutoff: real)
    requires |calls| <= |sent| && calls == sent[|sent| - |calls|..]
    requires |recent| <= |calls| && recent == calls[|calls| - |recent|..]
    requires forall i :: 0 <= i < |sent| - |calls| ==> sent[i] <= cutoff
    requires forall i :: 0 <= i < |calls| - |recent| ==> calls[i] <= cutoff
    requires forall i :: 0 <= i < |recent| ==> recent[i] > cutoff
    ensures var m' := |sent| - |recent|;
      && recent == sent[m'..]
      && (forall i :: 0 <= i < m' ==> sent[i] <= cutoff)
      && (forall i :: m' <= i < |sent| ==> sent[i] > cutoff)
  {
    var n, m := |sent|, |sent| - |calls|;
    var m' := n - |recent|;
    assert recent == sent[m'..];
    forall i | 0 <= i < m' ensures sent[i] <= cutoff {
      if i >= m {
        assert sent[i] == calls[i - m];
      }
    }
    forall i | m' <= i < n ensures sent[i] > cutoff {
      assert sent[i] == recent[i - m'];
    }
  }

  /** Spacing leaves at most `perMinute` calls inside the last minute. */
  lemma FewSurvivors(sent: seq<real>, perMinute: nat, now: real, m': nat)
    requires Spaced(sent, perMinute) && m' <= |sent|
    requires sent != [] ==> now >= sent[|sent| - 1]
    requires forall i :: m' <= i < |sent| ==> sent[i] > now - Window
    ensures |sent| - m' <= perMinute
  {
    if |sent| > perMinute {
      var k := |sent| - 1;
      assert sent[k - perMinute] + Window <= sent[k];
    }
  }

  /** With a positive limit the corrected step never fails; it records the
      send time, which is no earlier than `now` and, when the survivors fill
      the limit, a minute after the oldest of them. */
  lemma CorrectedStep(rl: Limiter, now: real)
    requires rl.perMinute >= 1
    ensures var recent := Recent(rl.calls, now - Window);
      var w := WaitThenRecord(rl, now);
      && w.Ok?
      && w.value.limiter == Limiter(rl.perMinute, recent + [now + w.value.sleep])
      && w.value.sleep >= 0.0
      && (|recent| >= rl.perMinute ==> now + w.value.sleep >= recent[0] + Window)
  {
  }

  /** Recording a send time `x` with the survivors keeps the invariant. */
  lemma AppendKeepsInvariant(sent: seq<real>, recent: seq<real>, perMinute: nat, now: real, x: real)
    requires perMinute >= 1 && Sorted(sent) && Spaced(sent, perMinute)
    requires |recent| <= |sent| && recent == sent[|sent| - |recent|..] && |recent| <= perMinute
    requires forall i :: 0 <= i < |sent| - |recent| ==> sent[i] <= now - Window
    requires sent != [] ==> now >= sent[|sent| - 1]
    requires x >= now
    requires |recent| >= perMinute ==> x >= recent[0] + Window
    ensures Invariant(Trace(Limiter(perMinute, recent + [x]), sent + [x]), perMinute)
  {
    var m' := |sent| - |recent|;
    if |recent| >= perMinute {
      assert recent[0] == sent[m'];
    }
    NewCallSpaced(sent, perMinute, now, m', x);
    var sent' := sent + [x];
    assert recent + [x] == sent'[m'..];
  }

  /** Recording a send time `x` after the cut at `now` keeps the invariant,
      provided `x` is no earlier than `now` and, when the survivors fill the
      limit, at least a minute after the oldest of them. */
  lemma CutThenAppendKeepsInvariant(t: Trace, perMinute: nat, now: real, x: real)
    requires perMinute >= 1 && Invariant(t, perMinute)
    requires t.sent != [] ==> now >= t.sent[|t.sent| - 1]
    requires x >= now
    requires var recent := Recent(t.limiter.calls, now - Window);
      |recent| >= perMinute ==> x >= recent[0] + Window
    ensures Invariant(Trace(Limiter(perMinute, Recent(t.limiter.calls, now - Window) + [x]), t.sent + [x]), perMinute)
  {
    CutThenAppend(t.sent, t.limiter.calls, perMinute, now, x);
  }

  /** The same on the sent times and the recorded calls themselves. */
  lemma CutThenAppend(sent: seq<real>, calls: seq<real>, perMinute: nat, now: real, x: real)
    requires perMinute >= 1 && Sorted(sent) && Spaced(sent, perMinute)
    requires |calls| <= |sent| && calls == sent[|sent| - |calls|..]
    requires forall i :: 0 <= i < |sent| - |calls| ==> sent[i] + Window <= sent[|sent| - 1]
    requires sent != [] ==> now >= sent[|sent| - 1]
    requires x >= now
    requires var recent := Recent(calls, now - Window);
      |recent| >= perMinute ==> x >= recent[0] + Window
    ensures Invariant(Trace(Limiter(perMinute, Recent(calls, now - Window) + [x]), sent + [x]), perMinute)
  {
    CutLeavesFewSurvivors(sent, calls, perMinute, now);
    AppendKeepsInvariant(sent, Recent(calls, now - Window), perMinute, now, x);
  }

  /** The cut at `now` leaves, as a suffix of the sent times, at most
      `perMinute` survivors, with everything before them a minute old. */
  lemma CutLeavesFewSurvivors(sent: seq<real>, calls: seq<real>, perMinute: nat, now: real)
    requires Sorted(sent) && Spaced(sent, perMinute)
    requires |calls| <= |sent| && calls == sent[|sent| - |calls|..]
    requires forall i :: 0 <= i < |sent| - |calls| ==> sent[i] + Window <= sent[|sent| - 1]
    requires sent != [] ==> now >= sent[|sent| - 1]
    ensures var recent := Recent(calls, now - Window);
      var m' := |sent| - |recent|;
      && recent == sent[m'..] && |recent| <= perMinute
      && (forall i :: 0 <= i < m' ==> sent[i] <= now - Window)
  {
    var cutoff := now - Window;
    assert forall i :: 0 <= i < |sent| - |calls| ==> sent[i] <= cutoff;
    SurvivorsAreSuffix(sent, calls, cutoff);
    FewSurvivors(sent, perMinute, now, |sent| - |Recent(calls, cutoff)|);
  }

  /** One corrected step from a state satisfying the invariant, at a time no
      earlier than the last call, keeps the invariant. */
  lemma StepKeepsInvariant(t: Trace, perMinute: nat, now: real)
    requires perMinute >= 1 && Invariant(t, perMinute)
    requires t.sent != [] ==> now >= t.sent[|t.sent| - 1]
    ensures WaitThenRecord(t.limiter, now).Ok?
    ensures var w := WaitThenRecord(t.limiter, now).value;
      Invariant(Trace(w.limiter, t.sent + [now + w.sleep]), perMinute)
  {
    CorrectedStep(t.limiter, now);
    var w := WaitThenRecord(t.limiter, now).value;
    var x := now + w.sleep;
    CutThenAppendKeepsInvariant(t, perMinute, now, x);
    var t' := Trace(Limiter(perMinute, Recent(t.limiter.calls, now - Window) + [x]), t.sent + [x]);
    assert Trace(w.limiter, t.sent + [x]) == t';
  }

  /** Appending a call at `x` keeps the spacing when `x` is no earlier than
      `now`, every call before `m'` is a minute older than `now`, and, when
      the survivors fill the limit, `x` is a minute after the oldest. */
  lemma NewCallSpaced(sent: seq<real>, perMinute: nat, now: real, m': nat, x: real)
    requires perMinute >= 1 && Spaced(sent, perMinute) && Sorted(sent)
    requires m' <= |sent| && |sent| - m' <= perMinute
    requires sent != [] ==> now >= sent[|sent| - 1]
    requires forall i :: 0 <= i < m' ==> sent[i] <= now - Window
    requires x >= now
    requires |sent| - m' >= perMinute ==> x >= sent[m'] + Window
    ensures Spaced(sent + [x], perMinute) && Sorted(sent + [x])
  {
    var n := |sent|;
    var s := sent + [x];
    forall i, j | 0 <= i && i + perMinute <= j < |s| ensures s[i] + Window <= s[j] {
      if j < n {
        assert s[i] == sent[i] && s[j] == sent[j];
      } else if i < m' {
        assert s[i] == sent[i];
      } else {
        assert i == m' && s[i] == sent[m'];
      }
    }
  }

  /** With at least one call per minute allowed, the corrected limiter never
      fails and never lets more than `perMinute` calls out within any
      minute. */
  lemma {:induction false} CorrectedRunIsSpaced(perMinute: nat, reqs: seq<real>)
    requires perMinute >= 1
    ensures RunCorrected(perMinute, reqs).Ok?
    ensures |RunCorrected(perMinute, reqs).value.sent| == |reqs|
    ensures Invariant(RunCorrected(perMinute, reqs).value, perMinute)
    ensures Spaced(RunCorrected(perMinute, reqs).value.sent, perMinute)
  {
    if reqs != [] {
      CorrectedRunIsSpaced(perMinute, reqs[..|reqs| - 1]);
      var prev := RunCorrected(perMinute, reqs[..|reqs| - 1]).value;
      var now := Effective(prev.sent, reqs[|reqs| - 1]);
      StepKeepsInvariant(prev, perMinute, now);
    }
  }

  /** The corrected global limiters keep their quotas: at most 50 Gemini
      calls and at most 1000 Ollama calls in any minute. */
  lemma GlobalLimitersKeepQuota(reqs: seq<real>)
    ensures RunCorrected(GeminiPerMinute, reqs).Ok?
    ensures Spaced(RunCorrected(GeminiPerMinute, reqs).value.sent, GeminiPerMinute)
    ensures RunCorrected(OllamaPerMinute, reqs).Ok?
    ensures Spaced(RunCorrected(OllamaPerMinute, reqs).value.sent, OllamaPerMinute)
  {
    CorrectedRunIsSpaced(GeminiPerMinute, reqs);
    CorrectedRunIsSpaced(OllamaPerMinute, reqs);
  }
}
