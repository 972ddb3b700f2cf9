/** Which notices trigger a data collection, over whole runs of the monitor. Times are nanoseconds. */
module Notices {
  import opened Trades

  const MINUTE := 60 * 1_000_000_000
  const ACCEPTANCE := 30 * MINUTE
  const RETENTION := 24 * 60 * MINUTE

  /** An entry of the notice board; listedAt is None when the board's time does not parse. */
  datatype Announcement = Announcement(id: string, title: string, listedAt: Option<int>,
                                       needNewBadge: bool, needUpdateBadge: bool)

  /** One notice of one poll: the clock when it is looked up and when it is judged, and the symbol if its
      title names a KRW listing. */
  datatype Look = Look(announcement: Announcement, asked: int, judged: int, symbol: Option<string>)

  /** The look a polling goroutine is busy with: going to be marked, or marked and triggered. */
  datatype Hand = Free | Asked(look: Look) | Marked(look: Look)

  /** A process with its own memory of when each notice was last marked. */
  datatype Process = Process(marks: map<string, int>, hand: Hand)

  /** What happens in one piece: a look-up, the first mark with the trigger that follows it, the second
      mark, a cleanup, and a restart, at which the newest process saves and the next one starts from that
      save. A stopped process is not waited for: whatever it does later goes to its own memory. */
  datatype Step = Ask(p: nat, look: Look) | Mark(p: nat, at: int) | Confirm(p: nat, at: int)
                | Cleanup(p: nat, at: int) | Restart(at: int)

  function Lower(c: char): char {
    if 'A' <= c <= 'Z' then (c as int + 32) as char else c
  }

  function ToLower(s: string): string {
    seq(|s|, i requires 0 <= i < |s| => Lower(s[i]))
  }

  predicate ContainsAt(s: string, part: string, i: nat)
    requires i + |part| <= |s|
  {
    s[i..i + |part|] == part
  }

  predicate Contains(s: string, part: string) {
    exists i :: 0 <= i <= |s| - |part| && ContainsAt(s, part, i)
  }

  predicate HasKRWContent(title: string) {
    || Contains(ToLower(title), "krw")
    || Contains(ToLower(title), "신규 거래지원")
    || Contains(ToLower(title), "마켓")
  }

  /** The notice is recent (or dated in the future) and is a new listing or a KRW update. */
  predicate Acceptable(a: Announcement, now: int) {
    && a.listedAt.Some? && now - a.listedAt.value <= ACCEPTANCE
    && (a.needNewBadge || (a.needUpdateBadge && HasKRWContent(a.title)))
  }

  /** The look would trigger a collection if the notice had not been processed. */
  predicate Qualifies(look: Look) {
    Acceptable(look.announcement, look.judged) && look.symbol.Some?
  }

  /** A record counts while it is at most one retention old. */
  predicate Processed(marks: map<string, int>, id: string, now: int) {
    id in marks && now - marks[id] <= RETENTION
  }

  predicate Triggers(marks: map<string, int>, look: Look) {
    !Processed(marks, look.announcement.id, look.asked) && Qualifies(look)
  }

  function Cleaned(marks: map<string, int>, now: int): map<string, int> {
    map id | id in marks && marks[id] >= now - RETENTION :: marks[id]
  }

  predicate IsAsked(s: seq<Process>, p: nat) {
    p < |s| && s[p].hand.Asked?
  }

  predicate IsMarked(s: seq<Process>, p: nat) {
    p < |s| && s[p].hand.Marked?
  }

  function Next(s: seq<Process>, step: Step): (after: seq<Process>)
    requires |s| > 0
    ensures |after| >= |s|
  {
    match step
    case Ask(p, look) =>
      if p < |s| && s[p].hand.Free? && Triggers(s[p].marks, look) then s[p := s[p].(hand := Asked(look))] else s
    case Mark(p, at) =>
      if IsAsked(s, p) then s[p := Process(s[p].marks[s[p].hand.look.announcement.id := at], Marked(s[p].hand.look))] else s
    case Confirm(p, at) =>
      if IsMarked(s, p) then s[p := Process(s[p].marks[s[p].hand.look.announcement.id := at], Free)] else s
    case Cleanup(p, at) =>
      if p < |s| then s[p := s[p].(marks := Cleaned(s[p].marks, at))] else s
    case Restart(_) => s + [Process(s[|s| - 1].marks, Free)]
  }

  /** The processes, the newest last, after a run from a fresh state. */
  function Run(steps: seq<Step>): (s: seq<Process>)
    ensures |s| > 0
  {
    if steps == [] then [Process(map[], Free)] else Next(Run(steps[..|steps| - 1]), steps[|steps| - 1])
  }

  function Newest(s: seq<Process>): Process
    requires |s| > 0
  {
    s[|s| - 1]
  }

  predicate Holds(h: Hand, id: string) {
    h.Asked? && h.look.announcement.id == id
  }

  /** The step triggers a collection for the notice, started or failed. */
  predicate IsTrigger(s: seq<Process>, step: Step, id: string) {
    step.Mark? && step.p < |s| && Holds(s[step.p].hand, id)
  }

  /** It does so in a process that was stopped before: a restart's save fell between the look-up, or even
      the whole poll, and this mark, so no later process knows of it. */
  predicate IsLost(s: seq<Process>, step: Step, id: string) {
    IsTrigger(s, step, id) && step.p < |s| - 1
  }

  function TriggerCount(steps: seq<Step>, id: string): nat {
    if steps == [] then 0
    else
      var n := |steps| - 1;
      TriggerCount(steps[..n], id) + if IsTrigger(Run(steps[..n]), steps[n], id) then 1 else 0
  }

  function LostCount(steps: seq<Step>, id: string): nat {
    if steps == [] then 0
    else
      var n := |steps| - 1;
      LostCount(steps[..n], id) + if IsLost(Run(steps[..n]), steps[n], id) then 1 else 0
  }

  /** The step is a look at the notice, by a polling goroutine that is free to make it. */
  predicate IsLookAt(s: seq<Process>, step: Step, id: string) {
    step.Ask? && step.look.announcement.id == id && step.p < |s| && s[step.p].hand.Free?
  }

  /** And it finds the notice worth a collection, processed or not. */
  predicate IsQualifiedLook(s: seq<Process>, step: Step, id: string) {
    IsLookAt(s, step, id) && Qualifies(step.look)
  }

  function At(step: Step): int {
    match step
    case Ask(_, look) => look.asked
    case Mark(_, at) => at
    case Confirm(_, at) => at
    case Cleanup(_, at) => at
    case Restart(at) => at
  }

  /** A notice is looked up, judged and marked in this order. */
  predicate Timely(s: seq<Process>, step: Step) {
    && (step.Ask? ==> step.look.asked <= step.look.judged)
    && (step.Mark? && IsAsked(s, step.p) ==> s[step.p].hand.look.judged <= step.at)
  }

  predicate AllTimely(steps: seq<Step>) {
    forall i :: 0 <= i < |steps| ==> Timely(Run(steps[..i]), steps[i])
  }

  predicate ClockForward(steps: seq<Step>) {
    forall i, j :: 0 <= i < j < |steps| ==> At(steps[i]) <= At(steps[j])
  }

  /** The clock never goes back, across processes. */
  predicate Monotone(steps: seq<Step>) {
    AllTimely(steps) && ClockForward(steps)
  }

  /** The board gives the notice one announcement time. */
  predicate Dated(steps: seq<Step>, id: string, at: int) {
    forall i :: 0 <= i < |steps| && IsQualifiedLook(Run(steps[..i]), steps[i], id) ==>
      steps[i].look.announcement.listedAt == Some(at)
  }

  /** And that time is at most 23.5 hours after the clock at any mark that triggers it. */
  predicate Announced(steps: seq<Step>, id: string, at: int) {
    && Dated(steps, id, at)
    && forall i :: 0 <= i < |steps| && IsTrigger(Run(steps[..i]), steps[i], id) ==>
         at + ACCEPTANCE <= At(steps[i]) + RETENTION
  }

  predicate SomeQualifies(steps: seq<Step>, id: string) {
    exists i :: 0 <= i < |steps| && IsQualifiedLook(Run(steps[..i]), steps[i], id)
  }

  /** Some process has looked the notice up and is going to mark it. */
  predicate InHand(s: seq<Process>, id: string) {
    exists p :: 0 <= p < |s| && Holds(s[p].hand, id)
  }

  lemma PrefixIsRun(steps: seq<Step>, k: nat, id: string, at: int)
    requires k <= |steps|
    ensures Monotone(steps) ==> Monotone(steps[..k])
    ensures Dated(steps, id, at) ==> Dated(steps[..k], id, at)
    ensures Announced(steps, id, at) ==> Announced(steps[..k], id, at)
  {
    hide Run, Timely, IsQualifiedLook, IsTrigger, At;
    assert forall i :: 0 <= i < k ==> steps[..k][..i] == steps[..i];
  }

  lemma RunSnoc(steps: seq<Step>, step: Step, id: string)
    ensures Run(steps + [step]) == Next(Run(steps), step)
    ensures TriggerCount(steps + [step], id) == TriggerCount(steps, id) + if IsTrigger(Run(steps), step, id) then 1 else 0
    ensures LostCount(steps + [step], id) == LostCount(steps, id) + if IsLost(Run(steps), step, id) then 1 else 0
  {
    hide Next, IsTrigger, IsLost;
    assert (steps + [step])[..|steps|] == steps;
  }

  function Clock(steps: seq<Step>): int
    requires steps != []
  {
    At(steps[|steps| - 1])
  }

  lemma TimelySnoc(steps: seq<Step>, step: Step)
    requires AllTimely(steps) && Timely(Run(steps), step)
    ensures AllTimely(steps + [step])
  {
    hide Run, Timely;
    var all := steps + [step];
    forall i | 0 <= i < |all| ensures Timely(Run(all[..i]), all[i]) {
      if i < |steps| {
        assert all[..i] == steps[..i] && Timely(Run(steps[..i]), steps[i]);
      } else {
        assert all[..i] == steps;
      }
    }
  }

  lemma MonotoneSnoc(steps: seq<Step>, step: Step)
    requires Monotone(steps) && Timely(Run(steps), step) && (steps != [] ==> Clock(steps) <= At(step))
    ensures Monotone(steps + [step]) && Clock(steps + [step]) == At(step)
  {
    hide AllTimely, At;
    TimelySnoc(steps, step);
  }

  /** What the triggers that were not lost leave behind: there is at most one, and the newest process
      remembers it until the notice is too old to accept. */
  ghost predicate Remembers(newest: Process, kept: int, id: string, at: int, clock: int) {
    && 0 <= kept <= 1
    && (id in newest.marks ==> kept == 1)
    && (newest.hand.Marked? && newest.hand.look.announcement.id == id ==> kept == 1)
    && (kept == 1 ==> (id in newest.marks && at + ACCEPTANCE <= newest.marks[id] + RETENTION) || at + ACCEPTANCE < clock)
    && (Holds(newest.hand, id) ==> kept == 0)
  }

  lemma OneStepRemembers(s: seq<Process>, step: Step, kept: int, id: string, at: int, clock: int)
    requires |s| > 0 && Remembers(Newest(s), kept, id, at, clock) && (kept == 1 ==> clock <= At(step))
    requires Timely(s, step)
    requires IsQualifiedLook(s, step, id) ==> step.look.announcement.listedAt == Some(at)
    requires IsTrigger(s, step, id) ==> at + ACCEPTANCE <= At(step) + RETENTION
    requires kept == 1 && step.Confirm? && step.p == |s| - 1 ==> at + ACCEPTANCE <= step.at + RETENTION
    ensures Remembers(Newest(Next(s, step)), kept + if IsTrigger(s, step, id) && !IsLost(s, step, id) then 1 else 0, id, at, At(step))
  {
    hide HasKRWContent;
  }

  /** What holds of the last step of a run. */
  lemma LastStep(steps: seq<Step>, id: string, at: int)
    requires steps != [] && Monotone(steps) && Announced(steps, id, at)
    ensures var before, step := steps[..|steps| - 1], steps[|steps| - 1];
            && Monotone(before) && Announced(before, id, at)
            && Timely(Run(before), step) && (before != [] ==> Clock(before) <= At(step)) && Clock(steps) == At(step)
            && (IsQualifiedLook(Run(before), step, id) ==> step.look.announcement.listedAt == Some(at))
            && (IsTrigger(Run(before), step, id) ==> at + ACCEPTANCE <= At(step) + RETENTION)
  {
    PrefixIsRun(steps, |steps| - 1, id, at);
    hide Run, Timely, IsQualifiedLook, IsTrigger, At;
    if |steps| > 1 {
      assert At(steps[|steps| - 2]) <= At(steps[|steps| - 1]);
    }
  }

  /** After any run. */
  lemma {:induction false} NewestRemembers(steps: seq<Step>, id: string, at: int)
    requires steps != [] && Monotone(steps) && Announced(steps, id, at)
    ensures Remembers(Newest(Run(steps)), TriggerCount(steps, id) - LostCount(steps, id), id, at, Clock(steps))
    ensures TriggerCount(steps, id) > 0 ==> at + ACCEPTANCE <= Clock(steps) + RETENTION
  {
    hide Next, Timely, IsTrigger, IsLost, IsQualifiedLook, Remembers, Monotone, Announced, Clock, At;
    var n := |steps| - 1;
    var before, step := steps[..n], steps[n];
    LastStep(steps, id, at);
    if n == 0 {
      StartRemembers(id, at, At(step));
      OneStepRemembers(Run(before), step, 0, id, at, At(step));
    } else {
      NewestRemembers(before, id, at);
      KeptIsCount(before, id);
      ConfirmIsLate(step);
      OneStepRemembers(Run(before), step, TriggerCount(before, id) - LostCount(before, id), id, at, Clock(before));
    }
    IsLostMeaning(Run(before), step, id);
  }

  lemma ConfirmIsLate(step: Step)
    ensures step.Confirm? ==> At(step) == step.at
  {
  }

  lemma IsLostMeaning(s: seq<Process>, step: Step, id: string)
    ensures IsLost(s, step, id) ==> IsTrigger(s, step, id)
  {
  }

  lemma StartRemembers(id: string, at: int, clock: int)
    ensures Remembers(Process(map[], Free), 0, id, at, clock)
  {
  }

  lemma {:induction false} KeptIsCount(steps: seq<Step>, id: string)
    ensures LostCount(steps, id) <= TriggerCount(steps, id)
  {
    if steps != [] {
      KeptIsCount(steps[..|steps| - 1], id);
    }
  }

  /** In every run each trigger but one was lost to a restart. */
  lemma KeptAtMostOnce(steps: seq<Step>, id: string, at: int)
    requires Monotone(steps) && Announced(steps, id, at)
    ensures TriggerCount(steps, id) <= 1 + LostCount(steps, id)
  {
    if steps != [] {
      NewestRemembers(steps, id, at);
    }
  }

  /** A process knows of a notice only by a trigger. */
  lemma {:induction false} MarkedIsTriggered(steps: seq<Step>, id: string)
    ensures TriggerCount(steps, id) == 0 ==>
              forall p :: 0 <= p < |Run(steps)| ==>
                id !in Run(steps)[p].marks && (Run(steps)[p].hand.Marked? ==> Run(steps)[p].hand.look.announcement.id != id)
  {
    if steps != [] {
      MarkedIsTriggered(steps[..|steps| - 1], id);
      hide Processed, Qualifies;
    }
  }

  lemma SomeQualifiesSnoc(steps: seq<Step>, id: string)
    requires steps != []
    ensures var n := |steps| - 1;
            SomeQualifies(steps, id) <==>
            SomeQualifies(steps[..n], id) || (IsQualifiedLook(Run(steps[..n]), steps[n], id))
  {
    hide Run, IsQualifiedLook;
    var n := |steps| - 1;
    assert forall i :: 0 <= i < n ==> steps[..n][..i] == steps[..i];
    if SomeQualifies(steps[..n], id) {
      var i :| 0 <= i < n && IsQualifiedLook(Run(steps[..n][..i]), steps[..n][i], id);
      assert IsQualifiedLook(Run(steps[..i]), steps[i], id);
    }
    if SomeQualifies(steps, id) {
      var i :| 0 <= i <= n && IsQualifiedLook(Run(steps[..i]), steps[i], id);
      if i < n {
        assert IsQualifiedLook(Run(steps[..n][..i]), steps[..n][i], id);
      }
    }
  }

  lemma HandStays(s: seq<Process>, step: Step, id: string)
    requires |s| > 0
    ensures InHand(Next(s, step), id) ==> InHand(s, id) || (IsQualifiedLook(s, step, id))
    ensures InHand(s, id) ==> InHand(Next(s, step), id) || IsTrigger(s, step, id)
    ensures IsTrigger(s, step, id) ==> InHand(s, id)
    ensures IsLookAt(s, step, id) && Triggers(s[step.p].marks, step.look) ==> InHand(Next(s, step), id)
  {
    hide Processed, Qualifies;
    var after := Next(s, step);
    if InHand(after, id) {
      var p :| 0 <= p < |after| && Holds(after[p].hand, id);
      assert p < |s| && Holds(s[p].hand, id) ==> InHand(s, id);
    }
    if InHand(s, id) {
      var p :| 0 <= p < |s| && Holds(s[p].hand, id);
      assert Holds(after[p].hand, id) || IsTrigger(s, step, id);
    }
    if IsLookAt(s, step, id) && Triggers(s[step.p].marks, step.look) {
      assert Holds(after[step.p].hand, id);
    }
  }

  /** A notice that some look found worth it is triggered, or about to be; any other never is. */
  lemma {:induction false} QualifiedIsServed(steps: seq<Step>, id: string)
    ensures SomeQualifies(steps, id) <==> TriggerCount(steps, id) > 0 || InHand(Run(steps), id)
  {
    if steps != [] {
      var n := |steps| - 1;
      QualifiedIsServed(steps[..n], id);
      SomeQualifiesSnoc(steps, id);
      HandStays(Run(steps[..n]), steps[n], id);
      MarkedIsTriggered(steps[..n], id);
      hide Next, SomeQualifies, InHand, Qualifies;
    }
  }

  /** The 30-minute acceptance is shorter than the 24-hour memory: when no trigger was lost to a restart and
      no look is under way, a notice has triggered exactly one collection if any look at it ever qualified,
      and none otherwise. */
  lemma ExactlyOnce(steps: seq<Step>, id: string, at: int)
    requires Monotone(steps) && Announced(steps, id, at)
    requires LostCount(steps, id) == 0 && !InHand(Run(steps), id)
    ensures TriggerCount(steps, id) == if SomeQualifies(steps, id) then 1 else 0
  {
    KeptAtMostOnce(steps, id, at);
    QualifiedIsServed(steps, id);
  }

  lemma PrefixesQualify(steps: seq<Step>, n: nat, id: string, at: int)
    requires n <= |steps|
    requires forall i :: 0 <= i < |steps| && IsQualifiedLook(Run(steps[..i]), steps[i], id) ==>
               steps[i].look.announcement.listedAt == Some(at) && at <= steps[i].look.judged
    ensures forall i :: 0 <= i < n && IsQualifiedLook(Run(steps[..n][..i]), steps[..n][i], id) ==>
              steps[i].look.announcement.listedAt == Some(at) && at <= steps[i].look.judged
  {
    hide Run, IsQualifiedLook;
    assert forall i :: 0 <= i < n ==> steps[..n][..i] == steps[..i];
  }

  lemma NextHands(s: seq<Process>, step: Step, id: string, at: int)
    requires |s| > 0 && forall p :: 0 <= p < |s| && Holds(s[p].hand, id) ==> at <= s[p].hand.look.judged
    requires IsQualifiedLook(s, step, id) ==> at <= step.look.judged
    ensures forall p :: 0 <= p < |Next(s, step)| && Holds(Next(s, step)[p].hand, id) ==> at <= Next(s, step)[p].hand.look.judged
  {
    hide Acceptable, Processed;
  }

  /** Every look in hand found the notice worth it. */
  lemma {:induction false} HandsAreNotInFuture(steps: seq<Step>, id: string, at: int)
    requires forall i :: 0 <= i < |steps| && IsQualifiedLook(Run(steps[..i]), steps[i], id) ==>
               steps[i].look.announcement.listedAt == Some(at) && at <= steps[i].look.judged
    ensures forall p :: 0 <= p < |Run(steps)| && Holds(Run(steps)[p].hand, id) ==> at <= Run(steps)[p].hand.look.judged
  {
    if steps != [] {
      var n := |steps| - 1;
      PrefixesQualify(steps, n, id, at);
      HandsAreNotInFuture(steps[..n], id, at);
      assert IsQualifiedLook(Run(steps[..n]), steps[n], id) ==> at <= steps[n].look.judged;
      NextHands(Run(steps[..n]), steps[n], id, at);
      hide Next, IsQualifiedLook;
    }
  }

  /** The usual case: a notice announced no later than any look that could trigger it. */
  lemma AtMostOnceWhenNotInFuture(steps: seq<Step>, id: string, at: int)
    requires Monotone(steps) && LostCount(steps, id) == 0
    requires forall i :: 0 <= i < |steps| && IsQualifiedLook(Run(steps[..i]), steps[i], id) ==>
               steps[i].look.announcement.listedAt == Some(at) && at <= steps[i].look.judged
    ensures TriggerCount(steps, id) <= 1
  {
    hide IsQualifiedLook, Run;
    forall i | 0 <= i < |steps| && IsTrigger(Run(steps[..i]), steps[i], id) ensures at + ACCEPTANCE <= At(steps[i]) + RETENTION {
      PrefixesQualify(steps, i, id, at);
      HandsAreNotInFuture(steps[..i], id, at);
      assert Timely(Run(steps[..i]), steps[i]);
    }
    KeptAtMostOnce(steps, id, at);
  }

  /** A look that triggers, with both clock readings the same. */
  function GoodLook(a: Announcement, now: int): Look {
    Look(a, now, now, Some(a.id))
  }

  /** However the run goes on, with the board giving the notice as it is and no further trigger lost. */
  ghost predicate AlwaysOnce(steps: seq<Step>, a: Announcement) {
    forall more: seq<Step> ::
      && Monotone(steps + more) && LostCount(steps + more, a.id) == LostCount(steps, a.id)
      && (forall i :: 0 <= i < |more| && more[i].Ask? && more[i].look.announcement.id == a.id ==> more[i].look.announcement == a)
      ==> TriggerCount(steps + more, a.id) <= 1
  }

  /** No process but the newest is needed to trigger a notice once more: it clears its hand, looks, and marks. */
  function OneMore(newest: nat, a: Announcement, now: int): seq<Step> {
    [Mark(newest, now), Confirm(newest, now), Ask(newest, GoodLook(a, now)), Mark(newest, now)]
  }

  /** What a restart can spoil, exactly: while a notice can still be accepted, it triggers at most once in every
      continuation if and only if no trigger of it was marked after the save of a restart. */
  lemma OnceIffNothingLost(steps: seq<Step>, a: Announcement, now: int)
    requires steps != [] && Clock(steps) <= now && Acceptable(a, now)
    requires Monotone(steps) && Announced(steps, a.id, a.listedAt.value) && a.listedAt.value + ACCEPTANCE <= Clock(steps) + RETENTION
    requires Newest(Run(steps)).hand.Asked? ==> Newest(Run(steps)).hand.look.judged <= now
    ensures AlwaysOnce(steps, a) <==> LostCount(steps, a.id) == 0
  {
    var at := a.listedAt.value;
    if LostCount(steps, a.id) == 0 {
      forall more: seq<Step>
        | Monotone(steps + more) && LostCount(steps + more, a.id) == LostCount(steps, a.id)
          && forall i :: 0 <= i < |more| && more[i].Ask? && more[i].look.announcement.id == a.id ==> more[i].look.announcement == a
        ensures TriggerCount(steps + more, a.id) <= 1
      {
        LaterStepsAreAnnounced(steps, more, a);
        KeptAtMostOnce(steps + more, a.id, at);
      }
    } else {
      TwiceWhenLost(steps, a, now);
    }
  }

  lemma LaterStepsAreAnnounced(steps: seq<Step>, more: seq<Step>, a: Announcement)
    requires steps != [] && Monotone(steps + more) && a.listedAt.Some? && Announced(steps, a.id, a.listedAt.value)
    requires a.listedAt.value + ACCEPTANCE <= Clock(steps) + RETENTION
    requires forall i :: 0 <= i < |more| && more[i].Ask? && more[i].look.announcement.id == a.id ==> more[i].look.announcement == a
    ensures Announced(steps + more, a.id, a.listedAt.value)
  {
    hide Run, IsTrigger, Qualifies, Timely;
    var all := steps + more;
    forall i | 0 <= i < |all|
      ensures IsQualifiedLook(Run(all[..i]), all[i], a.id) ==> all[i].look.announcement.listedAt == a.listedAt
      ensures IsTrigger(Run(all[..i]), all[i], a.id) ==> a.listedAt.value + ACCEPTANCE <= At(all[i]) + RETENTION
    {
      if i < |steps| {
        assert all[..i] == steps[..i] && all[i] == steps[i];
      } else {
        assert all[i] == more[i - |steps|];
        assert At(all[|steps| - 1]) <= At(all[i]);
      }
    }
  }

  lemma NotAlwaysOnce(steps: seq<Step>, more: seq<Step>, a: Announcement)
    requires Monotone(steps + more) && LostCount(steps + more, a.id) == LostCount(steps, a.id)
    requires forall i :: 0 <= i < |more| && more[i].Ask? && more[i].look.announcement.id == a.id ==> more[i].look.announcement == a
    requires TriggerCount(steps + more, a.id) > 1
    ensures !AlwaysOnce(steps, a)
  {
    hide Monotone, TriggerCount, LostCount;
  }

  lemma TwiceWhenLost(steps: seq<Step>, a: Announcement, now: int)
    requires steps != [] && Clock(steps) <= now && Acceptable(a, now)
    requires Monotone(steps) && Announced(steps, a.id, a.listedAt.value) && LostCount(steps, a.id) > 0
    requires Newest(Run(steps)).hand.Asked? ==> Newest(Run(steps)).hand.look.judged <= now
    ensures !AlwaysOnce(steps, a)
  {
    hide Run, TriggerCount, LostCount, Monotone, Announced, HasKRWContent;
    KeptIsCount(steps, a.id);
    if TriggerCount(steps, a.id) > 1 {
      assert steps + [] == steps;
      NotAlwaysOnce(steps, [], a);
    } else {
      NewestRemembers(steps, a.id, a.listedAt.value);
      OneMoreTriggers(steps, a, now);
      NotAlwaysOnce(steps, OneMore(|Run(steps)| - 1, a, now), a);
    }
  }

  /** Four steps of the newest process that trigger the notice once or twice. */
  lemma OneMoreOnState(s: seq<Process>, a: Announcement, now: int)
    requires s != [] && Acceptable(a, now) && a.id !in Newest(s).marks
    requires Newest(s).hand.Marked? ==> Newest(s).hand.look.announcement.id != a.id
    requires Newest(s).hand.Asked? ==> Newest(s).hand.look.judged <= now
    ensures var p, good := |s| - 1, GoodLook(a, now);
            var s1 := Next(s, Mark(p, now));
            var s2 := Next(s1, Confirm(p, now));
            var s3 := Next(s2, Ask(p, good));
            && |s1| == |s2| == |s3| == |s|
            && Timely(s, Mark(p, now)) && Timely(s1, Confirm(p, now)) && Timely(s2, Ask(p, good)) && Timely(s3, Mark(p, now))
            && (IsTrigger(s, Mark(p, now), a.id) || IsTrigger(s3, Mark(p, now), a.id))
            && !IsLost(s, Mark(p, now), a.id) && !IsLost(s3, Mark(p, now), a.id)
  {
    hide HasKRWContent;
  }

  lemma OneMoreTriggers(steps: seq<Step>, a: Announcement, now: int)
    requires steps != [] && Monotone(steps) && Clock(steps) <= now && Acceptable(a, now)
    requires a.id !in Newest(Run(steps)).marks
    requires Newest(Run(steps)).hand.Marked? ==> Newest(Run(steps)).hand.look.announcement.id != a.id
    requires Newest(Run(steps)).hand.Asked? ==> Newest(Run(steps)).hand.look.judged <= now
    ensures var all := steps + OneMore(|Run(steps)| - 1, a, now);
            Monotone(all) && TriggerCount(all, a.id) > TriggerCount(steps, a.id) && LostCount(all, a.id) == LostCount(steps, a.id)
  {
    hide Run, Next, Acceptable, Monotone, TriggerCount, LostCount, Clock, Timely, IsTrigger, IsLost, OneMore;
    OneMoreOnState(Run(steps), a, now);
    var p := |Run(steps)| - 1;
    FourLonger(steps, Mark(p, now), Confirm(p, now), Ask(p, GoodLook(a, now)), Mark(p, now), a.id, now);
    OneMoreIs(p, a, now);
  }

  lemma OneMoreIs(p: nat, a: Announcement, now: int)
    ensures OneMore(p, a, now) == [Mark(p, now), Confirm(p, now), Ask(p, GoodLook(a, now)), Mark(p, now)]
  {
  }

  lemma FourLonger(steps: seq<Step>, a: Step, b: Step, c: Step, d: Step, id: string, now: int)
    requires steps != [] && Monotone(steps) && Clock(steps) <= now && At(a) == At(b) == At(c) == At(d) == now
    requires a.Mark? && b.Confirm? && c.Ask? && d.Mark?
    requires var s := Run(steps);
             var s3 := Next(Next(Next(s, a), b), c);
             && Timely(s, a) && Timely(Next(s, a), b) && Timely(Next(Next(s, a), b), c) && Timely(s3, d)
             && (IsTrigger(s, a, id) || IsTrigger(s3, d, id)) && !IsLost(s, a, id) && !IsLost(s3, d, id)
    ensures var all := steps + [a, b, c, d];
            Monotone(all) && TriggerCount(all, id) > TriggerCount(steps, id) && LostCount(all, id) == LostCount(steps, id)
  {
    OnlyMarksTrigger(Next(Run(steps), a), b, id);
    OnlyMarksTrigger(Next(Next(Run(steps), a), b), c, id);
    hide *;
    var s1 := Longer(steps, a, id);
    var s2 := Longer(s1, b, id);
    var s3 := Longer(s2, c, id);
    var s4 := Longer(s3, d, id);
    FourSteps(steps, a, b, c, d);
  }

  lemma FourSteps(steps: seq<Step>, a: Step, b: Step, c: Step, d: Step)
    ensures steps + [a] + [b] + [c] + [d] == steps + [a, b, c, d]
  {
  }

  lemma OnlyMarksTrigger(s: seq<Process>, step: Step, id: string)
    requires !step.Mark?
    ensures !IsTrigger(s, step, id) && !IsLost(s, step, id)
  {
  }

  /** The run with one more step. */
  lemma Longer(steps: seq<Step>, step: Step, id: string) returns (all: seq<Step>)
    requires Monotone(steps) && Timely(Run(steps), step) && (steps != [] ==> Clock(steps) <= At(step))
    ensures all == steps + [step] && Monotone(all) && Clock(all) == At(step) && Run(all) == Next(Run(steps), step)
    ensures TriggerCount(all, id) == TriggerCount(steps, id) + if IsTrigger(Run(steps), step, id) then 1 else 0
    ensures LostCount(all, id) == LostCount(steps, id) + if IsLost(Run(steps), step, id) then 1 else 0
  {
    all := steps + [step];
    RunSnoc(steps, step, id);
    MonotoneSnoc(steps, step);
  }

  /** A look begun before a restart and marked after it: the next process triggers the notice again. */
  lemma StopDuringLook(a: Announcement, p: int)
    requires Acceptable(a, p)
    ensures var run := [Ask(0, GoodLook(a, p)), Restart(p), Mark(0, p), Ask(1, GoodLook(a, p)), Mark(1, p)];
            Monotone(run) && LostCount(run, a.id) == 1 && TriggerCount(run, a.id) == 2
  {
    var look := GoodLook(a, p);
    var r1 := Longer([], Ask(0, look), a.id);
    var r2 := Longer(r1, Restart(p), a.id);
    var r3 := Longer(r2, Mark(0, p), a.id);
    var r4 := Longer(r3, Ask(1, look), a.id);
    hide HasKRWContent, Monotone;
    var r5 := Longer(r4, Mark(1, p), a.id);
    assert r5 == [Ask(0, look), Restart(p), Mark(0, p), Ask(1, look), Mark(1, p)];
    assert TriggerCount([], a.id) == 0 == LostCount([], a.id);
  }

  /** A notice processed in one go at p. */
  function First(a: Announcement, p: int): seq<Step> {
    [Ask(0, GoodLook(a, p)), Mark(0, p), Confirm(0, p)]
  }

  lemma FirstFacts(a: Announcement, p: int)
    requires Acceptable(a, p)
    ensures Monotone(First(a, p)) && Run(First(a, p)) == [Process(map[a.id := p], Free)]
    ensures TriggerCount(First(a, p), a.id) == 1 && LostCount(First(a, p), a.id) == 0
  {
    hide *;
    var look := GoodLook(a, p);
    FirstOnState(a, p);
    NothingYet(a.id);
    ThreeSteps(a, p);
    var r1 := Longer([], Ask(0, look), a.id);
    var r2 := Longer(r1, Mark(0, p), a.id);
    var r3 := Longer(r2, Confirm(0, p), a.id);
  }

  lemma NothingYet(id: string)
    ensures Run([]) == [Process(map[], Free)] && Monotone([]) && TriggerCount([], id) == 0 == LostCount([], id)
  {
  }

  lemma ThreeSteps(a: Announcement, p: int)
    ensures First(a, p) == [] + [Ask(0, GoodLook(a, p))] + [Mark(0, p)] + [Confirm(0, p)]
    ensures At(Mark(0, p)) == At(Confirm(0, p)) == p
  {
  }

  lemma FirstOnState(a: Announcement, p: int)
    requires Acceptable(a, p)
    ensures var look, start := GoodLook(a, p), [Process(map[], Free)];
            var s1, s2 := [Process(map[], Asked(look))], [Process(map[a.id := p], Marked(look))];
            && Run([]) == start && Monotone([]) && At(Ask(0, look)) == p
            && Next(start, Ask(0, look)) == s1 && Next(s1, Mark(0, p)) == s2 && Next(s2, Confirm(0, p)) == [Process(map[a.id := p], Free)]
            && Timely(start, Ask(0, look)) && Timely(s1, Mark(0, p)) && Timely(s2, Confirm(0, p))
            && !IsTrigger(start, Ask(0, look), a.id) && IsTrigger(s1, Mark(0, p), a.id) && !IsTrigger(s2, Confirm(0, p), a.id)
            && !IsLost(start, Ask(0, look), a.id) && !IsLost(s1, Mark(0, p), a.id) && !IsLost(s2, Confirm(0, p), a.id)
  {
    hide HasKRWContent;
    var look := GoodLook(a, p);
    assert Next([Process(map[], Free)], Ask(0, look)) == [Process(map[], Asked(look))];
    assert map[a.id := p][a.id := p] == map[a.id := p];
    assert Next([Process(map[], Asked(look))], Mark(0, p)) == [Process(map[a.id := p], Marked(look))];
    assert Next([Process(map[a.id := p], Marked(look))], Confirm(0, p)) == [Process(map[a.id := p], Free)];
  }

  /** What its date can spoil, exactly: a notice processed at p triggers again in some continuation iff it is
      dated more than 23.5 hours after p. */
  lemma OnceIffNotFarInFuture(a: Announcement, p: int)
    requires Acceptable(a, p)
    ensures AlwaysOnce(First(a, p), a) <==> a.listedAt.value + ACCEPTANCE <= p + RETENTION
  {
    FirstFacts(a, p);
    if a.listedAt.value + ACCEPTANCE <= p + RETENTION {
      FirstIsAnnounced(a, p);
      OnceIffNothingLost(First(a, p), a, p);
    } else {
      SecondTrigger(a, p);
    }
  }

  lemma FirstIsAnnounced(a: Announcement, p: int)
    requires a.listedAt.Some? && a.listedAt.value + ACCEPTANCE <= p + RETENTION
    ensures Announced(First(a, p), a.id, a.listedAt.value)
  {
    hide Run, Qualifies;
  }

  lemma SecondTrigger(a: Announcement, p: int)
    requires Acceptable(a, p) && a.listedAt.value + ACCEPTANCE > p + RETENTION
    ensures !AlwaysOnce(First(a, p), a)
  {
    var now := p + RETENTION + 1;
    var look := GoodLook(a, now);
    FirstFacts(a, p);
    hide HasKRWContent, Monotone, TriggerCount, LostCount;
    var r4 := Longer(First(a, p), Ask(0, look), a.id);
    hide Run;
    var r5 := Longer(r4, Mark(0, now), a.id);
    assert r5 == First(a, p) + [Ask(0, look), Mark(0, now)];
    NotAlwaysOnce(First(a, p), [Ask(0, look), Mark(0, now)], a);
  }
}
