/** The notice monitor and its persistent state. Every method does what the source does in one piece; a stop may
    fall between any two of them, and the stopped monitor can still be called. */
module UpbitMonitors {
  import opened Trades
  import opened Notices

  datatype NoticeRecord = NoticeRecord(processedAt: int, announcedAt: int, detectedAt: int,
                                       symbol: string, title: string, delayDuration: int, success: bool)

  /** When each recorded notice was last marked. */
  function MarksOf(records: map<string, NoticeRecord>): map<string, int> {
    map id | id in records :: records[id].processedAt
  }

  /** The record a handled notice leaves: confirmed last, and telling whether the collection started. */
  function RecordOf(look: Look, confirmed: int, starts: bool): NoticeRecord
    requires look.announcement.listedAt.Some? && look.symbol.Some?
  {
    var at := look.announcement.listedAt.value;
    NoticeRecord(confirmed, at, look.judged, look.symbol.value, look.announcement.title, look.judged - at, starts)
  }

  /** What the state file holds: nothing yet, something that does not parse, or an earlier save. */
  datatype StateFile = Missing | Unreadable
                     | Saved(version: string, processedNotices: map<string, NoticeRecord>, detectedListings: int)

  const STATE_VERSION: string := "2.0"

  class PersistentState {
    const version: string
    var processedNotices: map<string, NoticeRecord>
    var detectedListings: int

    ghost function Marks(): map<string, int>
      reads this
    {
      MarksOf(processedNotices)
    }

    /** A new process takes over a save of its own version and otherwise starts fresh. */
    constructor (file: StateFile)
      ensures version == STATE_VERSION
      ensures if file.Saved? && file.version == STATE_VERSION
              then processedNotices == file.processedNotices && detectedListings == file.detectedListings
              else processedNotices == map[] && detectedListings == 0
    {
      version := STATE_VERSION;
      processedNotices, detectedListings := map[], 0;
      if file.Saved? && file.version == STATE_VERSION {
        processedNotices, detectedListings := file.processedNotices, file.detectedListings;
      }
    }

    method SaveState() returns (file: StateFile)
      ensures file == Saved(version, processedNotices, detectedListings)
    {
      return Saved(version, processedNotices, detectedListings);
    }

    method IsNoticeProcessed(noticeID: string, now: int) returns (processed: bool)
      ensures processed <==> Processed(Marks(), noticeID, now)
    {
      if noticeID !in processedNotices {
        return false;
      }
      if now - processedNotices[noticeID].processedAt > RETENTION {
        return false;
      }
      return true;
    }

    method MarkNoticeProcessed(noticeID: string, record: NoticeRecord, now: int)
      modifies this
      ensures processedNotices == old(processedNotices)[noticeID := record.(processedAt := now)]
      ensures Marks() == old(Marks())[noticeID := now]
      ensures detectedListings == old(detectedListings) + 1
    {
      processedNotices := processedNotices[noticeID := record.(processedAt := now)];
      detectedListings := detectedListings + 1;
    }

    /** Whatever order the records are visited in. */
    method CleanupOldRecords(now: int)
      modifies this
      ensures Marks() == Cleaned(old(Marks()), now)
      ensures detectedListings == old(detectedListings)
      ensures forall id :: id in processedNotices ==> id in old(processedNotices) && processedNotices[id] == old(processedNotices)[id]
    {
      var cutoff := now - RETENTION;
      var todo := processedNotices.Keys;
      while todo != {}
        invariant todo <= processedNotices.Keys <= old(processedNotices).Keys
        invariant forall id :: id in processedNotices ==> processedNotices[id] == old(processedNotices)[id]
        invariant forall id :: id in old(processedNotices) && old(processedNotices)[id].processedAt >= cutoff ==>
                    id in processedNotices
        invariant forall id :: id in processedNotices && id !in todo ==> processedNotices[id].processedAt >= cutoff
        invariant detectedListings == old(detectedListings)
        decreases |todo|
      {
        var id :| id in todo;
        todo := todo - {id};
        if processedNotices[id].processedAt < cutoff {
          processedNotices := processedNotices - {id};
        }
      }
    }
  }

  /** A process that starts from what another one has saved has its records and its counter. */
  method SaveAndLoad(saved: PersistentState) returns (loaded: PersistentState)
    requires saved.version == STATE_VERSION
    ensures fresh(loaded) && loaded.version == STATE_VERSION
    ensures loaded.Marks() == saved.Marks() && loaded.processedNotices == saved.processedNotices
    ensures loaded.detectedListings == saved.detectedListings
  {
    var file := saved.SaveState();
    loaded := new PersistentState(file);
  }

  /** What all processes of a run have done, in order, and the collections they triggered. */
  class MonitorRun {
    ghost var steps: seq<Step>
    ghost var triggered: seq<string>

    ghost predicate Valid()
      reads this
    {
      Tallies(triggered, steps)
    }

    constructor ()
      ensures Valid() && steps == [] && triggered == []
    {
      steps, triggered := [], [];
    }
  }

  class UpbitMonitor {
    const persistentState: PersistentState
    var detectedListings: int
    var successfulTriggers: int
    var failedTriggers: int
    /** The notice the polling goroutine is busy with. */
    var hand: Hand
    const run: MonitorRun
    ghost const process: nat

    /** The monitor is one of the run's processes: its records and its hand are what the run leaves it. */
    ghost predicate Valid()
      reads this, persistentState, run
    {
      && run.Valid() && persistentState.version == STATE_VERSION
      && process < |Run(run.steps)| && Run(run.steps)[process] == Process(persistentState.Marks(), hand)
      && (!hand.Free? ==> hand.look.announcement.listedAt.Some? && hand.look.symbol.Some?)
      && detectedListings == successfulTriggers + failedTriggers + (if hand.Marked? then 1 else 0)
    }

    /** No other process is affected. */
    twostate predicate OthersStay()
      reads run
    {
      && |Run(run.steps)| == |Run(old(run.steps))|
      && forall q: nat :: q < |Run(run.steps)| && q != process ==> Run(run.steps)[q] == Run(old(run.steps))[q]
    }

    constructor ()
      ensures Valid() && fresh(persistentState) && fresh(run) && run.steps == [] && process == 0
    {
      persistentState := new PersistentState(Missing);
      detectedListings, successfulTriggers, failedTriggers := 0, 0, 0;
      hand, process := Free, 0;
      run := new MonitorRun();
    }

    method ShouldProcessAnnouncement(a: Announcement, asked: int, judged: int) returns (should: bool)
      ensures should <==> !Processed(persistentState.Marks(), a.id, asked) && Acceptable(a, judged)
    {
      var processed := persistentState.IsNoticeProcessed(a.id, asked);
      if processed {
        return false;
      }
      return Acceptable(a, judged);
    }

    /** Looks a notice up, judges it and parses its title. */
    method LookAt(look: Look) returns (wanted: bool)
      requires Valid() && hand.Free?
      modifies this`hand, run
      ensures Valid() && OthersStay() && run.steps == old(run.steps) + [Ask(process, look)] && run.triggered == old(run.triggered)
      ensures wanted <==> Triggers(persistentState.Marks(), look)
      ensures hand == if wanted then Asked(look) else Free
    {
      hide Run, Acceptable, Processed, Tallies;
      QuietTallies(run.triggered, run.steps, Ask(process, look));
      var should := ShouldProcessAnnouncement(look.announcement, look.asked, look.judged);
      wanted := should && look.symbol.Some?;
      WantedHasSymbol(persistentState.Marks(), look);
      if wanted {
        hand := Asked(look);
      }
      run.steps := run.steps + [Ask(process, look)];
    }

    /** Marks the notice as processed and triggers its collection. */
    method MarkAndTrigger(at: int)
      requires Valid() && hand.Asked?
      modifies this, persistentState, run
      ensures Valid() && OthersStay() && run.steps == old(run.steps) + [Mark(process, at)] && hand == Marked(old(hand).look)
      ensures run.triggered == old(run.triggered) + [old(hand).look.announcement.id]
      ensures persistentState.detectedListings == old(persistentState.detectedListings) + 1
      ensures successfulTriggers == old(successfulTriggers) && failedTriggers == old(failedTriggers)
      ensures hand.look.announcement.id in persistentState.processedNotices
      ensures persistentState.processedNotices
           == old(persistentState.processedNotices)[hand.look.announcement.id := RecordOf(hand.look, at, true)]
    {
      hide Run, Tallies, MarksOf;
      TriggerTallies(run.triggered, run.steps, Mark(process, at));
      var look := hand.look;
      persistentState.MarkNoticeProcessed(look.announcement.id, RecordOf(look, 0, true), at);
      detectedListings := detectedListings + 1;
      hand := Marked(look);
      run.triggered, run.steps := run.triggered + [look.announcement.id], run.steps + [Mark(process, at)];
    }

    /** Marks the notice once more, whether or not the collection started. */
    method ConfirmNotice(at: int, starts: bool)
      requires Valid() && hand.Marked?
      modifies this, persistentState, run
      ensures Valid() && OthersStay() && run.steps == old(run.steps) + [Confirm(process, at)] && hand == Free
      ensures run.triggered == old(run.triggered)
      ensures persistentState.detectedListings == old(persistentState.detectedListings) + 1
      ensures successfulTriggers == old(successfulTriggers) + if starts then 1 else 0
      ensures failedTriggers == old(failedTriggers) + if starts then 0 else 1
      ensures persistentState.processedNotices
           == old(persistentState.processedNotices)[old(hand).look.announcement.id := RecordOf(old(hand).look, at, starts)]
    {
      hide Run, Tallies, MarksOf;
      QuietTallies(run.triggered, run.steps, Confirm(process, at));
      var look := hand.look;
      var noticeRecord := RecordOf(look, 0, true);
      if !starts {
        failedTriggers := failedTriggers + 1;
        noticeRecord := noticeRecord.(success := false);
        persistentState.MarkNoticeProcessed(look.announcement.id, noticeRecord, at);
      } else {
        successfulTriggers := successfulTriggers + 1;
        persistentState.MarkNoticeProcessed(look.announcement.id, noticeRecord, at);
      }
      hand := Free;
      run.steps := run.steps + [Confirm(process, at)];
    }

    /** A detected listing handled without interruption: one trigger, one record, two persistent counts. */
    method HandleListingEvent(marked: int, confirmed: int, starts: bool)
      requires Valid() && hand.Asked?
      modifies this, persistentState, run
      ensures Valid() && OthersStay() && hand == Free
      ensures run.steps == old(run.steps) + [Mark(process, marked), Confirm(process, confirmed)]
      ensures run.triggered == old(run.triggered) + [old(hand).look.announcement.id]
      ensures persistentState.detectedListings == old(persistentState.detectedListings) + 2
      ensures successfulTriggers == old(successfulTriggers) + if starts then 1 else 0
      ensures failedTriggers == old(failedTriggers) + if starts then 0 else 1
      ensures persistentState.processedNotices
           == old(persistentState.processedNotices)[old(hand).look.announcement.id := RecordOf(old(hand).look, confirmed, starts)]
    {
      hide Run, Tallies, MarksOf;
      MarkAndTrigger(marked);
      ConfirmNotice(confirmed, starts);
    }

    /** One poll without interruption: every notice of the response in turn. */
    method CheckForListings(visits: seq<Visit>)
      requires Valid() && hand.Free?
      modifies this, persistentState, run
      ensures Valid() && OthersStay() && hand.Free? && run.steps == old(run.steps) + AllSeen(process, visits)
    {
      hide Run, Tallies, Triggers, MarksOf;
      for i := 0 to |visits|
        invariant Valid() && OthersStay() && hand.Free? && run.steps == old(run.steps) + AllSeen(process, visits[..i])
      {
        assert visits[..i + 1][..i] == visits[..i];
        var visit := visits[i];
        var wanted := LookAt(visit.look);
        if wanted {
          HandleListingEvent(visit.marked, visit.confirmed, visit.starts);
        } else {
          NothingToMark(visit.marked, visit.confirmed);
        }
      }
      assert visits[..|visits|] == visits;
    }

    /** Marking with nothing in hand is no step at all. */
    ghost method NothingToMark(marked: int, confirmed: int)
      requires Valid() && hand.Free?
      modifies run
      ensures Valid() && OthersStay() && run.triggered == old(run.triggered)
      ensures run.steps == old(run.steps) + [Mark(process, marked), Confirm(process, confirmed)]
    {
      hide Run, Tallies, MarksOf;
      QuietTallies(run.triggered, run.steps, Mark(process, marked));
      QuietTallies(run.triggered, run.steps + [Mark(process, marked)], Confirm(process, confirmed));
      run.steps := run.steps + [Mark(process, marked)] + [Confirm(process, confirmed)];
    }

    method CleanupOldRecords(now: int)
      requires Valid()
      modifies persistentState, run
      ensures Valid() && OthersStay() && run.steps == old(run.steps) + [Cleanup(process, now)]
      ensures run.triggered == old(run.triggered) && hand == old(hand)
    {
      hide Run, Tallies, Cleaned, MarksOf;
      QuietTallies(run.triggered, run.steps, Cleanup(process, now));
      persistentState.CleanupOldRecords(now);
      run.steps := run.steps + [Cleanup(process, now)];
    }

    /** The newest process is stopped: it cleans up and saves, whatever its polling goroutine is doing, and
        the next process loads the save. The stopped one is still there. */
    constructor Restart(stopped: UpbitMonitor, cleaned: int, saved: int)
      requires stopped.Valid() && stopped.process == |Run(stopped.run.steps)| - 1
      modifies stopped.persistentState, stopped.run
      ensures Valid() && fresh(persistentState) && run == stopped.run && process == stopped.process + 1 && hand == Free
      ensures stopped.Valid()
      ensures run.steps == old(stopped.run.steps) + [Cleanup(stopped.process, cleaned), Step.Restart(saved)]
      ensures run.triggered == old(stopped.run.triggered)
      ensures forall q: nat :: q < stopped.process ==> Run(run.steps)[q] == Run(old(stopped.run.steps))[q]
    {
      hide Run, Tallies, Cleaned, MarksOf;
      stopped.CleanupOldRecords(cleaned);
      var file := stopped.persistentState.SaveState();
      persistentState := new PersistentState(file);
      detectedListings, successfulTriggers, failedTriggers := 0, 0, 0;
      hand, run, process := Free, stopped.run, stopped.process + 1;
      QuietTallies(stopped.run.triggered, stopped.run.steps, Step.Restart(saved));
      stopped.run.steps := stopped.run.steps + [Step.Restart(saved)];
    }
  }

  /** One notice of one poll, with the clock when it is marked and confirmed if it is wanted, and whether its
      collection starts. */
  datatype Visit = Visit(look: Look, marked: int, confirmed: int, starts: bool)

  function AllSeen(process: nat, visits: seq<Visit>): seq<Step> {
    if visits == [] then []
    else
      var last := visits[|visits| - 1];
      AllSeen(process, visits[..|visits| - 1])
      + [Ask(process, last.look), Mark(process, last.marked), Confirm(process, last.confirmed)]
  }

  function Occurrences(ids: seq<string>, id: string): nat {
    if ids == [] then 0 else Occurrences(ids[..|ids| - 1], id) + if ids[|ids| - 1] == id then 1 else 0
  }

  /** The triggers made are those the run calls for, notice by notice. */
  ghost predicate Tallies(triggered: seq<string>, steps: seq<Step>) {
    forall id :: Occurrences(triggered, id) == TriggerCount(steps, id)
  }

  lemma WantedHasSymbol(marks: map<string, int>, look: Look)
    ensures Triggers(marks, look) <==>
            !Processed(marks, look.announcement.id, look.asked) && Acceptable(look.announcement, look.judged) && look.symbol.Some?
    ensures Triggers(marks, look) ==> look.announcement.listedAt.Some?
  {
    hide HasKRWContent;
  }

  lemma TriggerTallies(triggered: seq<string>, steps: seq<Step>, step: Step)
    requires Tallies(triggered, steps) && step.Mark? && IsAsked(Run(steps), step.p)
    ensures Tallies(triggered + [Run(steps)[step.p].hand.look.announcement.id], steps + [step])
    ensures Run(steps + [step]) == Next(Run(steps), step)
  {
    var id' := Run(steps)[step.p].hand.look.announcement.id;
    var after := triggered + [id'];
    RunSnoc(steps, step, "");
    forall id ensures Occurrences(after, id) == TriggerCount(steps + [step], id) {
      RunSnoc(steps, step, id);
      assert after[..|triggered|] == triggered;
      assert Occurrences(triggered, id) == TriggerCount(steps, id);
    }
  }

  lemma QuietTallies(triggered: seq<string>, steps: seq<Step>, step: Step)
    requires Tallies(triggered, steps) && (step.Mark? ==> !IsAsked(Run(steps), step.p))
    ensures Tallies(triggered, steps + [step])
    ensures Run(steps + [step]) == Next(Run(steps), step)
  {
    RunSnoc(steps, step, "");
    forall id ensures Occurrences(triggered, id) == TriggerCount(steps + [step], id) {
      RunSnoc(steps, step, id);
      assert Occurrences(triggered, id) == TriggerCount(steps, id);
    }
  }
}
