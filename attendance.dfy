/**
 * The attendance-counter transition of markAttendance. A subject keeps the
 * pair (attendedLectures, totalLectures) and at most one attendance log per
 * calendar day. Marking a day for the first time creates its log and adds the
 * status's effect to the counters; re-marking it with a different status
 * reverts the old effect and applies the new one; re-marking it with the same
 * status changes nothing. The safe-bunk verdict is then computed from the
 * updated counters.
 */
module Attendance {
  import opened SafeBunk

  /** The statuses an attendance log may hold. */
  datatype Status = Present | Absent | Cancelled | NotMarked

  datatype Option<T> = None | Some(value: T)

  /** A calendar day, passed explicitly (for example, days since an epoch). */
  type Day = int

  datatype Counters = Counters(attended: int, total: int) {
    function Plus(e: Counters): Counters {
      Counters(attended + e.attended, total + e.total)
    }
    function Minus(e: Counters): Counters {
      Counters(attended - e.attended, total - e.total)
    }
  }

  /**
   * What one logged status adds to (attended, total): every status but
   * Cancelled counts toward total (so NotMarked does too), and only Present
   * counts toward attended.
   */
  function Effect(status: Status): (e: Counters)
    ensures 0 <= e.attended <= e.total <= 1
  {
    if status != Cancelled then
      Counters(if status == Present then 1 else 0, 1)
    else
      Counters(0, 0)
  }

  /** The status logged for `day`, if any. */
  function Lookup(log: map<Day, Status>, day: Day): (r: Option<Status>)
    ensures r.Some? <==> day in log
  {
    if day in log then Some(log[day]) else None
  }

  /**
   * The counter update of one mark: `previous` is the status already logged
   * for that day, if any.
   */
  function Remark(c: Counters, previous: Option<Status>, status: Status): (r: Counters)
    ensures r.attended == c.attended - PreviousEffect(previous).attended + Effect(status).attended
    ensures r.total == c.total - PreviousEffect(previous).total + Effect(status).total
  {
    match previous
    case None => c.Plus(Effect(status))
    case Some(was) => if was == status then c else c.Minus(Effect(was)).Plus(Effect(status))
  }

  /** The logged days that were attended. */
  function PresentDays(log: map<Day, Status>): (days: set<Day>) {
    set d | d in log && log[d] == Present
  }

  /** The logged days on which a lecture counted (every status but Cancelled). */
  function CountedDays(log: map<Day, Status>): (days: set<Day>) {
    set d | d in log && log[d] != Cancelled
  }

  /** The counters a subject's log accounts for. */
  function Tally(log: map<Day, Status>): (c: Counters) {
    Counters(|PresentDays(log)|, |CountedDays(log)|)
  }

  /** The first mark of a day adds exactly that status's effect. */
  lemma FirstMarkEffects(c: Counters)
    ensures Remark(c, None, Present) == Counters(c.attended + 1, c.total + 1)
    ensures Remark(c, None, Absent) == Counters(c.attended, c.total + 1)
    ensures Remark(c, None, Cancelled) == c
    ensures Remark(c, None, NotMarked) == Counters(c.attended, c.total + 1)
  {
  }

  /** Re-marking a day with the status it already has is a no-op. */
  lemma RemarkSameIsNoop(c: Counters, status: Status)
    ensures Remark(c, Some(status), status) == c
  {
  }

  /**
   * Revert exactly undoes the earlier apply: re-marking a day first marked
   * `first` with `second` leaves the counters as if only `second` had been
   * marked.
   */
  lemma RemarkRevertsExactly(c: Counters, first: Status, second: Status)
    ensures Remark(Remark(c, None, first), Some(first), second) == Remark(c, None, second)
  {
  }

  /** Present then re-marked Cancelled: (12, 15) goes to (13, 16) and back to (12, 15). */
  lemma PresentThenCancelledExample()
    ensures Remark(Counters(12, 15), None, Present) == Counters(13, 16)
    ensures Remark(Counters(13, 16), Some(Present), Cancelled) == Counters(12, 15)
  {
    FirstMarkEffects(Counters(12, 15));
    RemarkRevertsExactly(Counters(12, 15), Present, Cancelled);
  }

  /** Counters that match their log always satisfy 0 <= attended <= total. */
  lemma TallyBounds(log: map<Day, Status>)
    ensures 0 <= Tally(log).attended <= Tally(log).total
  {
    SubsetCard(PresentDays(log), CountedDays(log));
  }

  /**
   * Marking keeps counters and log in step: applied to the log's own tally,
   * the counter update yields the tally of the updated log.
   */
  lemma RemarkKeepsTally(log: map<Day, Status>, day: Day, status: Status)
    ensures Remark(Tally(log), Lookup(log, day), status) == Tally(log[day := status])
  {
    TallySplit(log, day);
    TallySplit(log[day := status], day);
    UpdateThenRemove(log, day, status);
    RemarkAfterEffect(Tally(log - {day}), Lookup(log, day), status);
  }

  /** The effect of an optional earlier status (none contributes nothing). */
  function PreviousEffect(previous: Option<Status>): (e: Counters) {
    match previous
    case None => Counters(0, 0)
    case Some(was) => Effect(was)
  }

  /**
   * Counters made of a base plus a day's earlier effect become the base plus
   * the new status's effect.
   */
  lemma RemarkAfterEffect(base: Counters, previous: Option<Status>, status: Status)
    ensures Remark(base.Plus(PreviousEffect(previous)), previous, status) == base.Plus(Effect(status))
  {
  }

  /** The tally of a log is the tally without `day` plus the effect of that day's status. */
  lemma TallySplit(log: map<Day, Status>, day: Day)
    ensures Tally(log) == Tally(log - {day}).Plus(PreviousEffect(Lookup(log, day)))
  {
    PresentDaysSplit(log, day);
    CountedDaysSplit(log, day);
  }

  lemma PresentDaysSplit(log: map<Day, Status>, day: Day)
    ensures |PresentDays(log)| == |PresentDays(log - {day})| + (if day in log && log[day] == Present then 1 else 0)
  {
    var rest := PresentDays(log - {day});
    assert day !in rest;
    if day in log && log[day] == Present {
      assert PresentDays(log) == rest + {day};
    } else {
      assert PresentDays(log) == rest;
    }
  }

  lemma CountedDaysSplit(log: map<Day, Status>, day: Day)
    ensures |CountedDays(log)| == |CountedDays(log - {day})| + (if day in log && log[day] != Cancelled then 1 else 0)
  {
    var rest := CountedDays(log - {day});
    assert day !in rest;
    if day in log && log[day] != Cancelled {
      assert CountedDays(log) == rest + {day};
    } else {
      assert CountedDays(log) == rest;
    }
  }

  lemma UpdateThenRemove(log: map<Day, Status>, day: Day, status: Status)
    ensures log[day := status] - {day} == log - {day}
  {
    var a, b := log[day := status] - {day}, log - {day};
    assert a.Keys == b.Keys;
    forall k | k in a ensures a[k] == b[k] {
    }
  }

  lemma UpdateSameIsIdentity(log: map<Day, Status>, day: Day, status: Status)
    requires day in log && log[day] == status
    ensures log[day := status] == log
  {
    var a := log[day := status];
    assert a.Keys == log.Keys;
    forall k | k in a ensures a[k] == log[k] {
    }
  }

  lemma {:induction false} SubsetCard<T>(a: set<T>, b: set<T>)
    requires a <= b
    ensures |a| <= |b|
  {
    if a != {} {
      var x :| x in a;
      SubsetCard(a - {x}, b - {x});
    }
  }

  /** An empty log accounts for nothing. */
  lemma TallyEmpty()
    ensures Tally(map[]) == Counters(0, 0)
  {
    assert PresentDays(map[]) == {} && CountedDays(map[]) == {};
  }

  /**
   * The ledger invariant survives a mark: counters made of consistent
   * creation-time counters plus the log's tally become the same creation-time
   * counters plus the tally of the updated log, and stay within bounds.
   */
  lemma RemarkKeepsLedger(base: Counters, log: map<Day, Status>, day: Day, status: Status)
    requires 0 <= base.attended <= base.total
    ensures var c := Remark(base.Plus(Tally(log)), Lookup(log, day), status);
      && c == base.Plus(Tally(log[day := status]))
      && 0 <= c.attended <= c.total
  {
    var before, after := Tally(log), Tally(log[day := status]);
    RemarkKeepsTally(log, day, status);
    TallyBounds(log[day := status]);
    RemarkShift(base, before, Lookup(log, day), status);
  }

  /** The counter update commutes with adding fixed counters. */
  lemma RemarkShift(base: Counters, c: Counters, previous: Option<Status>, status: Status)
    ensures Remark(base.Plus(c), previous, status) == base.Plus(Remark(c, previous, status))
  {
  }

  /**
   * One subject's counters and its attendance logs, one per day. The ghost
   * field `base` holds the counters the subject was created with, before any
   * log existed.
   */
  class Subject {
    var attended: int
    var total: int
    var log: map<Day, Status>
    ghost var base: Counters

    /**
     * The counters are the creation-time counters plus what the logged days
     * account for, and the creation-time counters are consistent.
     */
    ghost predicate Valid()
      reads this
    {
      && 0 <= base.attended <= base.total
      && Counts() == base.Plus(Tally(log))
    }

    function Counts(): (c: Counters)
      reads this
      ensures c.attended == attended && c.total == total
    {
      Counters(attended, total)
    }

    /**
     * A subject created with the given counters and no logs (the schema's
     * defaults are 0 and 0). The counters are stored unchecked; the subject
     * is consistent exactly when 0 <= attended <= total.
     */
    constructor Create(attended0: int, total0: int)
      ensures attended == attended0 && total == total0 && log == map[]
      ensures Valid() <==> 0 <= attended0 <= total0
    {
      attended, total := attended0, total0;
      log := map[];
      base := Counters(attended0, total0);
      new;
      TallyEmpty();
    }

    /** Marks `day` with `status`, reverting the day's earlier status first. */
    method Mark(day: Day, status: Status)
      modifies this
      ensures log == old(log)[day := status]
      ensures Counts() == Remark(old(Counts()), Lookup(old(log), day), status)
      ensures day !in old(log) ==> |log| == |old(log)| + 1
      ensures Lookup(old(log), day) == Some(status) ==> log == old(log) && Counts() == old(Counts())
      ensures base == old(base)
      ensures old(Valid()) ==> Valid() && 0 <= attended <= total
    {
      ghost var wasValid := Valid();
      if wasValid {
        RemarkKeepsLedger(base, log, day, status);
      }
      if day in log {
        var oldStatus := log[day];
        if oldStatus != status {
          // revert the old status
          if oldStatus != Cancelled {
            total := total - 1;
            if oldStatus == Present {
              attended := attended - 1;
            }
          }
          // apply the new one
          if status != Cancelled {
            total := total + 1;
            if status == Present {
              attended := attended + 1;
            }
          }
          log := log[day := status];
        } else {
          UpdateSameIsIdentity(log, day, status);
        }
      } else {
        log := log[day := status];
        if status != Cancelled {
          total := total + 1;
          if status == Present {
            attended := attended + 1;
          }
        }
      }
    }
  }

  /**
   * A subject created at (12, 15), marked Present for a day and then
   * re-marked Cancelled for the same day, is back at (12, 15) and consistent.
   */
  method PresentThenCancelledScenario() returns (c: Counters)
    ensures c == Counters(12, 15)
  {
    var subject := new Subject.Create(12, 15);
    subject.Mark(1, Present);
    assert subject.Counts() == Counters(13, 16);
    subject.Mark(1, Cancelled);
    assert subject.Valid();
    c := subject.Counts();
  }

  /** The target percentage of a user: minAttendance, or 75 when it is unset or 0. */
  function TargetPercent(minAttendance: Option<int>): (m: int)
    ensures minAttendance.Some? && minAttendance.value != 0 ==> m == minAttendance.value
    ensures minAttendance.None? || minAttendance.value == 0 ==> m == 75
  {
    match minAttendance
    case Some(p) => if p != 0 then p else 75
    case None => 75
  }

  /**
   * markAttendance for one subject and day: applies the transition, then
   * evaluates the safe-bunk verdict on the updated counters.
   */
  method MarkAttendance(subject: Subject, day: Day, status: Status, minAttendance: Option<int>)
    returns (verdict: Verdict)
    requires subject.Valid()
    requires ValidTarget(TargetPercent(minAttendance))
    modifies subject
    ensures subject.log == old(subject.log)[day := status]
    ensures subject.Counts() == Remark(old(subject.Counts()), Lookup(old(subject.log), day), status)
    ensures subject.Valid() && 0 <= subject.attended <= subject.total
    ensures verdict == SafeBunkStatus(subject.attended, subject.total, TargetPercent(minAttendance))
  {
    subject.Mark(day, status);
    var target := TargetPercent(minAttendance);
    verdict := SafeBunkStatus(subject.attended, subject.total, target);
  }
}
