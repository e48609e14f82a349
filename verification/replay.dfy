/**
 The SM-2-style replay of one card's review logs (`replay` in
 website/src/algorithms/default.ts). Ease is a fixed-point number in
 hundredths, so 2.5 is 250 and the 0.05 steps are exact.
 */
module Sm2 {
  import opened Wrappers
  import opened Types
  import Seqs

  const InitialEase := 250
  const MinEase := 130
  const MaxEase := 350
  const DayMs := 24 * 60 * 60 * 1000
  const AgainDelayMs := 10 * 60 * 1000

  function Max(a: int, b: int): int { if a >= b then a else b }
  function Min(a: int, b: int): int { if a <= b then a else b }

  /** `Math.ceil(a / b)` for a non-negative numerator: the least `q` with `q * b >= a`. */
  function CeilDiv(a: nat, b: nat): (q: nat)
    requires b > 0
    ensures q * b >= a
    ensures q == 0 || (q - 1) * b < a
  {
    var q := (a + b - 1) / b;
    assert a + b - 1 == q * b + (a + b - 1) % b;
    q
  }

  /** The state a replay must keep: ease within its clamp, a non-negative
      interval and a due time (the replay always sets one). */
  ghost predicate Valid(a: CardAggregate) {
    MinEase <= a.ease <= MaxEase && a.intervalDays >= 0 && a.due.Some?
  }

  /** The aggregate before any log: no reviews, ease 2.5, interval 0, due now. */
  function Initial(cardId: string, now: int): (a: CardAggregate)
    ensures Valid(a)
  {
    CardAggregate(cardId, None, 0, InitialEase, 0, Some(now))
  }

  /** One iteration of the replay loop: every log counts as a review and moves
      `lastReviewed`; the grade then updates ease, interval and due, except
      `view`, which matches no case of the switch. */
  function Step(agg: CardAggregate, log: ReviewLog): (r: CardAggregate)
    requires Valid(agg)
    ensures Valid(r)
    ensures r.cardId == agg.cardId
    ensures r.reviews == agg.reviews + 1 && r.lastReviewed == Some(log.ts)
    ensures log.grade == View ==> r.ease == agg.ease && r.intervalDays == agg.intervalDays && r.due == agg.due
    ensures log.grade == Again ==> r.intervalDays == 0 && r.due == Some(log.ts + AgainDelayMs)
    ensures log.grade in {Hard, Good, Easy} ==>
      && r.intervalDays >= 1
      && r.intervalDays >= agg.intervalDays
      && r.due == Some(log.ts + r.intervalDays * DayMs)
    ensures log.grade in {Again, Hard} ==> r.ease <= agg.ease
    ensures log.grade == Easy ==> r.ease >= agg.ease
    ensures log.grade == Good ==> r.ease == agg.ease
    ensures log.grade == Hard ==> 5 * r.intervalDays >= 6 * agg.intervalDays && (r.intervalDays == 1 || 5 * (r.intervalDays - 1) < 6 * agg.intervalDays)
    ensures log.grade == Good && agg.intervalDays > 0 ==> 100 * r.intervalDays >= agg.intervalDays * agg.ease > 100 * (r.intervalDays - 1)
    ensures log.grade == Again ==> r.ease == Max(MinEase, agg.ease - 20)
    ensures log.grade == Hard ==> r.ease == Max(MinEase, agg.ease - 5)
    ensures log.grade == Easy ==> r.ease == Min(MaxEase, agg.ease + 5)
    ensures log.grade == Easy && agg.intervalDays > 0 ==>
      100 * r.intervalDays >= agg.intervalDays * (r.ease + 15) > 100 * (r.intervalDays - 1)
    ensures agg.intervalDays == 0 ==>
      (log.grade == Good ==> r.intervalDays == 1) && (log.grade == Easy ==> r.intervalDays == 3)
  {
    var a := agg.(reviews := agg.reviews + 1, lastReviewed := Some(log.ts));
    var i := agg.intervalDays;
    match log.grade
    case Again =>
      a.(ease := Max(MinEase, a.ease - 20), intervalDays := 0, due := Some(log.ts + AgainDelayMs))
    case Hard =>
      var next := Max(1, CeilDiv(6 * i, 5));
      a.(ease := Max(MinEase, a.ease - 5), intervalDays := next, due := Some(log.ts + next * DayMs))
    case Good =>
      var base := if i == 0 then 1 else GrowBy(i, a.ease);
      var next := Max(1, base);
      a.(intervalDays := next, due := Some(log.ts + next * DayMs))
    case Easy =>
      var e := Min(MaxEase, a.ease + 5);
      var growth := if i == 0 then 3 else GrowBy(i, e + 15);
      var next := Max(1, growth);
      a.(ease := e, intervalDays := next, due := Some(log.ts + next * DayMs))
    case View =>
      a
  }

  /** `Math.ceil(i * f)` for a factor `f` given in hundredths; a factor of at
      least 1.0 never shrinks the interval. */
  function GrowBy(i: nat, f: nat): (r: nat)
    requires f >= 100
    ensures r >= i
    ensures 100 * r >= i * f && (r == 0 || 100 * (r - 1) < i * f)
  {
    assert i * f >= i * 100;
    CeilDiv(i * f, 100)
  }

  /** `replay(cardId, logs, now)`: the logs are applied in the order given
      (nothing sorts them here), starting from the initial aggregate. */
  function Replay(cardId: string, logs: seq<ReviewLog>, now: int): (r: CardAggregate)
    ensures Valid(r)
    ensures r.cardId == cardId
    ensures r.reviews == |logs|
    ensures r.lastReviewed == if |logs| == 0 then None else Some(logs[|logs| - 1].ts)
  {
    if |logs| == 0 then Initial(cardId, now)
    else Step(Replay(cardId, logs[..|logs| - 1], now), logs[|logs| - 1])
  }

  /** With no logs the replay yields the defaults: 0 reviews, ease 2.5, interval 0, due now. */
  lemma ReplayEmpty(cardId: string, now: int)
    ensures Replay(cardId, [], now) == CardAggregate(cardId, None, 0, 250, 0, Some(now))
  {
  }

  predicate IsScored(l: ReviewLog) { l.grade != View }

  /** The logs that carry a grade, in order. */
  function Scored(logs: seq<ReviewLog>): seq<ReviewLog> {
    Seqs.Filter(logs, IsScored)
  }

  /** The scheduling part of an aggregate: what `view` logs must not touch. */
  function Schedule(a: CardAggregate): (int, int, Option<int>) {
    (a.ease, a.intervalDays, a.due)
  }

  /** One more log at the end is one more step of the fold. */
  lemma ReplaySnoc(cardId: string, logs: seq<ReviewLog>, l: ReviewLog, now: int)
    ensures Replay(cardId, logs + [l], now) == Step(Replay(cardId, logs, now), l)
  {
    assert (logs + [l])[..|logs|] == logs;
  }

  /** The schedule after a step depends only on the schedule before it. */
  lemma StepSchedule(a: CardAggregate, b: CardAggregate, l: ReviewLog)
    requires Valid(a) && Valid(b) && Schedule(a) == Schedule(b)
    ensures Schedule(Step(a, l)) == Schedule(Step(b, l))
  {
  }

  /** View neutrality: dropping every `view` log leaves ease, interval and due
      exactly as they were; only `reviews` and `lastReviewed` see views. */
  lemma {:induction false} ViewNeutral(cardId: string, logs: seq<ReviewLog>, now: int)
    ensures Schedule(Replay(cardId, logs, now)) == Schedule(Replay(cardId, Scored(logs), now))
  {
    if |logs| > 0 {
      var n := |logs| - 1;
      var init, last := logs[..n], logs[n];
      assert logs == init + [last];
      ViewNeutral(cardId, init, now);
      ReplaySnoc(cardId, init, last, now);
      Seqs.FilterConcat(init, [last], IsScored);
      Seqs.FilterCons(last, [], IsScored);
      var a := Replay(cardId, init, now);
      var b := Replay(cardId, Scored(init), now);
      if IsScored(last) {
        assert Scored(logs) == Scored(init) + [last];
        ReplaySnoc(cardId, Scored(init), last, now);
        StepSchedule(a, b, last);
      } else {
        assert Scored(logs) == Scored(init);
      }
    }
  }

  /** A card whose logs are all `view` keeps ease 2.5, interval 0 and due = now,
      and still counts every view as a review. */
  lemma ViewOnlyReplay(cardId: string, logs: seq<ReviewLog>, now: int)
    requires forall i :: 0 <= i < |logs| ==> logs[i].grade == View
    ensures Replay(cardId, logs, now).due == Some(now)
    ensures Replay(cardId, logs, now).ease == InitialEase && Replay(cardId, logs, now).intervalDays == 0
    ensures Replay(cardId, logs, now).reviews == |logs|
  {
    ViewNeutral(cardId, logs, now);
    assert Scored(logs) == [] by {
      if |Scored(logs)| > 0 {
        Seqs.FilterMembers(logs, IsScored, Scored(logs)[0]);
      }
    }
  }

  /** One `good` on a fresh card: interval 1 day, due one day later, ease unchanged. */
  lemma ScenarioSingleGood(id: string, t: int, d: Option<int>, now: int)
    ensures var a := Replay(id, [ReviewLog(id, t, Good, d)], now);
      a.intervalDays == 1 && a.due == Some(t + 86_400_000) && a.ease == 250 && a.reviews == 1
  {
  }

  /** Two `good`s a day apart: the second interval is ceil(1 * 2.5) = 3 days. */
  lemma ScenarioTwoGoods(t: int)
    ensures var logs := [ReviewLog("c", t, Good, None), ReviewLog("c", t + DayMs, Good, None)];
      var a := Replay("c", logs, t);
      a.intervalDays == 3 && a.due == Some(t + DayMs + 3 * DayMs)
  {
    var l1, l2 := ReviewLog("c", t, Good, None), ReviewLog("c", t + DayMs, Good, None);
    assert [l1, l2] == [l1] + [l2] && [l1] == [] + [l1];
    ReplaySnoc("c", [], l1, t);
    ReplaySnoc("c", [l1], l2, t);
  }

  /** The replay depends on the order of the logs it is given: the same two
      logs in the other order leave a different interval. */
  lemma ReplayOrderMatters(t: int)
    ensures var l1 := ReviewLog("c", t, Again, None);
      var l2 := ReviewLog("c", t + 1, Good, None);
      Replay("c", [l1, l2], t).intervalDays != Replay("c", [l2, l1], t).intervalDays
  {
    var l1 := ReviewLog("c", t, Again, None);
    var l2 := ReviewLog("c", t + 1, Good, None);
    assert [l1, l2] == [l1] + [l2] && [l1] == [] + [l1];
    assert [l2, l1] == [l2] + [l1] && [l2] == [] + [l2];
    ReplaySnoc("c", [], l1, t);
    ReplaySnoc("c", [l1], l2, t);
    ReplaySnoc("c", [], l2, t);
    ReplaySnoc("c", [l2], l1, t);
  }
}
