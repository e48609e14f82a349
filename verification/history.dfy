/**
 The generic helpers next to the history store (website/src/lib/db/history.ts):
 the per-grade ease delta table and the aggregate builder, which only counts
 graded reviews and remembers the last review time; it projects no interval
 and no due time.
 */
module History {
  import opened Wrappers
  import opened Types
  import opened Seqs
  import Sm2
  import DefaultAlgorithm

  /** `gradeToDelta`, in hundredths: again −0.3, hard −0.05, good 0, easy 0.15, view 0. */
  function GradeToDelta(g: Grade): (d: int)
    ensures d < 0 <==> g == Again || g == Hard
    ensures d > 0 <==> g == Easy
    ensures -30 <= d <= 15
  {
    match g
    case Again => -30
    case Hard => -5
    case Good => 0
    case Easy => 15
    case View => 0
  }

  /** The order of the four answer grades, worst first. */
  function Rank(g: Grade): int {
    match g
    case Again => 0
    case Hard => 1
    case Good => 2
    case Easy => 3
    case View => 2
  }

  /** A better answer never earns a smaller delta, and strictly better earns strictly more. */
  lemma DeltaFollowsRank(a: Grade, b: Grade)
    requires a != View && b != View
    ensures Rank(a) < Rank(b) <==> GradeToDelta(a) < GradeToDelta(b)
  {
  }

  predicate IsView(l: ReviewLog) { l.grade == View }

  /** What the builder holds for a card with logs `logs` (at least one):
      its id, the ts of its last log, the number of non-view logs, ease 2.5,
      interval 0 and no due time. */
  function Summary(id: string, logs: seq<ReviewLog>): CardAggregate
    requires |logs| > 0
  {
    CardAggregate(id, Some(logs[|logs| - 1].ts), |Sm2.Scored(logs)|, Sm2.InitialEase, 0, None)
  }

  /** The entry a card gets the first time one of its logs is met. */
  function Fresh(id: string): CardAggregate {
    CardAggregate(id, None, 0, Sm2.InitialEase, 0, None)
  }

  /** `buildAggregates(history)`: one pass over the logs in array order. The
      keys are exactly the cards with at least one log (of any grade), and each
      entry is that card's `Summary`. */
  function BuildAggregates(history: seq<ReviewLog>): (m: map<string, CardAggregate>)
    ensures forall id :: id in m <==> |DefaultAlgorithm.LogsOf(history, id)| > 0
    ensures forall id :: id in m ==> m[id] == Summary(id, DefaultAlgorithm.LogsOf(history, id))
  {
    if |history| == 0 then map[]
    else
      var n := |history| - 1;
      var m := BuildAggregates(history[..n]);
      BuildStep(history, m);
      Record(m, history[n])
  }

  /** One iteration of the loop: the card's entry is created if missing,
      counts the log unless it is a view, and remembers its time. */
  function Record(m: map<string, CardAggregate>, h: ReviewLog): (r: map<string, CardAggregate>)
    ensures h.cardId in r && r[h.cardId].cardId == (if h.cardId in m then m[h.cardId].cardId else h.cardId)
    ensures r[h.cardId].lastReviewed == Some(h.ts)
    ensures r[h.cardId].reviews == (if h.cardId in m then m[h.cardId].reviews else 0) + (if h.grade == View then 0 else 1)
    ensures forall id :: id != h.cardId ==> (id in r <==> id in m) && (id in m ==> r[id] == m[id])
  {
    var agg := if h.cardId in m then m[h.cardId] else Fresh(h.cardId);
    m[h.cardId := agg.(reviews := agg.reviews + (if h.grade != View then 1 else 0), lastReviewed := Some(h.ts))]
  }

  /** The inductive step of `BuildAggregates`: adding the last log to the map
      built from the others gives every card its `Summary` again. */
  lemma BuildStep(history: seq<ReviewLog>, m: map<string, CardAggregate>)
    requires |history| > 0
    requires var n := |history| - 1;
      && (forall id :: id in m <==> |DefaultAlgorithm.LogsOf(history[..n], id)| > 0)
      && (forall id :: id in m ==> m[id] == Summary(id, DefaultAlgorithm.LogsOf(history[..n], id)))
    ensures var r := Record(m, history[|history| - 1]);
      forall id :: id in r <==> |DefaultAlgorithm.LogsOf(history, id)| > 0
    ensures var r := Record(m, history[|history| - 1]);
      forall id :: id in r ==> r[id] == Summary(id, DefaultAlgorithm.LogsOf(history, id))
  {
    forall id ensures var r := Record(m, history[|history| - 1]);
      (id in r <==> |DefaultAlgorithm.LogsOf(history, id)| > 0)
      && (id in r ==> r[id] == Summary(id, DefaultAlgorithm.LogsOf(history, id)))
    {
      BuildStepAt(history, m, id);
    }
  }

  /** `BuildStep` for one card: the logged card changes, every other card
      keeps its entry. */
  lemma BuildStepAt(history: seq<ReviewLog>, m: map<string, CardAggregate>, id: string)
    requires |history| > 0
    requires var pre := history[..|history| - 1];
      && (id in m <==> |DefaultAlgorithm.LogsOf(pre, id)| > 0)
      && (id in m ==> m[id] == Summary(id, DefaultAlgorithm.LogsOf(pre, id)))
    ensures var r := Record(m, history[|history| - 1]);
      (id in r <==> |DefaultAlgorithm.LogsOf(history, id)| > 0)
      && (id in r ==> r[id] == Summary(id, DefaultAlgorithm.LogsOf(history, id)))
  {
    var pre := history[..|history| - 1];
    var h := history[|history| - 1];
    assert history == pre + [h];
    var before := DefaultAlgorithm.LogsOf(pre, id);
    DefaultAlgorithm.LogsOfSnocAt(pre, h, id);
    if id == h.cardId {
      ScoredSnoc(before, h);
      var after := before + [h];
      assert after[|after| - 1] == h;
      if id !in m {
        assert before == [];
      }
    } else {
      assert DefaultAlgorithm.LogsOf(history, id) == before;
    }
  }

  /** One more log adds one to the graded count unless it is a view. */
  lemma ScoredSnoc(logs: seq<ReviewLog>, h: ReviewLog)
    ensures |Sm2.Scored(logs + [h])| == |Sm2.Scored(logs)| + (if h.grade != View then 1 else 0)
  {
    FilterConcat(logs, [h], Sm2.IsScored);
    FilterCons(h, [], Sm2.IsScored);
  }

  /** The builder and the replay agree on `lastReviewed`, and the replay's
      review count is the builder's plus the card's `view` logs. */
  lemma BuildAgreesWithReplay(history: seq<ReviewLog>, id: string, now: int)
    requires id in BuildAggregates(history)
    ensures var logs := DefaultAlgorithm.LogsOf(history, id);
      var replayed := Sm2.Replay(id, logs, now);
      var built := BuildAggregates(history)[id];
      && replayed.lastReviewed == built.lastReviewed
      && replayed.reviews == built.reviews + |Filter(logs, IsView)|
  {
    var logs := DefaultAlgorithm.LogsOf(history, id);
    FilterPartition(logs, Sm2.IsScored, IsView);
    assert |multiset(Sm2.Scored(logs))| + |multiset(Filter(logs, IsView))| == |multiset(logs)|;
  }

  /** Views alone put a card in the map, with no reviews counted. */
  lemma ViewsOnlyCountNothing(history: seq<ReviewLog>, id: string)
    requires forall i :: 0 <= i < |history| ==> history[i].grade == View
    requires exists i :: 0 <= i < |history| && history[i].cardId == id
    ensures id in BuildAggregates(history) && BuildAggregates(history)[id].reviews == 0
  {
    var i :| 0 <= i < |history| && history[i].cardId == id;
    var logs := DefaultAlgorithm.LogsOf(history, id);
    FilterMembers(history, DefaultAlgorithm.ForCard(id), history[i]);
    forall l | l in logs ensures !Sm2.IsScored(l) {
      FilterMembers(history, DefaultAlgorithm.ForCard(id), l);
    }
    FilterNone(logs, Sm2.IsScored);
  }
}
