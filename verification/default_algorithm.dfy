/**
 The default scheduler (website/src/algorithms/default.ts): groups the
 history by card, replays every card, and lists the catalog as
 due ++ new ++ upcoming, cut to the requested count.
 */
module DefaultAlgorithm {
  import opened Wrappers
  import opened Types
  import opened Seqs
  import opened Sm2

  /** The predicate "is a log of card `id`". */
  function ForCard(id: string): ReviewLog -> bool {
    (h: ReviewLog) => h.cardId == id
  }

  /** Every log of card `id`, in history order. */
  function LogsOf(history: seq<ReviewLog>, id: string): seq<ReviewLog> {
    Filter(history, ForCard(id))
  }

  /** `byId[id] || []`. */
  function Lookup(byId: map<string, seq<ReviewLog>>, id: string): seq<ReviewLog> {
    if id in byId then byId[id] else []
  }

  /** Appending one log extends exactly its own card's list. */
  lemma LogsOfSnoc(history: seq<ReviewLog>, h: ReviewLog)
    ensures forall id :: LogsOf(history + [h], id) == LogsOf(history, id) + (if h.cardId == id then [h] else [])
  {
    forall id ensures LogsOf(history + [h], id) == LogsOf(history, id) + (if h.cardId == id then [h] else []) {
      LogsOfSnocAt(history, h, id);
    }
  }

  /** `LogsOfSnoc` for one card. */
  lemma LogsOfSnocAt(history: seq<ReviewLog>, h: ReviewLog, id: string)
    ensures LogsOf(history + [h], id) == LogsOf(history, id) + (if h.cardId == id then [h] else [])
  {
    FilterConcat(history, [h], ForCard(id));
    FilterCons(h, [], ForCard(id));
  }

  /** The grouping loop `(byId[h.cardId] ||= []).push(h)`: the keys are the
      cards that have logs and each list holds that card's logs in order. */
  function GroupByCard(history: seq<ReviewLog>): (byId: map<string, seq<ReviewLog>>)
    ensures forall id :: Lookup(byId, id) == LogsOf(history, id)
    ensures forall id :: id in byId <==> |LogsOf(history, id)| > 0
  {
    if |history| == 0 then map[]
    else
      var n := |history| - 1;
      var m := GroupByCard(history[..n]);
      var h := history[n];
      var r := m[h.cardId := Lookup(m, h.cardId) + [h]];
      GroupStep(history, m, r);
      r
  }

  /** The inductive step of `GroupByCard`: pushing the last log onto its
      card's list keeps every list equal to that card's logs. */
  lemma GroupStep(history: seq<ReviewLog>, m: map<string, seq<ReviewLog>>, r: map<string, seq<ReviewLog>>)
    requires |history| > 0
    requires forall id :: Lookup(m, id) == LogsOf(history[..|history| - 1], id)
    requires forall id :: id in m <==> |LogsOf(history[..|history| - 1], id)| > 0
    requires var h := history[|history| - 1]; r == m[h.cardId := Lookup(m, h.cardId) + [h]]
    ensures forall id :: Lookup(r, id) == LogsOf(history, id)
    ensures forall id :: id in r <==> |LogsOf(history, id)| > 0
  {
    var n := |history| - 1;
    var h := history[n];
    assert history == history[..n] + [h];
    LogsOfSnoc(history[..n], h);
    forall id ensures Lookup(r, id) == LogsOf(history, id) && (id in r <==> |LogsOf(history, id)| > 0) {
      if id != h.cardId {
        assert Lookup(r, id) == Lookup(m, id);
      }
    }
  }

  /** The ids of the catalog, as a set. */
  function CatalogIds(cards: seq<Card>): set<string> {
    set c | c in cards :: c.id
  }

  /** The aggregate loop: every catalog card replayed from its own logs. */
  function AggregatesOf(cards: seq<Card>, byId: map<string, seq<ReviewLog>>, now: int): map<string, CardAggregate> {
    map id | id in CatalogIds(cards) :: Replay(id, Lookup(byId, id), now)
  }

  /** `byDue`: negative, zero or positive as `a` is due before, with, or after `b`,
      a missing due reading as 0. */
  function ByDue(a: CardAggregate, b: CardAggregate): (r: int)
    ensures r < 0 <==> a.due.GetOr(0) < b.due.GetOr(0)
    ensures r == 0 <==> a.due.GetOr(0) == b.due.GetOr(0)
  {
    a.due.GetOr(0) - b.due.GetOr(0)
  }

  /** `byDue` is antisymmetric, as `Array.prototype.sort` expects of a comparator. */
  lemma ByDueAntisymmetric(a: CardAggregate, b: CardAggregate)
    ensures ByDue(a, b) == -ByDue(b, a)
  {
  }

  /** Sorting by `DueKey` is sorting with `byDue`: for two catalog cards the
      comparator is the difference of their keys. */
  lemma ByDueIsDueKey(aggs: map<string, CardAggregate>, a: Card, b: Card)
    requires a.id in aggs && b.id in aggs
    ensures ByDue(aggs[a.id], aggs[b.id]) == DueKey(aggs)(a) - DueKey(aggs)(b)
    ensures ByDue(aggs[a.id], aggs[b.id]) < 0 <==> DueKey(aggs)(a) < DueKey(aggs)(b)
  {
  }

  /** The sort key `byDue` orders cards by. */
  function DueKey(aggs: map<string, CardAggregate>): Card -> int {
    (c: Card) => if c.id in aggs then aggs[c.id].due.GetOr(0) else 0
  }

  /** `(aggregates[c.id].due ?? now) <= now`. */
  function DueNow(aggs: map<string, CardAggregate>, now: int): Card -> bool {
    (c: Card) => (if c.id in aggs then aggs[c.id].due.GetOr(now) else now) <= now
  }

  /** `(aggregates[c.id].due ?? now) > now`. */
  function DueLater(aggs: map<string, CardAggregate>, now: int): Card -> bool {
    (c: Card) => (if c.id in aggs then aggs[c.id].due.GetOr(now) else now) > now
  }

  /** The card has at least one log of any grade. */
  function Seen(byId: map<string, seq<ReviewLog>>): Card -> bool {
    (c: Card) => |Lookup(byId, c.id)| > 0
  }

  /** The card has no log at all. */
  function Unseen(byId: map<string, seq<ReviewLog>>): Card -> bool {
    (c: Card) => |Lookup(byId, c.id)| == 0
  }

  /** The three groups `pickNext` draws from, in priority order. */
  datatype Buckets = Buckets(due: seq<Card>, newCards: seq<Card>, upcoming: seq<Card>)

  function ByIdOf(ctx: SchedulerContext): map<string, seq<ReviewLog>> {
    GroupByCard(ctx.history)
  }

  function AggregatesFor(ctx: SchedulerContext): map<string, CardAggregate> {
    AggregatesOf(ctx.cards, ByIdOf(ctx), ctx.now)
  }

  /** The seen cards of the catalog, in catalog order. */
  function SeenCards(ctx: SchedulerContext): seq<Card> {
    Filter(ctx.cards, Seen(ByIdOf(ctx)))
  }

  /** Bucketing: seen cards are stable-sorted by due and split at `now`;
      cards without logs keep their catalog order. */
  function BucketsOf(ctx: SchedulerContext): (b: Buckets)
    ensures SortedBy(b.due, DueKey(AggregatesFor(ctx)))
    ensures SortedBy(b.upcoming, DueKey(AggregatesFor(ctx)))
  {
    var aggs := AggregatesFor(ctx);
    var sorted := SortBy(SeenCards(ctx), DueKey(aggs));
    SortBySorted(SeenCards(ctx), DueKey(aggs));
    FilterSorted(sorted, DueKey(aggs), DueNow(aggs, ctx.now));
    FilterSorted(sorted, DueKey(aggs), DueLater(aggs, ctx.now));
    Buckets(
      Filter(sorted, DueNow(aggs, ctx.now)),
      Filter(ctx.cards, Unseen(ByIdOf(ctx))),
      Filter(sorted, DueLater(aggs, ctx.now)))
  }

  /** The buckets in priority order. */
  function Ordered(b: Buckets): seq<Card> {
    b.due + b.newCards + b.upcoming
  }

  /** Every catalog card lands in exactly one bucket: together the buckets are
      a permutation of the catalog. */
  lemma {:induction false} BucketsPartition(ctx: SchedulerContext)
    ensures multiset(Ordered(BucketsOf(ctx))) == multiset(ctx.cards)
  {
    var b := BucketsOf(ctx);
    var aggs := AggregatesFor(ctx);
    var sorted := SortBy(SeenCards(ctx), DueKey(aggs));
    FilterPartition(sorted, DueNow(aggs, ctx.now), DueLater(aggs, ctx.now));
    FilterPartition(ctx.cards, Seen(ByIdOf(ctx)), Unseen(ByIdOf(ctx)));
  }

  /** `pickNext`: the first `count` ids of due ++ new ++ upcoming. Its length is
      the requested count capped by the catalog size, every id is a catalog
      id, and ids do not repeat when catalog ids do not. */
  function PickNext(count: int, ctx: SchedulerContext): (ids: seq<string>)
    ensures |ids| == if count <= 0 then 0 else if count < |ctx.cards| then count else |ctx.cards|
    ensures forall i :: 0 <= i < |ids| ==> ids[i] in Ids(ctx.cards)
    ensures NoDup(Ids(ctx.cards)) ==> NoDup(ids)
  {
    var all := Ordered(BucketsOf(ctx));
    var ids := Take(Ids(all), count);
    BucketsPartition(ctx);
    PickedFromCatalog(all, ctx.cards, count);
    ids
  }

  /** A prefix of the ids of a permutation of the catalog draws each id at most
      as often as the catalog holds it. */
  lemma PickedFromCatalog(all: seq<Card>, cards: seq<Card>, count: int)
    requires multiset(all) == multiset(cards)
    ensures |all| == |cards|
    ensures forall i :: 0 <= i < |Take(Ids(all), count)| ==> Take(Ids(all), count)[i] in Ids(cards)
    ensures NoDup(Ids(cards)) ==> NoDup(Take(Ids(all), count))
  {
    assert |all| == |multiset(all)| == |multiset(cards)| == |cards|;
    var t := Take(Ids(all), count);
    assert forall i :: 0 <= i < |t| ==> t[i] == Ids(all)[i];
    MapPermutationMembers(all, cards, CardId);
    if NoDup(Ids(cards)) {
      MapPermutationDistinct(all, cards, CardId);
    }
  }

  /** The due time a card's own logs give it, independent of the maps built on the way. */
  ghost function ReplayedDue(ctx: SchedulerContext, c: Card): int {
    Replay(c.id, LogsOf(ctx.history, c.id), ctx.now).due.GetOr(ctx.now)
  }

  /** For a catalog card the internal maps agree with replaying its own logs. */
  lemma AggregateOfCatalogCard(ctx: SchedulerContext, c: Card)
    requires c in ctx.cards
    ensures c.id in AggregatesFor(ctx)
    ensures AggregatesFor(ctx)[c.id] == Replay(c.id, LogsOf(ctx.history, c.id), ctx.now)
    ensures DueKey(AggregatesFor(ctx))(c) == ReplayedDue(ctx, c)
    ensures Seen(ByIdOf(ctx))(c) <==> |LogsOf(ctx.history, c.id)| > 0
  {
    assert c.id in CatalogIds(ctx.cards);
  }

  /** Bucket membership, stated from the catalog and the history alone:
      due holds the seen cards due by now, new the cards with no log at all,
      upcoming the seen cards due later. A card with logs counts as seen even
      when all of them are views. */
  lemma BucketMembers(ctx: SchedulerContext, c: Card)
    ensures c in BucketsOf(ctx).due <==>
      c in ctx.cards && |LogsOf(ctx.history, c.id)| > 0 && ReplayedDue(ctx, c) <= ctx.now
    ensures c in BucketsOf(ctx).newCards <==> c in ctx.cards && |LogsOf(ctx.history, c.id)| == 0
    ensures c in BucketsOf(ctx).upcoming <==>
      c in ctx.cards && |LogsOf(ctx.history, c.id)| > 0 && ReplayedDue(ctx, c) > ctx.now
  {
    var aggs := AggregatesFor(ctx);
    var seen := SeenCards(ctx);
    var sorted := SortBy(seen, DueKey(aggs));
    FilterMembers(sorted, DueNow(aggs, ctx.now), c);
    FilterMembers(sorted, DueLater(aggs, ctx.now), c);
    FilterMembers(ctx.cards, Unseen(ByIdOf(ctx)), c);
    FilterMembers(ctx.cards, Seen(ByIdOf(ctx)), c);
    assert c in sorted <==> c in seen by {
      assert c in sorted <==> c in multiset(sorted);
      assert c in seen <==> c in multiset(seen);
    }
    if c in ctx.cards {
      AggregateOfCatalogCard(ctx, c);
    }
  }

  /** The due and upcoming buckets are the stable sort of the seen cards on
      their side of `now`; cards with equal due keep their catalog order. */
  lemma BucketsShape(ctx: SchedulerContext)
    ensures var aggs := AggregatesFor(ctx);
      BucketsOf(ctx).due == SortBy(Filter(SeenCards(ctx), DueNow(aggs, ctx.now)), DueKey(aggs))
    ensures var aggs := AggregatesFor(ctx);
      BucketsOf(ctx).upcoming == SortBy(Filter(SeenCards(ctx), DueLater(aggs, ctx.now)), DueKey(aggs))
    ensures var aggs := AggregatesFor(ctx);
      forall k :: Filter(BucketsOf(ctx).due, KeyIs(DueKey(aggs), k))
               == Filter(Filter(SeenCards(ctx), DueNow(aggs, ctx.now)), KeyIs(DueKey(aggs), k))
    ensures var aggs := AggregatesFor(ctx);
      forall k :: Filter(BucketsOf(ctx).upcoming, KeyIs(DueKey(aggs), k))
               == Filter(Filter(SeenCards(ctx), DueLater(aggs, ctx.now)), KeyIs(DueKey(aggs), k))
  {
    var aggs := AggregatesFor(ctx);
    var seen := SeenCards(ctx);
    FilterSortBy(seen, DueKey(aggs), DueNow(aggs, ctx.now));
    FilterSortBy(seen, DueKey(aggs), DueLater(aggs, ctx.now));
    forall k
      ensures Filter(SortBy(Filter(seen, DueNow(aggs, ctx.now)), DueKey(aggs)), KeyIs(DueKey(aggs), k))
           == Filter(Filter(seen, DueNow(aggs, ctx.now)), KeyIs(DueKey(aggs), k))
      ensures Filter(SortBy(Filter(seen, DueLater(aggs, ctx.now)), DueKey(aggs)), KeyIs(DueKey(aggs), k))
           == Filter(Filter(seen, DueLater(aggs, ctx.now)), KeyIs(DueKey(aggs), k))
    {
      SortByStable(Filter(seen, DueNow(aggs, ctx.now)), DueKey(aggs), k);
      SortByStable(Filter(seen, DueLater(aggs, ctx.now)), DueKey(aggs), k);
    }
  }

  /** Both dated buckets are ascending by the due time the card's logs give it. */
  lemma BucketsAscending(ctx: SchedulerContext)
    ensures var d := BucketsOf(ctx).due;
      forall i, j :: 0 <= i < j < |d| ==> ReplayedDue(ctx, d[i]) <= ReplayedDue(ctx, d[j])
    ensures var u := BucketsOf(ctx).upcoming;
      forall i, j :: 0 <= i < j < |u| ==> ReplayedDue(ctx, u[i]) <= ReplayedDue(ctx, u[j])
  {
    var b := BucketsOf(ctx);
    forall c | c in b.due || c in b.upcoming ensures c in ctx.cards {
      BucketMembers(ctx, c);
    }
    SortedByReplayedDue(ctx, b.due);
    SortedByReplayedDue(ctx, b.upcoming);
  }

  /** Among catalogue cards the sort key is the replayed due time, so a list
      sorted by the key is ascending by that time. */
  lemma SortedByReplayedDue(ctx: SchedulerContext, s: seq<Card>)
    requires SortedBy(s, DueKey(AggregatesFor(ctx)))
    requires forall c :: c in s ==> c in ctx.cards
    ensures forall i, j :: 0 <= i < j < |s| ==> ReplayedDue(ctx, s[i]) <= ReplayedDue(ctx, s[j])
  {
    forall i | 0 <= i < |s| ensures DueKey(AggregatesFor(ctx))(s[i]) == ReplayedDue(ctx, s[i]) {
      AggregateOfCatalogCard(ctx, s[i]);
    }
  }

  /** A card whose logs are all views is seen, has due = now and so sits in the
      due bucket. */
  lemma ViewOnlyCardIsDue(ctx: SchedulerContext, c: Card)
    requires c in ctx.cards
    requires |LogsOf(ctx.history, c.id)| > 0
    requires forall i :: 0 <= i < |LogsOf(ctx.history, c.id)| ==> LogsOf(ctx.history, c.id)[i].grade == View
    ensures c in BucketsOf(ctx).due
  {
    var logs := LogsOf(ctx.history, c.id);
    ViewOnlyReplay(c.id, logs, ctx.now);
    assert ReplayedDue(ctx, c) == ctx.now;
    BucketMembers(ctx, c);
  }

  /** `pickNext` never reads the aggregates passed in the context. */
  lemma PickNextIgnoresAggregates(count: int, ctx: SchedulerContext, other: map<string, CardAggregate>)
    ensures PickNext(count, ctx) == PickNext(count, ctx.(aggregates := other))
  {
  }

  /** The groups laid end to end. */
  function Concat(groups: seq<seq<Card>>): seq<Card> {
    if |groups| == 0 then [] else Concat(groups[..|groups| - 1]) + groups[|groups| - 1]
  }

  /** Once a prefix already yields `count` ids, anything after it is not taken. */
  lemma TakeSaturated(p: seq<Card>, q: seq<Card>, count: int)
    requires |Take(Ids(p), count)| >= count
    ensures Take(Ids(p + q), count) == Take(Ids(p), count)
  {
    MapConcat(p, q, CardId);
  }

  /** Taking through one more card extends the pick by that card's id while the count allows. */
  lemma TakeOneMore(p: seq<Card>, c: Card, count: int)
    requires |Take(Ids(p), count)| < count
    ensures Take(Ids(p + [c]), count) == Take(Ids(p), count) + [c.id]
  {
    MapConcat(p, [c], CardId);
  }

  /** The selection loop of `pickNext`: walks the groups in order, pushing ids
      and breaking out as soon as `count` ids are picked. */
  method PickFromGroups(count: int, groups: seq<seq<Card>>) returns (pick: seq<string>)
    ensures pick == Take(Ids(Concat(groups)), count)
  {
    pick := [];
    var g := 0;
    while g < |groups|
      invariant 0 <= g <= |groups|
      invariant pick == Take(Ids(Concat(groups[..g])), count)
    {
      var full;
      ConcatSnoc(groups, g);
      var p := Concat(groups[..g]) + groups[g];
      pick, full := PushGroup(count, Concat(groups[..g]), groups[g], pick);
      if full {
        ConcatPrefix(groups, g + 1);
        assert Concat(groups) == p + Concat(groups)[|p|..];
        TakeSaturated(p, Concat(groups)[|p|..], count);
        return;
      }
      g := g + 1;
    }
    assert groups[..g] == groups;
  }

  /** The inner loop over one group. `full` reports that `count` ids are
      picked, after which nothing further is taken. */
  method PushGroup(count: int, before: seq<Card>, group: seq<Card>, pick0: seq<string>) returns (pick: seq<string>, full: bool)
    requires pick0 == Take(Ids(before), count)
    ensures pick == Take(Ids(before + group), count)
    ensures full <==> |pick| >= count
  {
    pick := pick0;
    var j := 0;
    while j < |group|
      invariant 0 <= j <= |group|
      invariant pick == Take(Ids(before + group[..j]), count)
    {
      if |pick| >= count {
        assert before + group == (before + group[..j]) + group[j..];
        TakeSaturated(before + group[..j], group[j..], count);
        return pick, true;
      }
      assert before + group[..j + 1] == (before + group[..j]) + [group[j]];
      TakeOneMore(before + group[..j], group[j], count);
      pick := pick + [group[j].id];
      j := j + 1;
    }
    assert group[..j] == group;
    full := |pick| >= count;
  }

  lemma ConcatSnoc(groups: seq<seq<Card>>, g: nat)
    requires g < |groups|
    ensures Concat(groups[..g + 1]) == Concat(groups[..g]) + groups[g]
  {
    assert groups[..g + 1][..g] == groups[..g];
  }

  /** The concatenation of the first `n` groups is a prefix of the concatenation of all. */
  lemma {:induction false} ConcatPrefix(groups: seq<seq<Card>>, n: nat)
    requires n <= |groups|
    ensures Concat(groups[..n]) <= Concat(groups)
    decreases |groups| - n
  {
    if n < |groups| {
      ConcatPrefix(groups, n + 1);
      assert groups[..n + 1][..n] == groups[..n];
    } else {
      assert groups[..n] == groups;
    }
  }

  /** The loop over [due, new, upcoming] picks exactly what `pickNext` returns. */
  method PickNextByLoop(count: int, ctx: SchedulerContext) returns (pick: seq<string>)
    ensures pick == PickNext(count, ctx)
  {
    var b := BucketsOf(ctx);
    var groups := [b.due, b.newCards, b.upcoming];
    assert groups[..2][..1] == [b.due] && groups[..3] == groups;
    assert groups[..1][..0] == [];
    assert Concat(groups[..1]) == b.due;
    assert Concat(groups[..2]) == b.due + b.newCards;
    assert Concat(groups) == Ordered(b);
    pick := PickFromGroups(count, groups);
  }

  /** A card with only an id. */
  function BareCard(id: string): Card {
    Card(id, None, "", "", None, None, "", None)
  }

  /** Catalog [A, B, C] at time `t`: A was graded good a day and a millisecond
      ago, B never, C good a day minus a second ago. */
  function SampleContext(t: int): SchedulerContext {
    SchedulerContext(t, [BareCard("A"), BareCard("B"), BareCard("C")],
      [ReviewLog("A", t - 1 - DayMs, Good, None), ReviewLog("C", t + 1000 - DayMs, Good, None)], map[])
  }

  lemma SampleLogs(t: int)
    ensures var h := SampleContext(t).history;
      LogsOf(h, "A") == [h[0]] && LogsOf(h, "B") == [] && LogsOf(h, "C") == [h[1]]
  {
    var h := SampleContext(t).history;
    assert h == [h[0]] + [h[1]];
    forall id ensures LogsOf(h, id) == (if id == "A" then [h[0]] else []) + (if id == "C" then [h[1]] else []) {
      FilterCons(h[0], [h[1]], ForCard(id));
      FilterCons(h[1], [], ForCard(id));
    }
  }

  /** In the sample, A's aggregate is the replay of its single log. */
  lemma SampleDueA(t: int)
    ensures "A" in AggregatesFor(SampleContext(t)) && AggregatesFor(SampleContext(t))["A"].due == Some(t - 1)
  {
    var ctx := SampleContext(t);
    assert BareCard("A") == ctx.cards[0];
    AggregateOfCatalogCard(ctx, BareCard("A"));
    SampleLogs(t);
    ScenarioSingleGood("A", t - 1 - DayMs, None, t);
  }

  /** In the sample, C's aggregate is the replay of its single log. */
  lemma SampleDueC(t: int)
    ensures "C" in AggregatesFor(SampleContext(t)) && AggregatesFor(SampleContext(t))["C"].due == Some(t + 1000)
  {
    var ctx := SampleContext(t);
    assert BareCard("C") == ctx.cards[2];
    AggregateOfCatalogCard(ctx, BareCard("C"));
    SampleLogs(t);
    ScenarioSingleGood("C", t + 1000 - DayMs, None, t);
  }

  /** A and C have logs, B has none. */
  lemma SampleSeen(t: int)
    ensures SeenCards(SampleContext(t)) == [BareCard("A"), BareCard("C")]
    ensures Filter(SampleContext(t).cards, Unseen(ByIdOf(SampleContext(t)))) == [BareCard("B")]
  {
    var ctx := SampleContext(t);
    var a, b, c := BareCard("A"), BareCard("B"), BareCard("C");
    SampleLogs(t);
    var byId := ByIdOf(ctx);
    assert |Lookup(byId, "A")| == 1 && |Lookup(byId, "B")| == 0 && |Lookup(byId, "C")| == 1;
    FilterThree(a, b, c, Seen(byId));
    FilterThree(a, b, c, Unseen(byId));
  }

  /** Filtering three cards keeps those that pass, in order. */
  lemma FilterThree(a: Card, b: Card, c: Card, p: Card -> bool)
    ensures Filter([a, b, c], p) == (if p(a) then [a] else []) + (if p(b) then [b] else []) + (if p(c) then [c] else [])
  {
    assert [a, b, c] == [a] + [b, c] && [b, c] == [b] + [c] && [c] == [c] + [];
    FilterCons(a, [b, c], p);
    FilterCons(b, [c], p);
    FilterCons(c, [], p);
  }

  /** Two cards already in key order stay in that order. */
  lemma SortTwo(a: Card, c: Card, key: Card -> int)
    requires key(a) <= key(c)
    ensures SortBy([a, c], key) == [a, c]
  {
    assert [a, c] == [a] + [c] && [c] == [c] + [];
    SortByCons(a, [c], key);
    SortByCons(c, [], key);
    InsertCons(a, c, [], key);
  }

  /** Filtering two cards where only the first passes. */
  lemma FilterTwo(a: Card, c: Card, p: Card -> bool)
    requires p(a) && !p(c)
    ensures Filter([a, c], p) == [a]
  {
    assert [a, c] == [a] + [c] && [c] == [c] + [];
    FilterCons(a, [c], p);
    FilterCons(c, [], p);
  }

  /** A is due before C, so sorting keeps [A, C]; only A is due by now. */
  lemma SampleSorted(aggs: map<string, CardAggregate>, t: int)
    requires "A" in aggs && aggs["A"].due == Some(t - 1)
    requires "C" in aggs && aggs["C"].due == Some(t + 1000)
    ensures var sorted := SortBy([BareCard("A"), BareCard("C")], DueKey(aggs));
      && sorted == [BareCard("A"), BareCard("C")]
      && Filter(sorted, DueNow(aggs, t)) == [BareCard("A")]
      && Filter(sorted, DueLater(aggs, t)) == [BareCard("C")]
  {
    var a, c := BareCard("A"), BareCard("C");
    SortTwo(a, c, DueKey(aggs));
    FilterTwo(a, c, DueNow(aggs, t));
    assert Filter([a, c], DueLater(aggs, t)) == [c] by {
      assert [a, c] == [a] + [c] && [c] == [c] + [];
      FilterCons(a, [c], DueLater(aggs, t));
      FilterCons(c, [], DueLater(aggs, t));
    }
  }

  lemma SampleBuckets(t: int)
    ensures BucketsOf(SampleContext(t)) == Buckets([BareCard("A")], [BareCard("B")], [BareCard("C")])
  {
    SampleSeen(t);
    SampleDueA(t);
    SampleDueC(t);
    SampleSorted(AggregatesFor(SampleContext(t)), t);
  }

  /** Scenario: one card due a millisecond ago, one new, one due in a second;
      all three come back as due, then new, then upcoming. */
  lemma ScenarioBucketOrder(t: int)
    ensures PickNext(3, SampleContext(t)) == ["A", "B", "C"]
  {
    var ctx := SampleContext(t);
    SampleBuckets(t);
    var b := BucketsOf(ctx);
    PickNextOfBuckets(3, ctx, b);
    ThreeIds();
  }

  /** `pickNext` is the first `count` ids of the ordered buckets. */
  lemma PickNextOfBuckets(count: int, ctx: SchedulerContext, b: Buckets)
    requires BucketsOf(ctx) == b
    ensures PickNext(count, ctx) == Take(Ids(Ordered(b)), count)
  {
  }

  lemma ThreeIds()
    ensures Take(Ids(Ordered(Buckets([BareCard("A")], [BareCard("B")], [BareCard("C")]))), 3) == ["A", "B", "C"]
  {
    var all := [BareCard("A"), BareCard("B"), BareCard("C")];
    assert Ordered(Buckets([BareCard("A")], [BareCard("B")], [BareCard("C")])) == all;
    assert Ids(all) == ["A", "B", "C"];
  }

  /** Asking for nothing returns nothing. */
  lemma ScenarioZeroCount(ctx: SchedulerContext)
    ensures PickNext(0, ctx) == []
  {
  }

  /** The default scheduler record. */
  const DefaultScheduler: Scheduler :=
    Scheduler("default", Some("Simple SM-2-like: due-first, then new"), PickNext, None)

  /** The exported scheduler's `pickNext` keeps every promise of `PickNext`:
      the capped length, catalog ids only, no repeats for distinct ids. */
  lemma DefaultSchedulerPicks(count: int, ctx: SchedulerContext)
    ensures DefaultScheduler.name == "default"
    ensures var ids := DefaultScheduler.pickNext(count, ctx);
      && |ids| == (if count <= 0 then 0 else if count < |ctx.cards| then count else |ctx.cards|)
      && (forall i :: 0 <= i < |ids| ==> ids[i] in Ids(ctx.cards))
      && (NoDup(Ids(ctx.cards)) ==> NoDup(ids))
  {
  }
}
