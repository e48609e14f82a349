/**
 The shared shapes of the flashcard application: cards, review grades and
 logs, per-card aggregates, the scheduler context and the scheduler itself.
 Timestamps are epoch milliseconds; ease is kept in hundredths (250 is 2.5).
 */
module Types {
  import opened Wrappers
  import Seqs

  /** The outcome of one presentation; `View` records a display without a grade. */
  datatype Grade = Again | Hard | Good | Easy | View

  /** One entry of the append-only review history. */
  datatype ReviewLog = ReviewLog(cardId: string, ts: int, grade: Grade, durationMs: Option<int>)

  /** What is known about one card. `reviews`, `ease` and `intervalDays` are
      always present; `lastReviewed` and `due` may be missing. */
  datatype CardAggregate = CardAggregate(
    cardId: string,
    lastReviewed: Option<int>,
    reviews: nat,
    ease: int,
    intervalDays: int,
    due: Option<int>)

  /** A flashcard; front and back are opaque markdown text here. */
  datatype Card = Card(
    id: string,
    title: Option<string>,
    front: string,
    back: string,
    frontImages: Option<seq<string>>,
    backImages: Option<seq<string>>,
    path: string,
    group: Option<string>)

  /** Everything a scheduler may look at when picking cards. */
  datatype SchedulerContext = SchedulerContext(
    now: int,
    cards: seq<Card>,
    history: seq<ReviewLog>,
    aggregates: map<string, CardAggregate>)

  /** A named scheduling policy: `pickNext(count, ctx)` lists the ids of the
      next cards to show, in order; `onReview` is an optional hook. */
  datatype Scheduler = Scheduler(
    name: string,
    description: Option<string>,
    pickNext: (int, SchedulerContext) -> seq<string>,
    onReview: Option<(ReviewLog, CardAggregate) -> CardAggregate>)

  /** The spelling of each grade in stored logs and requests. */
  function GradeName(g: Grade): (s: string)
    ensures ParseGrade(s) == Some(g)
  {
    match g
    case Again => "again"
    case Hard => "hard"
    case Good => "good"
    case Easy => "easy"
    case View => "view"
  }

  /** Reads a grade back from its spelling; every other string is rejected. */
  function ParseGrade(s: string): (r: Option<Grade>)
    ensures r.Some? <==> s in {"again", "hard", "good", "easy", "view"}
  {
    if s == "again" then Some(Again)
    else if s == "hard" then Some(Hard)
    else if s == "good" then Some(Good)
    else if s == "easy" then Some(Easy)
    else if s == "view" then Some(View)
    else None
  }

  /** A string read as a grade is that grade's spelling. */
  lemma ParseGradeSpelling(s: string)
    requires ParseGrade(s).Some?
    ensures GradeName(ParseGrade(s).value) == s
  {
  }

  function CardId(c: Card): string { c.id }

  /** The ids of `cards`, in order. */
  function Ids(cards: seq<Card>): seq<string> {
    Seqs.Map(cards, CardId)
  }
}
