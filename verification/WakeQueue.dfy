/** The queue of wake-ups: a channel of at most 64 repositories, and the set that keeps any from being in it twice. */
module WakeQueue {
  import opened Wrappers

  const WORK_CAP := 64

  /** hand is the repository the goroutine has received but not yet taken out of the pending set; started lists the
      catch-ups begun so far. */
  datatype State = State(work: seq<string>, pending: set<string>, hand: Option<string>, started: seq<string>)

  const EMPTY := State([], {}, None, [])

  predicate CanQueue(s: State, repo: string) {
    repo !in s.pending && |s.work| < WORK_CAP
  }

  function Woken(s: State, repo: string): State {
    if CanQueue(s, repo) then s.(work := s.work + [repo], pending := s.pending + {repo}) else s
  }

  function Received(s: State): State {
    if s.hand.None? && s.work != [] then s.(hand := Some(s.work[0]), work := s.work[1..]) else s
  }

  function Taken(s: State): State {
    if s.hand.Some? then s.(pending := s.pending - {s.hand.value}, hand := None, started := s.started + [s.hand.value]) else s
  }

  class Bridge {
    var work: seq<string>
    var pending: set<string>
    var hand: Option<string>
    ghost var started: seq<string>

    ghost function View(): State
      reads this
    {
      State(work, pending, hand, started)
    }

    constructor ()
      ensures View() == EMPTY
    {
      work, pending, hand, started := [], {}, None, [];
    }

    /** Answers "queued", or "dropped" when the repository is pending already or the channel is full. */
    method Wake(repo: string) returns (answer: string)
      modifies this
      ensures View() == Woken(old(View()), repo)
      ensures answer == if CanQueue(old(View()), repo) then "queued" else "dropped"
    {
      if repo in pending { return "dropped"; }
      if |work| < WORK_CAP {
        work := work + [repo];
        pending := pending + {repo};
        return "queued";
      }
      answer := "dropped";
    }

    /** The goroutine receives from the channel. */
    method Receive()
      modifies this
      ensures View() == Received(old(View()))
    {
      if hand.None? && |work| > 0 {
        hand := Some(work[0]);
        work := work[1..];
      }
    }

    /** The goroutine takes what it received out of the pending set and begins its catch-up. */
    method Take()
      modifies this
      ensures View() == Taken(old(View()))
    {
      if hand.Some? {
        pending := pending - {hand.value};
        started := started + [hand.value];
        hand := None;
      }
    }
  }

  /** A sweep begins a catch-up that was not queued; only between takes, on the same goroutine. */
  datatype Step = Wake(repo: string) | Receive | Take | Sweep(repo: string)

  function Next(s: State, step: Step): State {
    match step
    case Wake(repo) => Woken(s, repo)
    case Receive => Received(s)
    case Take => Taken(s)
    case Sweep(repo) => if s.hand.None? then s.(started := s.started + [repo]) else s
  }

  function Run(s: State, steps: seq<Step>): State {
    if steps == [] then s else Next(Run(s, steps[..|steps| - 1]), steps[|steps| - 1])
  }

  // ---- what is pending ----

  ghost predicate Inv(s: State) {
    && |s.work| <= 64
    && (forall i, j :: 0 <= i < j < |s.work| ==> s.work[i] != s.work[j])
    && (s.hand.Some? ==> s.hand.value !in s.work)
    && (forall r :: r in s.pending <==> r in s.work || s.hand == Some(r))
  }

  lemma NextKeepsInv(s: State, step: Step)
    requires Inv(s)
    ensures Inv(Next(s, step))
  {
    if step.Receive? && s.hand.None? && s.work != [] {
      assert s.work == [s.work[0]] + s.work[1..];
      assert s.work[0] !in s.work[1..] by {
        forall i | 0 <= i < |s.work| - 1 ensures s.work[1..][i] != s.work[0] { assert s.work[1..][i] == s.work[i + 1]; }
      }
    }
  }

  /** In every state the channel holds no repository twice and at most 64, and a repository is pending exactly if it is
      queued or has been received and not yet taken. */
  lemma {:induction false} PendingExactly(steps: seq<Step>)
    ensures Inv(Run(EMPTY, steps))
  {
    if steps != [] {
      PendingExactly(steps[..|steps| - 1]);
      NextKeepsInv(Run(EMPTY, steps[..|steps| - 1]), steps[|steps| - 1]);
    }
  }

  // ---- a wake-up is served ----

  function IndexIn(work: seq<string>, repo: string): (n: nat)
    ensures n <= |work|
    ensures repo in work ==> n < |work| && work[n] == repo
  {
    if work == [] || work[0] == repo then 0 else 1 + IndexIn(work[1..], repo)
  }

  /** How many takes it is until a pending repository's catch-up begins. */
  function Rank(s: State, repo: string): nat {
    if s.hand == Some(repo) then 1 else IndexIn(s.work, repo) + 1 + (if s.hand.Some? then 1 else 0)
  }

  /** How many of the steps are takes that begin a catch-up. */
  function Takes(s: State, steps: seq<Step>): nat {
    if steps == [] then 0
    else
      var rest := steps[..|steps| - 1];
      Takes(s, rest) + (if steps[|steps| - 1].Take? && Run(s, rest).hand.Some? then 1 else 0)
  }

  lemma {:induction false} IndexAppend(work: seq<string>, repo: string, last: string)
    requires repo in work
    ensures IndexIn(work + [last], repo) == IndexIn(work, repo)
  {
    if work[0] != repo {
      IndexAppend(work[1..], repo, last);
      assert (work + [last])[1..] == work[1..] + [last];
    }
  }

  /** Only a take brings a pending repository nearer, by one, unless it is its turn. */
  lemma NextRank(s: State, step: Step, repo: string)
    requires Inv(s) && repo in s.pending
    ensures var t := Next(s, step); var took := step.Take? && s.hand.Some?;
      if took && Rank(s, repo) == 1 then t.started == s.started + [repo]
      else repo in t.pending && Rank(t, repo) == Rank(s, repo) - (if took then 1 else 0)
  {
    match step
    case Wake(r) => if CanQueue(s, r) && repo in s.work { IndexAppend(s.work, repo, r); }
    case _ =>
  }

  lemma {:induction false} RunRank(s: State, steps: seq<Step>, repo: string)
    requires Inv(s) && repo in s.pending
    ensures var t := Run(s, steps);
      && Inv(t) && |s.started| <= |t.started|
      && (repo in t.started[|s.started|..] || (repo in t.pending && Rank(t, repo) + Takes(s, steps) == Rank(s, repo)))
  {
    if steps != [] {
      var rest, step := steps[..|steps| - 1], steps[|steps| - 1];
      hide Inv, Rank;
      RunRank(s, rest, repo);
      var t := Run(s, rest);
      NextKeepsInv(t, step);
      StartedGrows(t, step);
      if repo !in t.started[|s.started|..] {
        NextRank(t, step, repo);
        NoRankZero(t, repo);
        if repo !in Next(t, step).pending || (step.Take? && t.hand.Some? && Rank(t, repo) == 1) {
          assert Next(t, step).started[|s.started|..] == t.started[|s.started|..] + [repo];
        }
      } else {
        var k :| 0 <= k < |t.started| - |s.started| && t.started[|s.started|..][k] == repo;
        assert Next(t, step).started[|s.started|..][k] == repo;
      }
    }
  }

  lemma StartedGrows(s: State, step: Step)
    ensures |s.started| <= |Next(s, step).started| && Next(s, step).started[..|s.started|] == s.started
  {
  }

  lemma NoRankZero(s: State, repo: string)
    ensures Rank(s, repo) >= 1
  {
  }

  /** Whatever happened before, a wake-up that leaves its repository pending, because it was queued or because it was
      pending already, is followed by a catch-up that begins after it: at the latest the 65th that the goroutine takes
      from then on. */
  lemma WakeIsServed(before: seq<Step>, repo: string, after: seq<Step>)
    requires repo in Run(EMPTY, before + [Wake(repo)]).pending
    requires Takes(Run(EMPTY, before + [Wake(repo)]), after) >= Rank(Run(EMPTY, before + [Wake(repo)]), repo)
    ensures var woken := Run(EMPTY, before + [Wake(repo)]);
      && Rank(woken, repo) <= 65
      && |woken.started| <= |Run(woken, after).started| && repo in Run(woken, after).started[|woken.started|..]
  {
    hide Inv, Rank;
    var woken := Run(EMPTY, before + [Wake(repo)]);
    PendingExactly(before + [Wake(repo)]);
    RunRank(woken, after, repo);
    RankBound(woken, repo);
    NoRankZero(Run(woken, after), repo);
  }

  lemma RankBound(s: State, repo: string)
    requires Inv(s) && repo in s.pending
    ensures Rank(s, repo) <= WORK_CAP + 1
  {
  }

  /** Only a full channel loses a wake-up: a repository that is not pending afterwards found 64 others queued. */
  lemma OnlyFullDrops(before: seq<Step>, repo: string)
    ensures var s := Run(EMPTY, before);
      repo !in Next(s, Wake(repo)).pending <==> repo !in s.pending && |s.work| == 64
  {
    PendingExactly(before);
  }
}
