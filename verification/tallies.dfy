/**
 * Facts about counting vote rows, and the double-counting argument that
 * links the two denormalised counters: summing the option counters of a
 * poll gives the number of vote rows of that poll.
 */
module Tallies {
  import opened Wrappers
  import opened Models

  /** Appending a row adds one to every count whose criterion it satisfies. */
  lemma {:induction false} TallyAppend(votes: seq<Vote>, v: Vote, c: Criterion)
    ensures Tally(votes + [v], c) == Tally(votes, c) + (if Holds(c, v) then 1 else 0)
  {
    if |votes| == 0 {
      assert votes + [v] == [v];
    } else {
      assert (votes + [v])[1..] == votes[1..] + [v];
      TallyAppend(votes[1..], v, c);
    }
  }

  /** Replacing one row swaps its contribution to every count for the new row's. */
  lemma {:induction false} TallyUpdate(votes: seq<Vote>, i: nat, v: Vote, c: Criterion)
    requires i < |votes|
    ensures Tally(votes[i := v], c)
            == Tally(votes, c) - (if Holds(c, votes[i]) then 1 else 0) + (if Holds(c, v) then 1 else 0)
  {
    if i == 0 {
      assert votes[i := v][1..] == votes[1..];
    } else {
      assert votes[i := v][1..] == votes[1..][i - 1 := v];
      TallyUpdate(votes[1..], i - 1, v, c);
    }
  }

  /** A count is zero exactly when no row satisfies the criterion. */
  lemma {:induction false} TallyZeroIffNone(votes: seq<Vote>, c: Criterion)
    ensures Tally(votes, c) == 0 <==> forall j :: 0 <= j < |votes| ==> !Holds(c, votes[j])
  {
    if |votes| > 0 {
      TallyZeroIffNone(votes[1..], c);
      assert forall j :: 1 <= j < |votes| ==> votes[j] == votes[1..][j - 1];
    }
  }

  /** A row that satisfies the criterion makes the count positive. */
  lemma TallyPositive(votes: seq<Vote>, c: Criterion, j: nat)
    requires j < |votes| && Holds(c, votes[j])
    ensures Tally(votes, c) >= 1
  {
    TallyZeroIffNone(votes, c);
  }

  /** A weaker criterion never counts fewer rows. */
  lemma {:induction false} TallyMonotone(votes: seq<Vote>, c: Criterion, d: Criterion)
    requires forall j :: 0 <= j < |votes| && Holds(c, votes[j]) ==> Holds(d, votes[j])
    ensures Tally(votes, c) <= Tally(votes, d)
  {
    if |votes| > 0 {
      assert forall j :: 0 <= j < |votes[1..]| ==> votes[1..][j] == votes[j + 1];
      TallyMonotone(votes[1..], c, d);
    }
  }

  /** If no two rows both satisfy the criterion, it counts at most one row. */
  lemma {:induction false} TallyAtMostOne(votes: seq<Vote>, c: Criterion)
    requires forall i, j :: 0 <= i < j < |votes| && Holds(c, votes[i]) ==> !Holds(c, votes[j])
    ensures Tally(votes, c) <= 1
  {
    if |votes| > 0 {
      assert forall j :: 0 <= j < |votes[1..]| ==> votes[1..][j] == votes[j + 1];
      if Holds(c, votes[0]) {
        TallyZeroIffNone(votes[1..], c);
      } else {
        TallyAtMostOne(votes[1..], c);
      }
    }
  }

  /* ---------------------------------------------------------------------- */
  /* Double counting                                                         */
  /* ---------------------------------------------------------------------- */

  /** The sum, over the options of `poll`, of the number of rows pointing at each option. */
  ghost function SumTallies(options: seq<PollOption>, votes: seq<Vote>, poll: PollId): nat {
    if |options| == 0 then 0
    else (if options[0].poll == poll then Tally(votes, OnOption(options[0].id)) else 0)
         + SumTallies(options[1..], votes, poll)
  }

  /** The number of options of `poll` whose id is `id`. */
  ghost function Hits(options: seq<PollOption>, id: OptionId, poll: PollId): nat {
    if |options| == 0 then 0
    else (if options[0].poll == poll && options[0].id == id then 1 else 0) + Hits(options[1..], id, poll)
  }

  /** With unique ids, an option id is hit once among the options of `poll` exactly when it belongs to `poll`. */
  lemma {:induction false} HitsIsOwnership(options: seq<PollOption>, id: OptionId, poll: PollId)
    requires OptionIdsDistinct(options)
    ensures Hits(options, id, poll) == if OptionPoll(options, id) == Some(poll) then 1 else 0
  {
    if |options| > 0 {
      var rest := options[1..];
      assert OptionIdsDistinct(rest) by {
        forall i, j | 0 <= i < j < |rest| ensures rest[i].id != rest[j].id {
          assert rest[i] == options[i + 1] && rest[j] == options[j + 1];
        }
      }
      HitsIsOwnership(rest, id, poll);
    }
  }

  /** With no vote rows every per-option count is zero. */
  lemma {:induction false} SumTalliesEmpty(options: seq<PollOption>, votes: seq<Vote>, poll: PollId)
    requires |votes| == 0
    ensures SumTallies(options, votes, poll) == 0
  {
    if |options| > 0 {
      SumTalliesEmpty(options[1..], votes, poll);
    }
  }

  /** Peeling the first vote row off every per-option count. */
  lemma {:induction false} SumTalliesPeel(options: seq<PollOption>, votes: seq<Vote>, poll: PollId)
    requires |votes| > 0
    ensures SumTallies(options, votes, poll) == Hits(options, votes[0].option, poll) + SumTallies(options, votes[1..], poll)
  {
    if |options| > 0 {
      SumTalliesPeel(options[1..], votes, poll);
    }
  }

  /** When every vote points at an option of its own poll, the per-option counts of a poll add up to its row count. */
  lemma {:induction false} SumTalliesIsPollTally(options: seq<PollOption>, votes: seq<Vote>, poll: PollId)
    requires OptionIdsDistinct(options)
    requires forall i :: 0 <= i < |votes| ==> OptionPoll(options, votes[i].option) == Some(votes[i].poll)
    ensures SumTallies(options, votes, poll) == Tally(votes, InPoll(poll))
  {
    if |votes| == 0 {
      SumTalliesEmpty(options, votes, poll);
    } else {
      var rest := votes[1..];
      SumTalliesPeel(options, votes, poll);
      HitsIsOwnership(options, votes[0].option, poll);
      assert OptionPoll(options, votes[0].option) == Some(votes[0].poll);
      assert forall i :: 0 <= i < |rest| ==> OptionPoll(options, rest[i].option) == Some(rest[i].poll) by {
        forall i | 0 <= i < |rest| ensures OptionPoll(options, rest[i].option) == Some(rest[i].poll) {
          assert rest[i] == votes[i + 1];
        }
      }
      SumTalliesIsPollTally(options, rest, poll);
      assert Tally(votes, InPoll(poll)) == (if votes[0].poll == poll then 1 else 0) + Tally(rest, InPoll(poll));
    }
  }

  /** Counters that agree with the rows sum like the rows. */
  lemma {:induction false} SumCountsIsSumTallies(options: seq<PollOption>, votes: seq<Vote>, poll: PollId)
    requires forall i :: 0 <= i < |options| ==> options[i].voteCount == Tally(votes, OnOption(options[i].id))
    ensures SumCounts(options, poll) == SumTallies(options, votes, poll)
  {
    if |options| > 0 {
      assert forall i :: 0 <= i < |options[1..]| ==> options[1..][i] == options[i + 1];
      SumCountsIsSumTallies(options[1..], votes, poll);
    }
  }

  /**
   * The counter-consistency theorem: in a consistent store, a poll's
   * `totalVotes` is both the sum of its options' `voteCount` and the number
   * of its vote rows.
   */
  lemma TotalIsSumOfCounts(s: Store, poll: PollId)
    requires Consistent(s) && poll in s.polls
    ensures s.polls[poll].totalVotes == SumCounts(s.options, poll)
    ensures s.polls[poll].totalVotes == Tally(s.votes, InPoll(poll))
  {
    SumCountsIsSumTallies(s.options, s.votes, poll);
    SumTalliesIsPollTally(s.options, s.votes, poll);
  }

  /** In a consistent store each voter has at most one vote row per poll. */
  lemma AtMostOneVotePerVoter(s: Store, poll: PollId, voter: Voter)
    requires Consistent(s)
    ensures Tally(s.votes, ByVoter(poll, voter)) <= 1
  {
    var c := ByVoter(poll, voter);
    forall i, j | 0 <= i < j < |s.votes| && Holds(c, s.votes[i])
      ensures !Holds(c, s.votes[j])
    {
    }
    TallyAtMostOne(s.votes, c);
  }

  /** In a consistent store no option holds more votes than its poll. */
  lemma CountWithinTotal(s: Store, i: nat)
    requires Consistent(s) && i < |s.options|
    ensures s.options[i].poll in s.polls
    ensures s.options[i].voteCount <= s.polls[s.options[i].poll].totalVotes
  {
    var o := s.options[i];
    var k := FindOption(s.options, o.id).value;
    assert k == i;
    forall j | 0 <= j < |s.votes| && Holds(OnOption(o.id), s.votes[j])
      ensures Holds(InPoll(o.poll), s.votes[j])
    {
      assert OptionPoll(s.options, s.votes[j].option) == Some(s.votes[j].poll);
    }
    TallyMonotone(s.votes, OnOption(o.id), InPoll(o.poll));
  }
}
