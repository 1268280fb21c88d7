/**
 * What the ledger transitions guarantee: the decision table of a cast
 * (insert, refuse, move, no-op), and that casting a validated vote and
 * creating a poll both preserve the store invariant.
 */
module Ledger {
  import opened Wrappers
  import opened Models
  import opened Tallies
  import opened Serializers

  /* ---------------------------------------------------------------------- */
  /* Lookup facts                                                            */
  /* ---------------------------------------------------------------------- */

  /** With unique ids, looking up a row's own id finds that row. */
  lemma FindOptionOfRow(options: seq<PollOption>, i: nat)
    requires OptionIdsDistinct(options) && i < |options|
    ensures FindOption(options, options[i].id) == Some(i)
    ensures OptionPoll(options, options[i].id) == Some(options[i].poll)
  {
  }

  /** Lookups see only ids and owning polls, so rewriting counters does not change them. */
  lemma OptionPollIgnoresCounts(a: seq<PollOption>, b: seq<PollOption>, id: OptionId)
    requires |a| == |b|
    requires forall j :: 0 <= j < |a| ==> a[j].id == b[j].id && a[j].poll == b[j].poll
    ensures FindOption(a, id) == FindOption(b, id)
    ensures OptionPoll(a, id) == OptionPoll(b, id)
  {
  }

  /** Appending rows does not change the lookup of an id already present. */
  lemma OptionPollAppend(a: seq<PollOption>, b: seq<PollOption>, id: OptionId)
    requires FindOption(a, id).Some?
    ensures FindOption(a + b, id) == FindOption(a, id)
    ensures OptionPoll(a + b, id) == OptionPoll(a, id)
  {
    var k := FindOption(a, id).value;
    var r := FindOption(a + b, id);
    assert (a + b)[k] == a[k];
  }

  /* ---------------------------------------------------------------------- */
  /* The decision table                                                      */
  /* ---------------------------------------------------------------------- */

  /**
   * A first vote adds exactly one row, keyed by the voter, and raises the
   * chosen option's counter and the poll's total by one; nothing else changes.
   */
  lemma FirstVoteInserts(s: Store, poll: PollId, optionId: OptionId, voter: Voter)
    requires poll in s.polls && FindOption(s.options, optionId).Some?
    requires !VotedIn(s.votes, poll, voter)
    ensures CastVote(s, poll, optionId, voter).Ok?
    ensures var s' := CastVote(s, poll, optionId, voter).value;
      && s'.votes == s.votes + [NewVote(poll, optionId, voter)]
      && Tally(s'.votes, ByVoter(poll, voter)) == 1
      && s'.polls == s.polls[poll := s.polls[poll].(totalVotes := s.polls[poll].totalVotes + 1)]
      && var t := FindOption(s.options, optionId).value;
         s'.options == s.options[t := s.options[t].(voteCount := s.options[t].voteCount + 1)]
  {
    FindVoteIffVoted(s.votes, poll, voter);
    var s' := CastVote(s, poll, optionId, voter).value;
    var c := ByVoter(poll, voter);
    TallyZeroIffNone(s.votes, c);
    TallyAppend(s.votes, NewVote(poll, optionId, voter), c);
  }

  /**
   * On a multiple-vote poll a consistent store moves the caller's existing
   * vote: no row is added, the total is unchanged, the old option's counter
   * drops by one and the new option's rises by one.
   */
  lemma ChangedVoteMoves(s: Store, poll: PollId, optionId: OptionId, voter: Voter)
    requires Consistent(s)
    requires poll in s.polls && s.polls[poll].allowMultipleVotes && FindOption(s.options, optionId).Some?
    requires VotedIn(s.votes, poll, voter)
    ensures CastVote(s, poll, optionId, voter).Ok?
    ensures var s' := CastVote(s, poll, optionId, voter).value;
      var e := FindVote(s.votes, poll, voter).value;
      var previous := s.votes[e].option;
      && s'.polls == s.polls
      && s'.votes == s.votes[e := s.votes[e].(option := optionId)]
      && |s'.options| == |s.options|
      && (forall j :: 0 <= j < |s.options| ==>
            s'.options[j] == s.options[j].(voteCount :=
              s.options[j].voteCount
              - (if s.options[j].id == previous then 1 else 0)
              + (if s.options[j].id == optionId then 1 else 0)))
  {
    FindVoteIffVoted(s.votes, poll, voter);
    var e := FindVote(s.votes, poll, voter).value;
    var previous := s.votes[e].option;
    assert OptionPoll(s.options, previous).Some?;
    var k := FindOption(s.options, previous).value;
    var t := FindOption(s.options, optionId).value;
    TallyPositive(s.votes, OnOption(previous), e);
    assert s.options[k].voteCount >= 1;
    MovedCounters(s, e, t);
    assert forall j :: 0 <= j < |s.options| ==> (s.options[j].id == previous <==> j == k) && (s.options[j].id == optionId <==> j == t);
  }

  /** Re-voting the option one already holds on a multiple-vote poll changes nothing at all. */
  lemma SameOptionRevoteIsNoOp(s: Store, poll: PollId, voter: Voter, j: nat)
    requires Consistent(s)
    requires poll in s.polls && s.polls[poll].allowMultipleVotes
    requires j < |s.votes| && Matches(s.votes[j], poll, voter)
    ensures CastVote(s, poll, s.votes[j].option, voter) == Ok(s)
  {
    var optionId := s.votes[j].option;
    assert OptionPoll(s.options, optionId).Some?;
    ChangedVoteMoves(s, poll, optionId, voter);
    var e := FindVote(s.votes, poll, voter).value;
    assert e == j;
    var s' := CastVote(s, poll, optionId, voter).value;
    assert s'.votes == s.votes;
    assert s'.options == s.options;
  }

  /** In a consistent store a cast never trips the non-negative counter check or misses the old option row. */
  lemma CastNeverUnderflows(s: Store, poll: PollId, optionId: OptionId, voter: Voter)
    requires Consistent(s)
    ensures CastVote(s, poll, optionId, voter) != Err(CounterUnderflow)
    ensures CastVote(s, poll, optionId, voter) != Err(VoteOptionMissing)
  {
    if poll in s.polls && FindOption(s.options, optionId).Some? && VotedIn(s.votes, poll, voter)
       && s.polls[poll].allowMultipleVotes {
      ChangedVoteMoves(s, poll, optionId, voter);
    }
  }

  /* ---------------------------------------------------------------------- */
  /* Preservation of the invariant                                           */
  /* ---------------------------------------------------------------------- */

  lemma InsertKeepsVotesWellFormed(s: Store, poll: PollId, target: nat, voter: Voter)
    requires OptionIdsDistinct(s.options) && VotesWellFormed(s)
    requires poll in s.polls && target < |s.options| && s.options[target].poll == poll
    requires forall j :: 0 <= j < |s.votes| ==> !Matches(s.votes[j], poll, voter)
    ensures VotesWellFormed(InsertVote(s, poll, target, voter))
  {
    var s' := InsertVote(s, poll, target, voter);
    var row := NewVote(poll, s.options[target].id, voter);
    assert s'.votes == s.votes + [row];
    FindOptionOfRow(s.options, target);
    forall i | 0 <= i < |s'.votes|
      ensures OptionPoll(s'.options, s'.votes[i].option) == Some(s'.votes[i].poll)
    {
      OptionPollIgnoresCounts(s'.options, s.options, s'.votes[i].option);
    }
    forall i, j | 0 <= i < |s'.votes| && 0 <= j < |s'.votes| && i != j && s'.votes[i].poll == s'.votes[j].poll
      ensures s'.votes[i].user.Some? ==> s'.votes[i].user != s'.votes[j].user
      ensures s'.votes[i].sessionKey.Some? ==> s'.votes[i].sessionKey != s'.votes[j].sessionKey
    {
      if i == |s.votes| {
        assert !Matches(s.votes[j], poll, voter);
      } else if j == |s.votes| {
        assert !Matches(s.votes[i], poll, voter);
      }
    }
  }

  lemma InsertKeepsCountersAgree(s: Store, poll: PollId, target: nat, voter: Voter)
    requires OptionIdsDistinct(s.options) && CountersAgree(s)
    requires poll in s.polls && target < |s.options|
    ensures CountersAgree(InsertVote(s, poll, target, voter))
  {
    var s' := InsertVote(s, poll, target, voter);
    var row := NewVote(poll, s.options[target].id, voter);
    assert s'.votes == s.votes + [row];
    forall i | 0 <= i < |s'.options|
      ensures s'.options[i].voteCount == Tally(s'.votes, OnOption(s'.options[i].id))
    {
      TallyAppend(s.votes, row, OnOption(s.options[i].id));
    }
    forall p | p in s'.polls
      ensures s'.polls[p].totalVotes == Tally(s'.votes, InPoll(p))
    {
      TallyAppend(s.votes, row, InPoll(p));
    }
  }

  lemma InsertPreservesConsistent(s: Store, poll: PollId, target: nat, voter: Voter)
    requires Consistent(s) && poll in s.polls && target < |s.options| && s.options[target].poll == poll
    requires forall j :: 0 <= j < |s.votes| ==> !Matches(s.votes[j], poll, voter)
    ensures Consistent(InsertVote(s, poll, target, voter))
  {
    InsertKeepsVotesWellFormed(s, poll, target, voter);
    InsertKeepsCountersAgree(s, poll, target, voter);
  }

  /** The option rows after a move differ from the old ones only in the two counters. */
  lemma MovedCounters(s: Store, existing: nat, target: nat)
    requires existing < |s.votes| && target < |s.options|
    requires MoveVote(s, existing, target).Ok?
    ensures var s' := MoveVote(s, existing, target).value;
      var previous := FindOption(s.options, s.votes[existing].option).value;
      && s'.polls == s.polls && s'.nextPollId == s.nextPollId && s'.nextOptionId == s.nextOptionId
      && s'.votes == s.votes[existing := s.votes[existing].(option := s.options[target].id)]
      && |s'.options| == |s.options|
      && forall j :: 0 <= j < |s.options| ==>
           && s'.options[j].voteCount
              == s.options[j].voteCount - (if j == previous then 1 else 0) + (if j == target then 1 else 0)
           && s'.options[j].id == s.options[j].id && s'.options[j].poll == s.options[j].poll
           && s'.options[j].order == s.options[j].order
  {
  }

  lemma MoveKeepsVotesWellFormed(s: Store, existing: nat, target: nat)
    requires VotesWellFormed(s) && existing < |s.votes| && target < |s.options|
    requires OptionIdsDistinct(s.options)
    requires s.options[target].poll == s.votes[existing].poll
    requires MoveVote(s, existing, target).Ok?
    ensures VotesWellFormed(MoveVote(s, existing, target).value)
  {
    var s' := MoveVote(s, existing, target).value;
    MovedCounters(s, existing, target);
    FindOptionOfRow(s.options, target);
    forall i | 0 <= i < |s'.votes|
      ensures OptionPoll(s'.options, s'.votes[i].option) == Some(s'.votes[i].poll)
    {
      OptionPollIgnoresCounts(s'.options, s.options, s'.votes[i].option);
    }
  }

  lemma MoveKeepsCountersAgree(s: Store, existing: nat, target: nat)
    requires CountersAgree(s) && OptionIdsDistinct(s.options) && existing < |s.votes| && target < |s.options|
    requires MoveVote(s, existing, target).Ok?
    ensures CountersAgree(MoveVote(s, existing, target).value)
  {
    var s' := MoveVote(s, existing, target).value;
    var moved := s.votes[existing].(option := s.options[target].id);
    MovedCounters(s, existing, target);
    forall i | 0 <= i < |s'.options|
      ensures s'.options[i].voteCount == Tally(s'.votes, OnOption(s'.options[i].id))
    {
      TallyUpdate(s.votes, existing, moved, OnOption(s.options[i].id));
    }
    forall p | p in s'.polls
      ensures s'.polls[p].totalVotes == Tally(s'.votes, InPoll(p))
    {
      TallyUpdate(s.votes, existing, moved, InPoll(p));
    }
  }

  lemma MovePreservesConsistent(s: Store, existing: nat, target: nat)
    requires Consistent(s) && existing < |s.votes| && target < |s.options|
    requires s.options[target].poll == s.votes[existing].poll
    requires MoveVote(s, existing, target).Ok?
    ensures Consistent(MoveVote(s, existing, target).value)
  {
    MovedCounters(s, existing, target);
    MoveKeepsVotesWellFormed(s, existing, target);
    MoveKeepsCountersAgree(s, existing, target);
  }

  /**
   * Casting a vote for an option of the poll keeps the store consistent:
   * counters agree with the rows, each voter keeps at most one row per poll.
   */
  lemma CastPreservesConsistent(s: Store, poll: PollId, optionId: OptionId, voter: Voter)
    requires Consistent(s) && OptionPoll(s.options, optionId) == Some(poll)
    ensures CastVote(s, poll, optionId, voter).Ok? ==> Consistent(CastVote(s, poll, optionId, voter).value)
  {
    if CastVote(s, poll, optionId, voter).Ok? {
      var target := FindOption(s.options, optionId).value;
      match FindVote(s.votes, poll, voter)
      case Some(existing) =>
        MovePreservesConsistent(s, existing, target);
      case None =>
        InsertPreservesConsistent(s, poll, target, voter);
    }
  }

  /* ---------------------------------------------------------------------- */
  /* Poll creation                                                           */
  /* ---------------------------------------------------------------------- */

  lemma {:induction false} OptionsOfConcat(a: seq<PollOption>, b: seq<PollOption>, poll: PollId)
    ensures OptionsOf(a + b, poll) == OptionsOf(a, poll) + OptionsOf(b, poll)
  {
    if |a| > 0 {
      assert (a + b)[1..] == a[1..] + b;
      OptionsOfConcat(a[1..], b, poll);
    } else {
      assert a + b == b;
    }
  }

  lemma {:induction false} OptionsOfNone(a: seq<PollOption>, poll: PollId)
    requires forall i :: 0 <= i < |a| ==> a[i].poll != poll
    ensures OptionsOf(a, poll) == []
  {
    if |a| > 0 {
      assert forall i :: 0 <= i < |a[1..]| ==> a[1..][i] == a[i + 1];
      OptionsOfNone(a[1..], poll);
    }
  }

  lemma {:induction false} OptionsOfAll(a: seq<PollOption>, poll: PollId)
    requires forall i :: 0 <= i < |a| ==> a[i].poll == poll
    ensures OptionsOf(a, poll) == a
  {
    if |a| > 0 {
      assert forall i :: 0 <= i < |a[1..]| ==> a[1..][i] == a[i + 1];
      OptionsOfAll(a[1..], poll);
      assert a == [a[0]] + a[1..];
    }
  }

  /**
   * The store a successful creation produces, spelled out so the consistency
   * proof works on a plain store value; `CreateShape` proves it equal to
   * `CreatePoll`'s result.
   */
  function WithNewPoll(s: Store, input: PollInput): Store {
    var pid := s.nextPollId;
    Store(s.polls[pid := Poll(input.title, input.description, input.expiresAt, true, input.allowMultipleVotes, 0)],
          s.options + NewOptions(pid, s.nextOptionId, input.options),
          s.votes, pid + 1, s.nextOptionId + |input.options|)
  }

  /** A successful `CreatePoll` yields exactly `WithNewPoll`. */
  lemma CreateShape(s: Store, input: PollInput)
    requires CreatePoll(s, input).Ok?
    ensures CreatePoll(s, input).value == WithNewPoll(s, input)
  {
  }

  /** In a consistent store no existing option or vote refers to the next poll id or a later option id. */
  lemma FreshIds(s: Store)
    requires Consistent(s)
    ensures s.nextPollId !in s.polls
    ensures forall i :: 0 <= i < |s.options| ==> s.options[i].poll != s.nextPollId
    ensures forall j :: 0 <= j < |s.votes| ==> s.votes[j].poll in s.polls && s.votes[j].option < s.nextOptionId
  {
    forall j | 0 <= j < |s.votes|
      ensures s.votes[j].poll in s.polls && s.votes[j].option < s.nextOptionId
    {
      var k := FindOption(s.options, s.votes[j].option).value;
      assert s.options[k].poll in s.polls && s.options[k].id < s.nextOptionId;
    }
  }

  lemma WithNewPollConsistent(s: Store, input: PollInput)
    requires Consistent(s)
    ensures Consistent(WithNewPoll(s, input))
  {
    var s' := WithNewPoll(s, input);
    var pid := s.nextPollId;
    var n := |s.options|;
    var rows := NewOptions(pid, s.nextOptionId, input.options);
    FreshIds(s);
    assert OptionsWellFormed(s') by {
      forall i, j | 0 <= i < j < |s'.options|
        ensures s'.options[i].id != s'.options[j].id
        ensures s'.options[i].poll == s'.options[j].poll ==> s'.options[i].order != s'.options[j].order
      {
        if j >= n && i < n {
          assert s'.options[i] == s.options[i];
        }
      }
    }
    assert VotesWellFormed(s') by {
      forall i | 0 <= i < |s.votes|
        ensures OptionPoll(s'.options, s.votes[i].option) == Some(s.votes[i].poll)
      {
        OptionPollAppend(s.options, rows, s.votes[i].option);
      }
    }
    assert CountersAgree(s') by {
      forall i | n <= i < |s'.options|
        ensures s'.options[i].voteCount == Tally(s'.votes, OnOption(s'.options[i].id))
      {
        TallyZeroIffNone(s.votes, OnOption(s'.options[i].id));
      }
      TallyZeroIffNone(s.votes, InPoll(pid));
    }
  }

  /** Creating a poll keeps the store consistent; the new poll and options start with no votes. */
  lemma CreatePreservesConsistent(s: Store, input: PollInput)
    requires Consistent(s) && CreatePoll(s, input).Ok?
    ensures Consistent(CreatePoll(s, input).value)
  {
    CreateShape(s, input);
    WithNewPollConsistent(s, input);
  }

  /**
   * The options of a newly created poll are exactly the submitted texts, in
   * submission order, with display orders 0, 1, ..., n-1 and no votes.
   */
  lemma CreatedOptionsInInputOrder(s: Store, input: PollInput)
    requires Consistent(s) && CreatePoll(s, input).Ok?
    ensures var os := OptionsOf(CreatePoll(s, input).value.options, s.nextPollId);
      && |os| == |input.options|
      && forall i :: 0 <= i < |os| ==> os[i].order == i && os[i].text == input.options[i] && os[i].voteCount == 0
  {
    FreshIds(s);
    CreateShape(s, input);
    NewPollOptions(s, input);
  }

  lemma NewPollOptions(s: Store, input: PollInput)
    requires forall i :: 0 <= i < |s.options| ==> s.options[i].poll != s.nextPollId
    ensures OptionsOf(WithNewPoll(s, input).options, s.nextPollId) == NewOptions(s.nextPollId, s.nextOptionId, input.options)
  {
    var pid := s.nextPollId;
    var rows := NewOptions(pid, s.nextOptionId, input.options);
    OptionsOfConcat(s.options, rows, pid);
    OptionsOfNone(s.options, pid);
    OptionsOfAll(rows, pid);
    assert [] + rows == rows;
  }
}
