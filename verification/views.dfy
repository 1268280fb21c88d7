/**
 * The two endpoints built on the ledger: the vote endpoint, which gates a
 * cast on the poll existing and being votable and maps every failure to an
 * error response, and the results endpoint, which lists a poll's options in
 * display order with their live counters.
 */
module Views {
  import opened Wrappers
  import opened Models
  import opened Tallies
  import opened Serializers
  import opened Ledger

  /* ---------------------------------------------------------------------- */
  /* The vote endpoint                                                       */
  /* ---------------------------------------------------------------------- */

  /** What the vote endpoint answers: created, a bad request with its reason, or not found. */
  datatype Response = Created | BadRequest(reason: Rejection) | NotFound

  /** The response, the store after the request, and the caller's request state afterwards. */
  datatype Reply = Reply(response: Response, store: Store, requester: Requester)

  /**
   * A vote request for `poll` naming `optionId` (`None` when the body has no
   * usable option id). `minted` is the session key the session layer would
   * hand out if the caller has none; `now` is the server clock.
   */
  function VoteOnPoll(s: Store, poll: PollId, optionId: Option<int>, req: Requester, minted: string, now: Time): (r: Reply)
    ensures r.response == NotFound <==> poll !in s.polls
    ensures r.response == BadRequest(VotingClosed) <==> poll in s.polls && !CanVote(s.polls[poll], now)
    ensures r.response.Created? <==>
      && poll in s.polls && CanVote(s.polls[poll], now)
      && optionId.Some? && OptionPoll(s.options, optionId.value) == Some(poll)
      && CastVote(s, poll, optionId.value, ResolveVoter(req, minted).voter).Ok?
    ensures r.response.Created? ==> r.store == CastVote(s, poll, optionId.value, ResolveVoter(req, minted).voter).value
    ensures !r.response.Created? ==> r.store == s
    ensures r.response.Created? ==> KeyOf(r.requester) == Some(ResolveVoter(req, minted).voter)
  {
    if poll !in s.polls then Reply(NotFound, s, req)
    else if !CanVote(s.polls[poll], now) then Reply(BadRequest(VotingClosed), s, req)
    else match optionId
      case None => Reply(BadRequest(OptionIdRequired), s, req)
      case Some(id) =>
        match ValidateOptionId(s, poll, id, now)
        case Err(e) => Reply(BadRequest(e), s, req)
        case Ok(_) =>
          var resolved := ResolveVoter(req, minted);
          match CastVote(s, poll, id, resolved.voter)
          case Err(e) => Reply(BadRequest(TransitionFailed(e)), s, resolved.requester)
          case Ok(s') => Reply(Created, s', resolved.requester)
  }

  /** Every request through the vote endpoint keeps a consistent store consistent. */
  lemma VoteOnPollPreservesConsistent(s: Store, poll: PollId, optionId: Option<int>, req: Requester, minted: string, now: Time)
    requires Consistent(s)
    ensures Consistent(VoteOnPoll(s, poll, optionId, req, minted, now).store)
  {
    var r := VoteOnPoll(s, poll, optionId, req, minted, now);
    if r.response.Created? {
      CastPreservesConsistent(s, poll, optionId.value, ResolveVoter(req, minted).voter);
    }
  }

  /** After a successful vote the poll detail reports that the caller, as the session now stands, has voted. */
  lemma VoteThenHasVoted(s: Store, poll: PollId, optionId: Option<int>, req: Requester, minted: string, now: Time)
    requires VoteOnPoll(s, poll, optionId, req, minted, now).response.Created?
    ensures var r := VoteOnPoll(s, poll, optionId, req, minted, now);
      UserHasVoted(r.store, poll, Some(r.requester))
  {
  }

  /** On a single-vote poll, a caller who has voted gets an error and the store stays as it was. */
  lemma SecondVoteRefused(s: Store, poll: PollId, optionId: int, req: Requester, minted: string, now: Time)
    requires poll in s.polls && !s.polls[poll].allowMultipleVotes
    requires UserHasVoted(s, poll, Some(req))
    ensures var r := VoteOnPoll(s, poll, Some(optionId), req, minted, now);
      r.response.BadRequest? && r.store == s
  {
  }

  /* ---------------------------------------------------------------------- */
  /* The results endpoint                                                    */
  /* ---------------------------------------------------------------------- */

  ghost predicate SortedByOrder(rows: seq<PollOption>) {
    forall i, j :: 0 <= i < j < |rows| ==> rows[i].order <= rows[j].order
  }

  /** Putting a row no later than every row of a sorted sequence in front keeps it sorted. */
  lemma SortedCons(head: PollOption, tail: seq<PollOption>)
    requires SortedByOrder(tail)
    requires forall x :: x in tail ==> head.order <= x.order
    ensures SortedByOrder([head] + tail)
  {
    var r := [head] + tail;
    forall i, j | 0 <= i < j < |r| ensures r[i].order <= r[j].order {
      assert r[j] == tail[j - 1];
      if i > 0 {
        assert r[i] == tail[i - 1];
      } else {
        assert r[j] in tail;
      }
    }
  }

  /** A non-empty sorted sequence starts with a least row and continues with a sorted one. */
  lemma SortedSplit(sorted: seq<PollOption>)
    requires SortedByOrder(sorted) && |sorted| > 0
    ensures SortedByOrder(sorted[1..])
    ensures forall x :: x in sorted ==> sorted[0].order <= x.order
  {
    var rest := sorted[1..];
    forall i, j | 0 <= i < j < |rest| ensures rest[i].order <= rest[j].order {
      assert rest[i] == sorted[i + 1] && rest[j] == sorted[j + 1];
    }
    forall x | x in sorted ensures sorted[0].order <= x.order {
      var k :| 0 <= k < |sorted| && sorted[k] == x;
    }
  }

  function InsertByOrder(o: PollOption, sorted: seq<PollOption>): (r: seq<PollOption>)
    requires SortedByOrder(sorted)
    ensures forall x :: x in r <==> x == o || x in sorted
    ensures SortedByOrder(r)
    ensures multiset(r) == multiset(sorted) + multiset{o}
  {
    if |sorted| == 0 then [o]
    else
      SortedSplit(sorted);
      if o.order <= sorted[0].order then
        SortedCons(o, sorted);
        [o] + sorted
      else
        var head, rest := sorted[0], sorted[1..];
        assert sorted == [head] + rest;
        var tail := InsertByOrder(o, rest);
        SortedCons(head, tail);
        assert multiset([head] + tail) == multiset{head} + multiset(tail);
        assert forall x :: x in [head] + tail <==> x == head || x in tail;
        [head] + tail
  }

  /** The rows sorted by display order: a permutation of the input, ascending in `order`. */
  function SortByOrder(rows: seq<PollOption>): (r: seq<PollOption>)
    ensures SortedByOrder(r)
    ensures multiset(r) == multiset(rows)
  {
    if |rows| == 0 then []
    else
      assert rows == [rows[0]] + rows[1..];
      InsertByOrder(rows[0], SortByOrder(rows[1..]))
  }

  /** The options of `poll` in display order (`poll.options.all().order_by('order')`). */
  function OrderedOptions(s: Store, poll: PollId): (r: seq<PollOption>)
    ensures SortedByOrder(r)
    ensures |r| == |OptionsOf(s.options, poll)|
    ensures forall o :: o in r <==> o in s.options && o.poll == poll
  {
    var mine := OptionsOf(s.options, poll);
    var r := SortByOrder(mine);
    assert forall o :: o in r <==> o in multiset(mine);
    r
  }

  /** No row occurs twice. */
  ghost predicate NoDuplicates(rows: seq<PollOption>) {
    forall i, j :: 0 <= i < j < |rows| ==> rows[i] != rows[j]
  }

  /** A sequence has no duplicates exactly when no element occurs twice in its multiset. */
  lemma {:induction false} NoDuplicatesIffMultiplicity(rows: seq<PollOption>)
    ensures NoDuplicates(rows) <==> forall x :: multiset(rows)[x] <= 1
  {
    if |rows| > 0 {
      var rest := rows[1..];
      assert rows == [rows[0]] + rest;
      assert multiset(rows) == multiset{rows[0]} + multiset(rest);
      NoDuplicatesIffMultiplicity(rest);
      assert forall i :: 0 <= i < |rest| ==> rest[i] == rows[i + 1];
      if NoDuplicates(rows) {
        assert rows[0] !in rest;
        assert NoDuplicates(rest);
      }
      if forall x :: multiset(rows)[x] <= 1 {
        assert forall x :: multiset(rest)[x] <= multiset(rows)[x];
        assert multiset(rest)[rows[0]] == 0;
        assert rows[0] !in rest;
      }
    }
  }

  /** Keeping the options of one poll keeps them free of duplicates. */
  lemma {:induction false} OptionsOfNoDuplicates(options: seq<PollOption>, poll: PollId)
    requires NoDuplicates(options)
    ensures NoDuplicates(OptionsOf(options, poll))
  {
    if |options| > 0 {
      var rest := options[1..];
      assert forall i :: 0 <= i < |rest| ==> rest[i] == options[i + 1];
      assert options[0] !in rest;
      OptionsOfNoDuplicates(rest, poll);
      var tail := OptionsOf(rest, poll);
      assert options[0] !in tail;
      if options[0].poll == poll {
        assert OptionsOf(options, poll) == [options[0]] + tail;
        forall i, j | 0 <= i < j < |[options[0]] + tail|
          ensures ([options[0]] + tail)[i] != ([options[0]] + tail)[j]
        {
          if i == 0 {
            assert ([options[0]] + tail)[j] == tail[j - 1];
          }
        }
      } else {
        assert OptionsOf(options, poll) == tail;
      }
    }
  }

  lemma OrderedOptionsNoDuplicates(s: Store, poll: PollId)
    requires OptionIdsDistinct(s.options)
    ensures NoDuplicates(OrderedOptions(s, poll))
  {
    var mine := OptionsOf(s.options, poll);
    OptionsOfNoDuplicates(s.options, poll);
    NoDuplicatesIffMultiplicity(mine);
    NoDuplicatesIffMultiplicity(OrderedOptions(s, poll));
  }

  /** In display order, a consistent store lists a poll's options each once, with strictly rising orders. */
  lemma OrderedOptionsStrict(s: Store, poll: PollId)
    requires Consistent(s)
    ensures var ordered := OrderedOptions(s, poll);
      forall i, j :: 0 <= i < j < |ordered| ==> ordered[i].order < ordered[j].order
  {
    OrderedOptionsNoDuplicates(s, poll);
    SortedDistinctIsStrict(s.options, poll, OrderedOptions(s, poll));
  }

  lemma SortedDistinctIsStrict(options: seq<PollOption>, poll: PollId, ordered: seq<PollOption>)
    requires OrdersDistinct(options) && SortedByOrder(ordered) && NoDuplicates(ordered)
    requires forall o :: o in ordered ==> o in options && o.poll == poll
    ensures forall i, j :: 0 <= i < j < |ordered| ==> ordered[i].order < ordered[j].order
  {
    forall i, j | 0 <= i < j < |ordered|
      ensures ordered[i].order < ordered[j].order
    {
      assert ordered[i] in ordered && ordered[j] in ordered;
      if ordered[i].order == ordered[j].order {
        SameOrderSameRow(options, ordered[i], ordered[j]);
      }
    }
  }

  /** Under the `(poll, order)` constraint, two rows of one poll with the same order are the same row. */
  lemma SameOrderSameRow(options: seq<PollOption>, x: PollOption, y: PollOption)
    requires OrdersDistinct(options)
    requires x in options && y in options && x.poll == y.poll && x.order == y.order
    ensures x == y
  {
    var a :| 0 <= a < |options| && options[a] == x;
    var b :| 0 <= b < |options| && options[b] == y;
  }

  /** The share of the poll's votes an option holds, in percent; zero while the poll has no votes. */
  function Percentage(count: nat, total: nat): real {
    if total == 0 then 0.0 else (count as real / total as real) * 100.0
  }

  /** A share never exceeds the whole. */
  lemma PercentageBounded(count: nat, total: nat)
    requires count <= total
    ensures 0.0 <= Percentage(count, total) <= 100.0
  {
    if total > 0 {
      assert count as real / total as real <= 1.0;
    }
  }

  datatype ResultRow = ResultRow(optionId: OptionId, text: string, voteCount: nat, percentage: real)

  datatype Results = Results(pollId: PollId, title: string, totalVotes: nat, rows: seq<ResultRow>)

  /**
   * The results of `poll`: its total and, for each of its options in display
   * order, the option's id, text, current counter and share.
   */
  function PollResults(s: Store, poll: PollId): (r: Option<Results>)
    ensures r.None? <==> poll !in s.polls
    ensures r.Some? ==> r.value.pollId == poll && r.value.title == s.polls[poll].title
    ensures r.Some? ==> r.value.totalVotes == s.polls[poll].totalVotes
    ensures r.Some? ==> var ordered := OrderedOptions(s, poll);
      && |r.value.rows| == |ordered|
      && forall i :: 0 <= i < |ordered| ==>
           && r.value.rows[i].optionId == ordered[i].id
           && r.value.rows[i].text == ordered[i].text
           && r.value.rows[i].voteCount == ordered[i].voteCount
    ensures r.Some? && r.value.totalVotes == 0 ==> forall i :: 0 <= i < |r.value.rows| ==> r.value.rows[i].percentage == 0.0
  {
    if poll !in s.polls then None
    else
      var p := s.polls[poll];
      var ordered := OrderedOptions(s, poll);
      var rows := seq(|ordered|, i requires 0 <= i < |ordered| =>
        ResultRow(ordered[i].id, ordered[i].text, ordered[i].voteCount, Percentage(ordered[i].voteCount, p.totalVotes)));
      Some(Results(poll, p.title, p.totalVotes, rows))
  }

  /**
   * In a consistent store the results list the options of the poll in
   * strictly increasing display order, each option at most once, and every
   * share lies between 0 and 100 percent.
   */
  lemma ResultsWellFormed(s: Store, poll: PollId)
    requires Consistent(s) && poll in s.polls
    ensures var ordered := OrderedOptions(s, poll);
      forall i, j :: 0 <= i < j < |ordered| ==> ordered[i].order < ordered[j].order
    ensures var rows := PollResults(s, poll).value.rows;
      forall i :: 0 <= i < |rows| ==> 0.0 <= rows[i].percentage <= 100.0
  {
    var ordered := OrderedOptions(s, poll);
    var total := s.polls[poll].totalVotes;
    OrderedOptionsStrict(s, poll);
    var rows := PollResults(s, poll).value.rows;
    forall i | 0 <= i < |rows|
      ensures 0.0 <= rows[i].percentage <= 100.0
    {
      assert ordered[i] in s.options;
      var a :| 0 <= a < |s.options| && s.options[a] == ordered[i];
      CountWithinTotal(s, a);
      PercentageBounded(ordered[i].voteCount, total);
    }
  }
}
