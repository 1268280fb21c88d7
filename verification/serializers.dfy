/**
 * The request-level operations of the polling service: validating and
 * creating a poll with its options, validating the option a vote names,
 * resolving who is voting, the vote-casting transition itself, and the
 * "has this caller voted" query.
 */
module Serializers {
  import opened Wrappers
  import opened Models

  /* ---------------------------------------------------------------------- */
  /* Poll creation                                                           */
  /* ---------------------------------------------------------------------- */

  const MinOptions: nat := 2
  const MaxOptions: nat := 10
  /** The `max_length` of an option text, in characters. */
  const MaxTextLength: nat := 255

  /** What a client submits to create a poll. */
  datatype PollInput = PollInput(
    title: string,
    description: string,
    expiresAt: Option<Time>,
    allowMultipleVotes: bool,
    options: seq<string>)

  datatype CreateError = InvalidOptionText | TooFewOptions | TooManyOptions | DuplicateOptions

  /** A non-empty option text within the length limit and free of NUL characters. */
  predicate ValidText(t: string) {
    0 < |t| <= MaxTextLength && '\0' !in t
  }

  /** No text occurs twice. */
  ghost predicate Distinct(texts: seq<string>) {
    forall i, j :: 0 <= i < j < |texts| ==> texts[i] != texts[j]
  }

  /** Everything the creation endpoint demands of an option list. */
  ghost predicate AcceptableOptions(texts: seq<string>) {
    && MinOptions <= |texts| <= MaxOptions
    && (forall i :: 0 <= i < |texts| ==> ValidText(texts[i]))
    && Distinct(texts)
  }

  function Elements(texts: seq<string>): set<string> {
    set t | t in texts
  }

  lemma {:induction false} ElementsAtMostLength(texts: seq<string>)
    ensures |Elements(texts)| <= |texts|
  {
    if |texts| > 0 {
      var init := texts[..|texts| - 1];
      assert texts == init + [texts[|texts| - 1]];
      assert Elements(texts) == Elements(init) + {texts[|texts| - 1]};
      ElementsAtMostLength(init);
    }
  }

  /** The duplicate test by cardinality (the set of texts is as large as the list) is pairwise distinctness. */
  lemma {:induction false} DistinctIffSetSize(texts: seq<string>)
    ensures |Elements(texts)| == |texts| <==> Distinct(texts)
  {
    if |texts| > 0 {
      var n := |texts| - 1;
      var init := texts[..n];
      var last := texts[n];
      assert texts == init + [last];
      assert Elements(texts) == Elements(init) + {last};
      DistinctIffSetSize(init);
      ElementsAtMostLength(init);
      if last in init {
        var k :| 0 <= k < n && init[k] == last;
        assert texts[k] == texts[n];
        assert Elements(texts) == Elements(init);
      } else {
        assert |Elements(texts)| == |Elements(init)| + 1;
        if Distinct(init) {
          forall i, j | 0 <= i < j < |texts| ensures texts[i] != texts[j] {
            if j == n {
              assert texts[i] == init[i];
            } else {
              assert texts[i] == init[i] && texts[j] == init[j];
            }
          }
        } else {
          var i, j :| 0 <= i < j < n && init[i] == init[j];
          assert texts[i] == texts[j];
        }
      }
    }
  }

  /**
   * Option-list validation: each text first, then the list length, then the
   * duplicate test `len(value) != len(set(value))`.
   */
  function ValidateOptions(texts: seq<string>): (r: Result<seq<string>, CreateError>)
    ensures r.Ok? <==> AcceptableOptions(texts)
    ensures r.Ok? ==> r.value == texts
    ensures r == Err(TooFewOptions) ==> |texts| < MinOptions
    ensures r == Err(TooManyOptions) ==> |texts| > MaxOptions
    ensures r == Err(DuplicateOptions) ==> !Distinct(texts)
    ensures r == Err(InvalidOptionText) <==> exists i :: 0 <= i < |texts| && !ValidText(texts[i])
  {
    DistinctIffSetSize(texts);
    if exists i | 0 <= i < |texts| :: !ValidText(texts[i]) then Err(InvalidOptionText)
    else if |texts| < MinOptions then Err(TooFewOptions)
    else if |texts| > MaxOptions then Err(TooManyOptions)
    else if |Elements(texts)| != |texts| then Err(DuplicateOptions)
    else Ok(texts)
  }

  /** The option rows written for a new poll, the i-th text getting display order i. */
  function NewOptions(poll: PollId, firstId: OptionId, texts: seq<string>): (r: seq<PollOption>)
    ensures |r| == |texts|
    ensures forall i :: 0 <= i < |r| ==> r[i].order == i && r[i].text == texts[i]
    ensures forall i :: 0 <= i < |r| ==> r[i].poll == poll && r[i].voteCount == 0 && r[i].id == firstId + i
  {
    seq(|texts|, i requires 0 <= i < |texts| => PollOption(firstId + i, poll, texts[i], i, 0))
  }

  /**
   * Creating a poll: validate the option list, then store an active poll
   * with no votes and one option row per text, in input order.
   */
  function CreatePoll(s: Store, input: PollInput): (r: Result<Store, CreateError>)
    ensures r.Ok? <==> AcceptableOptions(input.options)
    ensures r.Err? ==> r.error == ValidateOptions(input.options).error
    ensures r.Ok? ==> r.value.votes == s.votes
    ensures r.Ok? ==> s.nextPollId in r.value.polls && r.value.polls.Keys == s.polls.Keys + {s.nextPollId}
    ensures r.Ok? ==> var p := r.value.polls[s.nextPollId];
      && p.isActive && p.totalVotes == 0
      && p.title == input.title && p.description == input.description
      && p.expiresAt == input.expiresAt && p.allowMultipleVotes == input.allowMultipleVotes
    ensures r.Ok? ==> forall q :: q in s.polls && q != s.nextPollId ==> r.value.polls[q] == s.polls[q]
    ensures r.Ok? ==> |r.value.options| == |s.options| + |input.options| && r.value.options[..|s.options|] == s.options
    ensures r.Ok? ==> forall i :: 0 <= i < |input.options| ==>
      var o := r.value.options[|s.options| + i];
      o.poll == s.nextPollId && o.text == input.options[i] && o.order == i && o.voteCount == 0
  {
    match ValidateOptions(input.options)
    case Err(e) => Err(e)
    case Ok(texts) =>
      var pid := s.nextPollId;
      var poll := Poll(input.title, input.description, input.expiresAt, true, input.allowMultipleVotes, 0);
      var rows := NewOptions(pid, s.nextOptionId, texts);
      Ok(Store(s.polls[pid := poll], s.options + rows, s.votes, pid + 1, s.nextOptionId + |texts|))
  }

  /* ---------------------------------------------------------------------- */
  /* Who is voting                                                           */
  /* ---------------------------------------------------------------------- */

  /** The caller as the request presents it: a signed-in user, or a session that may not have a key yet. */
  datatype Requester = Authenticated(user: UserId) | Anonymous(sessionKey: Option<string>)

  /** The identity a request can be looked up by, if it has one yet. */
  function KeyOf(req: Requester): Option<Voter> {
    match req
    case Authenticated(u) => Some(User(u))
    case Anonymous(None) => None
    case Anonymous(Some(k)) => Some(Session(k))
  }

  /** The identity a vote is keyed on, and the request as it stands afterwards. */
  datatype Resolved = Resolved(voter: Voter, requester: Requester)

  /**
   * The user when signed in, otherwise the session key; a session without a
   * key gets the freshly minted `minted` one.
   */
  function ResolveVoter(req: Requester, minted: string): (r: Resolved)
    ensures KeyOf(r.requester) == Some(r.voter)
    ensures KeyOf(req).Some? ==> r.voter == KeyOf(req).value && r.requester == req
    ensures req.Authenticated? <==> r.voter.User?
    ensures req == Anonymous(None) ==> r.voter == Session(minted)
  {
    match req
    case Authenticated(u) => Resolved(User(u), req)
    case Anonymous(None) => Resolved(Session(minted), Anonymous(Some(minted)))
    case Anonymous(Some(k)) => Resolved(Session(k), req)
  }

  /**
   * Whether the caller of a detail request has voted in `poll`: never
   * without a request or without a session key, otherwise whether a vote
   * row of the poll is keyed by the caller.
   */
  function UserHasVoted(s: Store, poll: PollId, request: Option<Requester>): (r: bool)
    ensures r <==> request.Some? && KeyOf(request.value).Some? && VotedIn(s.votes, poll, KeyOf(request.value).value)
    ensures request.None? || request == Some(Anonymous(None)) ==> !r
  {
    match request
    case None => false
    case Some(req) =>
      match KeyOf(req)
      case None => false
      case Some(voter) =>
        FindVoteIffVoted(s.votes, poll, voter);
        FindVote(s.votes, poll, voter).Some?
  }

  /* ---------------------------------------------------------------------- */
  /* Vote validation                                                         */
  /* ---------------------------------------------------------------------- */

  datatype Rejection = VotingClosed | OptionIdRequired | InvalidOption | OptionNotInPoll | TransitionFailed(error: LedgerError)

  /**
   * Validating the option a vote names against the poll of the request: the
   * option must exist, belong to that poll, and the poll must be votable.
   * The caller has already resolved `poll`.
   */
  function ValidateOptionId(s: Store, poll: PollId, optionId: OptionId, now: Time): (r: Result<OptionId, Rejection>)
    requires poll in s.polls
    ensures r.Ok? <==> OptionPoll(s.options, optionId) == Some(poll) && CanVote(s.polls[poll], now)
    ensures r.Ok? ==> r.value == optionId
    ensures r == Err(InvalidOption) <==> OptionPoll(s.options, optionId).None?
    ensures r == Err(OptionNotInPoll) <==> OptionPoll(s.options, optionId).Some? && OptionPoll(s.options, optionId) != Some(poll)
    ensures r == Err(VotingClosed) <==> OptionPoll(s.options, optionId) == Some(poll) && !CanVote(s.polls[poll], now)
  {
    match FindOption(s.options, optionId)
    case None => Err(InvalidOption)
    case Some(i) =>
      if s.options[i].poll != poll then Err(OptionNotInPoll)
      else if !CanVote(s.polls[poll], now) then Err(VotingClosed)
      else Ok(optionId)
  }

  /* ---------------------------------------------------------------------- */
  /* Casting a vote                                                          */
  /* ---------------------------------------------------------------------- */

  /**
   * Why a vote transition is refused: the option or poll row is missing, a
   * single-vote poll already has the caller's vote, the moved vote's old
   * option row is missing, or a counter would drop below zero (the
   * non-negative counter column refuses the write).
   */
  datatype LedgerError = OptionNotFound | PollNotFound | AlreadyVoted | VoteOptionMissing | CounterUnderflow

  /** `options` with the counter of row `i` raised by one. */
  function Increment(options: seq<PollOption>, i: nat): (r: seq<PollOption>)
    requires i < |options|
    ensures |r| == |options| && r[i].voteCount == options[i].voteCount + 1
  {
    options[i := options[i].(voteCount := options[i].voteCount + 1)]
  }

  /** A first vote: one new row, and the option's and the poll's counters raised by one. */
  function InsertVote(s: Store, poll: PollId, target: nat, voter: Voter): Store
    requires poll in s.polls && target < |s.options|
  {
    var row := NewVote(poll, s.options[target].id, voter);
    var p := s.polls[poll];
    s.(votes := s.votes + [row],
       options := Increment(s.options, target),
       polls := s.polls[poll := p.(totalVotes := p.totalVotes + 1)])
  }

  /**
   * A changed vote: row `existing` is re-pointed at option row `target`; the
   * old option's counter drops by one and the new one's rises by one, in that
   * order, so re-voting the same option nets to no change.
   */
  function MoveVote(s: Store, existing: nat, target: nat): Result<Store, LedgerError>
    requires existing < |s.votes| && target < |s.options|
  {
    var vote := s.votes[existing];
    match FindOption(s.options, vote.option)
    case None => Err(VoteOptionMissing)
    case Some(previous) =>
      var votes := s.votes[existing := vote.(option := s.options[target].id)];
      if s.options[previous].voteCount == 0 then Err(CounterUnderflow)
      else
        var lowered := s.options[previous := s.options[previous].(voteCount := s.options[previous].voteCount - 1)];
        Ok(s.(votes := votes, options := Increment(lowered, target)))
  }

  /**
   * The vote transition, as one atomic step: insert a first vote, refuse a
   * repeat on a single-vote poll, or move the caller's vote on a
   * multiple-vote poll. A failure leaves the store as it was (the result
   * carries no store).
   */
  function CastVote(s: Store, poll: PollId, optionId: OptionId, voter: Voter): (r: Result<Store, LedgerError>)
    ensures r == Err(OptionNotFound) <==> FindOption(s.options, optionId).None?
    ensures r == Err(PollNotFound) <==> FindOption(s.options, optionId).Some? && poll !in s.polls
    ensures r == Err(AlreadyVoted) <==>
      && FindOption(s.options, optionId).Some? && poll in s.polls
      && VotedIn(s.votes, poll, voter) && !s.polls[poll].allowMultipleVotes
    ensures r.Ok? ==> poll in s.polls && VotedIn(r.value.votes, poll, voter)
    ensures r.Ok? ==> r.value.polls.Keys == s.polls.Keys && r.value.nextPollId == s.nextPollId && r.value.nextOptionId == s.nextOptionId
    ensures r.Ok? ==> forall q :: q in s.polls && q != poll ==> r.value.polls[q] == s.polls[q]
  {
    FindVoteIffVoted(s.votes, poll, voter);
    match FindOption(s.options, optionId)
    case None => Err(OptionNotFound)
    case Some(target) =>
      if poll !in s.polls then Err(PollNotFound)
      else
        match FindVote(s.votes, poll, voter)
        case Some(existing) =>
          if !s.polls[poll].allowMultipleVotes then Err(AlreadyVoted)
          else
            var r := MoveVote(s, existing, target);
            assert r.Ok? ==> Matches(r.value.votes[existing], poll, voter);
            r
        case None =>
          var s' := InsertVote(s, poll, target, voter);
          assert Matches(s'.votes[|s.votes|], poll, voter);
          Ok(s')
  }
}
