/**
 * The persistent state of the polling service: polls, their options and the
 * vote rows, with the two denormalised counters (`totalVotes` on a poll,
 * `voteCount` on an option), and the invariant that ties those counters and
 * the database constraints to the vote rows.
 */
module Models {
  import opened Wrappers

  type PollId = int
  type OptionId = int
  type UserId = int

  /** An instant on the server clock; only the order of instants matters. */
  type Time = int

  datatype Poll = Poll(
    title: string,
    description: string,
    expiresAt: Option<Time>,
    isActive: bool,
    allowMultipleVotes: bool,
    totalVotes: nat)

  /** An option row; `(poll, order)` is unique in the store. */
  datatype PollOption = PollOption(
    id: OptionId,
    poll: PollId,
    text: string,
    order: nat,
    voteCount: nat)

  /** A vote row; `user` and `sessionKey` are the two nullable identity columns. */
  datatype Vote = Vote(
    poll: PollId,
    option: OptionId,
    user: Option<UserId>,
    sessionKey: Option<string>)

  /** The identity a vote is keyed on: a signed-in user or an anonymous session. */
  datatype Voter = User(id: UserId) | Session(key: string)

  /**
   * The whole ledger. Option and vote rows are kept in insertion order;
   * `nextPollId` and `nextOptionId` stand for the store's id sequences.
   */
  datatype Store = Store(
    polls: map<PollId, Poll>,
    options: seq<PollOption>,
    votes: seq<Vote>,
    nextPollId: PollId,
    nextOptionId: OptionId)

  /* ---------------------------------------------------------------------- */
  /* Votability                                                              */
  /* ---------------------------------------------------------------------- */

  /** A poll is expired once the clock is strictly past its expiry; without one it never is. */
  predicate IsExpired(p: Poll, now: Time) {
    p.expiresAt.Some? && now > p.expiresAt.value
  }

  predicate CanVote(p: Poll, now: Time) {
    p.isActive && !IsExpired(p, now)
  }

  /** Expiry is permanent: a poll expired at `now` stays expired and closed at every later instant. */
  lemma ExpiryIsPermanent(p: Poll, now: Time, later: Time)
    requires IsExpired(p, now) && now <= later
    ensures IsExpired(p, later) && !CanVote(p, later)
  {
  }

  /* ---------------------------------------------------------------------- */
  /* Voter identity and the two identity columns                             */
  /* ---------------------------------------------------------------------- */

  /** Exactly one of the two identity columns is set. */
  predicate SingleKeyed(v: Vote) {
    v.user.Some? != v.sessionKey.Some?
  }

  /** The identity a vote row records, read back from its columns (the user column wins). */
  function KeyedBy(v: Vote): Option<Voter> {
    if v.user.Some? then Some(User(v.user.value))
    else if v.sessionKey.Some? then Some(Session(v.sessionKey.value))
    else None
  }

  /** The row filter used to find a voter's vote in a poll: poll plus the one column the identity uses. */
  predicate Matches(v: Vote, poll: PollId, voter: Voter) {
    && v.poll == poll
    && match voter
       case User(u) => v.user == Some(u)
       case Session(k) => v.sessionKey == Some(k)
  }

  /** The row written for a first vote: it records exactly one identity column, the voter's. */
  function NewVote(poll: PollId, option: OptionId, voter: Voter): (v: Vote)
    ensures SingleKeyed(v) && KeyedBy(v) == Some(voter)
    ensures v.poll == poll && v.option == option
    ensures Matches(v, poll, voter)
  {
    match voter
    case User(u) => Vote(poll, option, Some(u), None)
    case Session(k) => Vote(poll, option, None, Some(k))
  }

  /** On a row with one identity column, the filter selects exactly the rows keyed by that identity. */
  lemma MatchesIffKeyedBy(v: Vote, poll: PollId, voter: Voter)
    requires SingleKeyed(v)
    ensures Matches(v, poll, voter) <==> v.poll == poll && KeyedBy(v) == Some(voter)
  {
  }

  /* ---------------------------------------------------------------------- */
  /* Lookups                                                                 */
  /* ---------------------------------------------------------------------- */

  /** The position of the first option row with id `id`, if any. */
  function FindOption(options: seq<PollOption>, id: OptionId): (r: Option<nat>)
    ensures r.Some? ==> r.value < |options| && options[r.value].id == id
    ensures r.Some? ==> forall j :: 0 <= j < r.value ==> options[j].id != id
    ensures r.None? ==> forall j :: 0 <= j < |options| ==> options[j].id != id
  {
    if |options| == 0 then None
    else if options[0].id == id then Some(0)
    else match FindOption(options[1..], id)
      case None => None
      case Some(i) => Some(i + 1)
  }

  /** The poll an option id belongs to, if the option exists. */
  function OptionPoll(options: seq<PollOption>, id: OptionId): Option<PollId> {
    match FindOption(options, id)
    case None => None
    case Some(i) => Some(options[i].poll)
  }

  /** The position of the first vote of `voter` in `poll`, if any (`.first()` of the row filter). */
  function FindVote(votes: seq<Vote>, poll: PollId, voter: Voter): (r: Option<nat>)
    ensures r.Some? ==> r.value < |votes| && Matches(votes[r.value], poll, voter)
    ensures r.Some? ==> forall j :: 0 <= j < r.value ==> !Matches(votes[j], poll, voter)
    ensures r.None? ==> forall j :: 0 <= j < |votes| ==> !Matches(votes[j], poll, voter)
  {
    if |votes| == 0 then None
    else if Matches(votes[0], poll, voter) then Some(0)
    else match FindVote(votes[1..], poll, voter)
      case None => None
      case Some(i) => Some(i + 1)
  }

  /** The option rows of `poll`, in store order. */
  function OptionsOf(options: seq<PollOption>, poll: PollId): (r: seq<PollOption>)
    ensures |r| <= |options|
    ensures forall o :: o in r <==> o in options && o.poll == poll
  {
    if |options| == 0 then []
    else (if options[0].poll == poll then [options[0]] else []) + OptionsOf(options[1..], poll)
  }

  /** Some vote row of `poll` is keyed by `voter`. */
  ghost predicate VotedIn(votes: seq<Vote>, poll: PollId, voter: Voter) {
    exists j :: 0 <= j < |votes| && Matches(votes[j], poll, voter)
  }

  /** The search finds a vote exactly when the voter has voted in the poll. */
  lemma FindVoteIffVoted(votes: seq<Vote>, poll: PollId, voter: Voter)
    ensures FindVote(votes, poll, voter).Some? <==> VotedIn(votes, poll, voter)
  {
    var r := FindVote(votes, poll, voter);
    if r.Some? {
      assert Matches(votes[r.value], poll, voter);
    }
  }

  /* ---------------------------------------------------------------------- */
  /* Counting vote rows                                                      */
  /* ---------------------------------------------------------------------- */

  /** Which vote rows are counted: those for an option, those in a poll, or those of one voter in a poll. */
  datatype Criterion = OnOption(option: OptionId) | InPoll(poll: PollId) | ByVoter(poll: PollId, voter: Voter)

  predicate Holds(c: Criterion, v: Vote) {
    match c
    case OnOption(o) => v.option == o
    case InPoll(p) => v.poll == p
    case ByVoter(p, voter) => Matches(v, p, voter)
  }

  /** The number of vote rows that satisfy `c`. */
  function Tally(votes: seq<Vote>, c: Criterion): (n: nat)
    ensures n <= |votes|
  {
    if |votes| == 0 then 0
    else (if Holds(c, votes[0]) then 1 else 0) + Tally(votes[1..], c)
  }

  /** The sum of the `voteCount` counters of the options of `poll`. */
  function SumCounts(options: seq<PollOption>, poll: PollId): nat {
    if |options| == 0 then 0
    else (if options[0].poll == poll then options[0].voteCount else 0) + SumCounts(options[1..], poll)
  }

  /* ---------------------------------------------------------------------- */
  /* The invariant                                                           */
  /* ---------------------------------------------------------------------- */

  /** Option ids are unique. */
  ghost predicate OptionIdsDistinct(options: seq<PollOption>) {
    forall i, j :: 0 <= i < j < |options| ==> options[i].id != options[j].id
  }

  /** The `(poll, order)` uniqueness constraint on options. */
  ghost predicate OrdersDistinct(options: seq<PollOption>) {
    forall i, j :: 0 <= i < j < |options| && options[i].poll == options[j].poll ==> options[i].order != options[j].order
  }

  /** The conditional constraint: at most one row per (poll, user) among rows whose user is set. */
  ghost predicate UniqueUserVotes(votes: seq<Vote>) {
    forall i, j :: 0 <= i < |votes| && 0 <= j < |votes| && i != j && votes[i].poll == votes[j].poll && votes[i].user.Some?
      ==> votes[i].user != votes[j].user
  }

  /** The conditional constraint: at most one row per (poll, session key) among rows whose key is set. */
  ghost predicate UniqueSessionVotes(votes: seq<Vote>) {
    forall i, j :: 0 <= i < |votes| && 0 <= j < |votes| && i != j && votes[i].poll == votes[j].poll && votes[i].sessionKey.Some?
      ==> votes[i].sessionKey != votes[j].sessionKey
  }

  /** Every option belongs to a stored poll, and ids were drawn from the id sequences. */
  ghost predicate OptionsWellFormed(s: Store) {
    && OptionIdsDistinct(s.options)
    && OrdersDistinct(s.options)
    && (forall i :: 0 <= i < |s.options| ==> s.options[i].poll in s.polls && s.options[i].id < s.nextOptionId)
    && (forall p :: p in s.polls ==> p < s.nextPollId)
  }

  /** Every vote points at an option of its own poll, records one identity, and the constraints hold. */
  ghost predicate VotesWellFormed(s: Store) {
    && (forall i :: 0 <= i < |s.votes| ==> OptionPoll(s.options, s.votes[i].option) == Some(s.votes[i].poll))
    && (forall i :: 0 <= i < |s.votes| ==> SingleKeyed(s.votes[i]))
    && UniqueUserVotes(s.votes)
    && UniqueSessionVotes(s.votes)
  }

  /** Each counter equals the number of vote rows it summarises. */
  ghost predicate CountersAgree(s: Store) {
    && (forall i :: 0 <= i < |s.options| ==> s.options[i].voteCount == Tally(s.votes, OnOption(s.options[i].id)))
    && (forall p :: p in s.polls ==> s.polls[p].totalVotes == Tally(s.votes, InPoll(p)))
  }

  /** The invariant every operation of the ledger preserves. */
  ghost predicate Consistent(s: Store) {
    OptionsWellFormed(s) && VotesWellFormed(s) && CountersAgree(s)
  }

  /** The state of a fresh deployment: no polls, no options, no votes. */
  function EmptyStore(): (s: Store)
    ensures Consistent(s)
    ensures s.polls == map[] && s.options == [] && s.votes == []
  {
    Store(map[], [], [], 1, 1)
  }
}
