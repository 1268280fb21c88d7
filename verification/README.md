# Vote ledger of a small polling service, in Dafny

This project models the core of a polling web service. Users create a poll
with 2 to 10 option texts and then cast votes on it. A vote is kept once per
voter and poll, unless the poll allows multiple votes. In that case a voter
may move their vote to another option, but never holds more than one. Each
poll and option also carries a live tally.

The state is a `Store` (module `Models`) with three parts:

- polls, each with an active flag, an optional expiry time, a
  multiple-votes flag and the denormalised `totalVotes` counter;
- option rows, each with its owning poll, text, display `order` and
  denormalised `voteCount`;
- vote rows, each with its poll, its option, and the two nullable identity
  columns: `user` and `sessionKey`.

A voter is either `User(id)` or `Session(key)`. `Consistent` is the
invariant that poll creation and the vote endpoint preserve. It says:

- every counter equals the number of vote rows it summarises;
- every vote points at an option of its own poll;
- every vote records exactly one identity column;
- the two per-poll uniqueness constraints on votes hold;
- the `(poll, order)` uniqueness constraint on options holds.

The modules follow the source files:

- `Models`: rows, votability, lookups and the invariant (`polls/models.py`).
- `Serializers`: poll creation and option validation, voter resolution, the
  vote transition `CastVote` and the has-voted query (`polls/serializers.py`).
- `Views`: the vote endpoint `VoteOnPoll` and the results projection
  `PollResults` (`polls/views.py`).
- `Tallies` and `Ledger`: counting facts, the counter theorem, and the
  decision-table and invariant-preservation lemmas.
- `Scenarios`: worked runs on a Red/Blue poll. Every store a vote is cast on is one that poll creation from an empty store, and the earlier votes, produce.

Each operation is a pure function. A failure returns an error value and no
store, so a refused request leaves the ledger exactly as it was. Time is an
integer parameter. The session key that the session layer would mint for an
anonymous caller without one is also a parameter.

Points of the code that shape the model:

- The vote endpoint checks votability (polls/views.py:55) before the option
  is looked up, so a closed poll is refused whatever option id is sent.
- Nothing in the schema forces exactly one identity column to be set. Only
  the writes in the vote transition (polls/serializers.py:142-145) guarantee
  it, so the model states it as part of the invariant.
- The transition returns the new store only. The vote row that `create`
  returns (polls/serializers.py:133, :155) is discarded by the endpoint.
- A session minted for an anonymous caller (polls/serializers.py:111-112) is
  kept even when the vote is then refused. Minting happens before the
  duplicate check.

## Model

| member | source | states |
|---|---|---|
| Models.ExpiryIsPermanent | polls/models.py:35-37 | once the clock is strictly past the expiry, the poll stays expired and closed at every later instant |
| Models.NewVote | polls/serializers.py:136-147 | a first vote's row records exactly one identity column, reads back as the voter, and is found by that voter's row filter |
| Models.MatchesIffKeyedBy | polls/serializers.py:107-113 | on a row with one identity column, the user or session-key filter selects exactly the rows recorded for that identity |
| Models.FindOption | polls/serializers.py:85 | the lookup by option id returns the first row carrying that id, or nothing when no row has it |
| Models.FindVote | polls/serializers.py:115 | the existing-vote lookup returns the first row matching the poll and identity, or nothing when no row matches |
| Models.FindVoteIffVoted | polls/serializers.py:115 | the lookup finds a vote iff some row of the poll is keyed by the voter |
| Models.OptionsOf | polls/views.py:86 | the options of a poll are exactly the stored options whose owning poll it is |
| Tallies.TotalIsSumOfCounts | polls/serializers.py:128-153 | in a consistent store a poll's total equals the sum of its options' counters and the number of its vote rows |
| Tallies.AtMostOneVotePerVoter | polls/models.py:75-86 | in a consistent store each identity has at most one vote row per poll |
| Tallies.CountWithinTotal | polls/models.py:49 | in a consistent store no option's counter exceeds its poll's total |
| Serializers.ValidateOptions | polls/serializers.py:21-34 | an option list is accepted iff it has 2 to 10 texts, each 1 to 255 characters without a NUL character, none repeated; each rejection names a condition that fails |
| Serializers.DistinctIffSetSize | polls/serializers.py:31-33 | the duplicate test by set size detects exactly the lists with a repeated text |
| Serializers.CreatePoll | polls/serializers.py:36-43 | creation succeeds iff the option list is acceptable; it adds one active poll with no votes and one option per text, and leaves existing polls, options and votes untouched |
| Serializers.ResolveVoter | polls/serializers.py:107-113 | the voter is the user when signed in, else the session key, and the minted key only when the session had none; the request afterwards is keyed by that voter |
| Serializers.UserHasVoted | polls/serializers.py:61-73 | true iff there is a request with an identity and a vote row of the poll keyed by it; false without a request or a session key |
| Serializers.ValidateOptionId | polls/serializers.py:83-96 | the option is accepted iff it exists, belongs to the poll and the poll can be voted on; each of the three failures is reported exactly when its condition holds |
| Serializers.CastVote | polls/serializers.py:98-155 | missing option, missing poll, and a repeat on a single-vote poll each fail exactly when they occur; on success the voter has a vote in the poll and other polls are unchanged |
| Ledger.FirstVoteInserts | polls/serializers.py:134-155 | a first vote adds exactly one row keyed by the voter and raises the option's counter and the poll's total by one; nothing else changes |
| Ledger.ChangedVoteMoves | polls/serializers.py:121-133 | on a multiple-vote poll the existing vote is re-pointed, no row is added, the total is unchanged, the old option loses one and the new one gains one |
| Ledger.SameOptionRevoteIsNoOp | polls/serializers.py:128-131 | re-voting the option already held on a multiple-vote poll leaves the whole store unchanged |
| Ledger.CastNeverUnderflows | polls/serializers.py:123-129 | in a consistent store the old option of a moved vote exists and holds at least one vote, so no counter goes negative |
| Ledger.CastPreservesConsistent | polls/serializers.py:98-155 | casting a vote for an option of the poll keeps counters equal to row counts and keeps each identity to one row per poll |
| Ledger.CreatePreservesConsistent | polls/serializers.py:36-43 | creating a poll keeps the store consistent, including distinct option ids and distinct orders per poll |
| Ledger.CreatedOptionsInInputOrder | polls/serializers.py:40-41 | the new poll's options are the submitted texts in order, with orders exactly 0..n-1 and no votes |
| Views.VoteOnPoll | polls/views.py:51-79 | unknown poll gives not-found; a closed poll is refused before anything else, and voting-closed is answered exactly when the poll exists and is closed; success is reported iff validation passes and the transition completes, and every other outcome leaves the store unchanged |
| Views.VoteOnPollPreservesConsistent | polls/views.py:51-79 | every request through the vote endpoint keeps a consistent store consistent |
| Views.VoteThenHasVoted | polls/serializers.py:61-73 | after a successful vote the has-voted query is true for the caller as their session now stands |
| Views.SecondVoteRefused | polls/serializers.py:115-118 | on a single-vote poll a caller who has voted gets an error response and the store stays as it was |
| Views.SortByOrder | polls/views.py:86 | the options are returned as a permutation of the input in ascending display order |
| Views.OrderedOptions | polls/views.py:86 | the results list exactly the poll's options, in ascending display order |
| Views.OrderedOptionsStrict | polls/models.py:54 | in a consistent store the listed options have strictly increasing orders, so each appears once |
| Views.PercentageBounded | polls/views.py:90-92 | a share of at most the whole lies between 0 and 100 percent |
| Views.PollResults | polls/views.py:83-106 | results exist iff the poll does; they carry the poll's total, and each row carries the id, text and current counter of the option at that display position; with a zero total every share is 0 |
| Views.ResultsWellFormed | polls/views.py:86-99 | in a consistent store the rows follow strictly increasing display order and every share is between 0 and 100 percent |
| Scenarios.CreateColourPoll | polls/serializers.py:36-43 | creating the Red/Blue poll in an empty store yields poll 1 with option rows 1 and 2 at display orders 0 and 1, no votes and a zero total |
| Scenarios.FirstRedVote | polls/serializers.py:134-155 | a signed-in user's first vote adds one row keyed by the user and raises Red and the poll total to 1 |
| Scenarios.SecondVoteRefusedScenario | polls/serializers.py:115-118 | on a single-vote poll the same user's second vote is answered 400 "already voted" and the store is unchanged |
| Scenarios.SecondVoteMovesScenario | polls/serializers.py:121-133 | on a multiple-vote poll the second vote re-points the row to Blue, Red drops to 0, Blue rises to 1 and the total stays 1 |
| Scenarios.AnonymousScenario | polls/serializers.py:110-113 | an anonymous caller without a session votes under the minted key, and is then reported as having voted |
| Scenarios.CreateExpiringColourPoll | polls/serializers.py:36-43 | creating the Red/Blue poll with an expiry time stores that expiry on poll 1 and otherwise yields the same store as without one |
| Scenarios.ExpiredPollScenario | polls/models.py:35-41 | a vote after the poll's expiry is refused as voting closed and changes nothing |
| Scenarios.CreateFruitPoll | polls/serializers.py:36-43 | creating a second two-option poll gives it the next poll id and the next two option ids, at orders 0 and 1, after the existing rows |
| Scenarios.ForeignOptionScenario | polls/serializers.py:83-89 | an option id of another poll is refused as not belonging to the poll and changes nothing |

## Left out

- Concurrency and locking (`select_for_update`, `F()` increments, `transaction.atomic`). Each cast is one atomic transition and interleavings are not modelled.
- Serializers.CastVote: the duplicate check at polls/serializers.py:115-118 runs outside the atomic block in the source. The model treats the check and the write as one step, so it does not show the race between two first votes.
- Views.PollResults: the share is the exact rational value. The source rounds it to two decimals as a float, and the rounding is not modelled.
- The same share on the poll-detail option list (polls/serializers.py:14-17) is the same computation and is not modelled separately.
- HTTP plumbing. Responses are reduced to created, bad request with a reason, and not found. A request body without a usable integer `option_id` becomes `None`.
- The framework's whitespace handling for option texts: trimming, and refusal of whitespace-only texts. The model requires 1 to 255 characters as given, with no NUL character, which the framework's text field also refuses. Title and description validation is also left out.
- Poll ownership, including the anonymous-account fallback in `perform_create` (polls/views.py:23-32). That code creates user accounts; it does not touch the ledger.
- Generic poll CRUD (`PollDetailView`), the active-poll listing, deactivation, cascade deletion, timestamps, `ip_address` and `__str__`.
- Consistent: the invariant, and with it `Tallies.TotalIsSumOfCounts`, holds only for stores reached through poll creation and the vote endpoint. The program has two other paths that can break it. The poll update endpoint (polls/views.py:35-38, with polls/serializers.py:46-59 declaring no read-only fields) lets a client write `total_votes` directly. Deleting a user account cascades to that user's vote rows (polls/models.py:64) and does not lower `vote_count` or `total_votes`. Neither path is modelled.
- How session keys are minted. The minted key is a parameter. The server clock is a parameter, read once per request. The source reads it separately in the view and in the serializer.
- The upper bounds of the counter and order columns. Counters are unbounded naturals, and their non-negativity check is modelled as the `CounterUnderflow` error.
- Ids come from two counters in the store. They stand for the database's id sequences.
- Errors from the database itself (lost connections, deadlocks) and retrying after them.
