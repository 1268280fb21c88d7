/**
 * Worked runs of the service on a two-option Red/Blue poll, voted on twice
 * by the same signed-in user, once with multiple votes disallowed and once
 * with them allowed; a first vote by an anonymous caller; a vote after the
 * poll's expiry; and a vote naming an option of another poll. Every store a
 * vote is cast on is one that poll creation, starting from an empty store,
 * and the earlier votes produce.
 */
module Scenarios {
  import opened Wrappers
  import opened Models
  import opened Serializers
  import opened Views

  const Red := PollOption(1, 1, "Red", 0, 0)
  const Blue := PollOption(2, 1, "Blue", 1, 0)

  function ColourInput(allowMultiple: bool): PollInput {
    PollInput("Favourite colour", "", None, allowMultiple, ["Red", "Blue"])
  }

  function ColourPollRow(allowMultiple: bool, total: nat): Poll {
    Poll("Favourite colour", "", None, true, allowMultiple, total)
  }

  /** Creating the Red/Blue poll in an empty store yields poll 1 with options 1 and 2, in that order. */
  lemma CreateColourPoll(allowMultiple: bool)
    ensures CreatePoll(EmptyStore(), ColourInput(allowMultiple))
            == Ok(Store(map[1 := ColourPollRow(allowMultiple, 0)], [Red, Blue], [], 2, 3))
  {
    var texts := ["Red", "Blue"];
    assert ValidText(texts[0]) && ValidText(texts[1]);
    assert texts[0] != texts[1];
    assert AcceptableOptions(texts);
    assert NewOptions(1, 1, texts) == [Red, Blue];
  }

  /** User 7 votes Red on the fresh poll: one row, Red and the total at 1. */
  lemma FirstRedVote(allowMultiple: bool)
    ensures VoteOnPoll(Store(map[1 := ColourPollRow(allowMultiple, 0)], [Red, Blue], [], 2, 3),
                       1, Some(1), Authenticated(7), "fresh", 0)
            == Reply(Created,
                     Store(map[1 := ColourPollRow(allowMultiple, 1)], [Red.(voteCount := 1), Blue],
                           [Vote(1, 1, Some(7), None)], 2, 3),
                     Authenticated(7))
  {
    var s := Store(map[1 := ColourPollRow(allowMultiple, 0)], [Red, Blue], [], 2, 3);
    assert FindOption(s.options, 1) == Some(0);
    assert FindVote(s.votes, 1, User(7)).None?;
    assert CastVote(s, 1, 1, User(7)) == Ok(InsertVote(s, 1, 0, User(7)));
  }

  /** Single-vote poll: user 7's second vote, for Blue, is refused and changes nothing. */
  lemma SecondVoteRefusedScenario()
    ensures var s := Store(map[1 := ColourPollRow(false, 1)], [Red.(voteCount := 1), Blue],
                           [Vote(1, 1, Some(7), None)], 2, 3);
      VoteOnPoll(s, 1, Some(2), Authenticated(7), "fresh", 0) == Reply(BadRequest(TransitionFailed(AlreadyVoted)), s, Authenticated(7))
  {
    var s := Store(map[1 := ColourPollRow(false, 1)], [Red.(voteCount := 1), Blue], [Vote(1, 1, Some(7), None)], 2, 3);
    assert FindOption(s.options[1..], 2) == Some(0);
    assert FindOption(s.options, 2) == Some(1);
    assert Matches(s.votes[0], 1, User(7));
    assert VotedIn(s.votes, 1, User(7));
  }

  /** Multiple-vote poll: user 7's second vote moves from Red to Blue; the total stays 1. */
  lemma SecondVoteMovesScenario()
    ensures VoteOnPoll(Store(map[1 := ColourPollRow(true, 1)], [Red.(voteCount := 1), Blue],
                             [Vote(1, 1, Some(7), None)], 2, 3),
                       1, Some(2), Authenticated(7), "fresh", 0)
            == Reply(Created,
                     Store(map[1 := ColourPollRow(true, 1)], [Red, Blue.(voteCount := 1)],
                           [Vote(1, 2, Some(7), None)], 2, 3),
                     Authenticated(7))
  {
    var s := Store(map[1 := ColourPollRow(true, 1)], [Red.(voteCount := 1), Blue], [Vote(1, 1, Some(7), None)], 2, 3);
    assert FindOption(s.options[1..], 2) == Some(0);
    assert FindOption(s.options, 2) == Some(1);
    assert FindOption(s.options, 1) == Some(0);
    assert FindVote(s.votes, 1, User(7)) == Some(0);
    var lowered := s.options[0 := s.options[0].(voteCount := 0)];
    assert lowered == [Red, Blue];
    assert s.votes[0 := s.votes[0].(option := s.options[1].id)] == [Vote(1, 2, Some(7), None)];
    assert MoveVote(s, 0, 1) == Ok(s.(votes := [Vote(1, 2, Some(7), None)], options := Increment(lowered, 1)));
  }

  /** An anonymous caller without a session votes Blue under the minted key and is then reported as having voted. */
  lemma AnonymousScenario()
    ensures var s := Store(map[1 := ColourPollRow(false, 0)], [Red, Blue], [], 2, 3);
      var r := VoteOnPoll(s, 1, Some(2), Anonymous(None), "fresh", 0);
      && r.response == Created
      && r.requester == Anonymous(Some("fresh"))
      && r.store.votes == [Vote(1, 2, None, Some("fresh"))]
      && UserHasVoted(r.store, 1, Some(r.requester))
      && !UserHasVoted(s, 1, Some(Anonymous(None)))
  {
    var s := Store(map[1 := ColourPollRow(false, 0)], [Red, Blue], [], 2, 3);
    assert FindOption(s.options[1..], 2) == Some(0);
    assert FindOption(s.options, 2) == Some(1);
    assert FindVote(s.votes, 1, Session("fresh")).None?;
    var r := VoteOnPoll(s, 1, Some(2), Anonymous(None), "fresh", 0);
    assert r.store.votes[0] == Vote(1, 2, None, Some("fresh"));
    assert Matches(r.store.votes[0], 1, Session("fresh"));
  }

  /** Creating the Red/Blue poll with expiry time 100 in an empty store. */
  lemma CreateExpiringColourPoll()
    ensures CreatePoll(EmptyStore(), PollInput("Favourite colour", "", Some(100), false, ["Red", "Blue"]))
            == Ok(Store(map[1 := ColourPollRow(false, 0).(expiresAt := Some(100))], [Red, Blue], [], 2, 3))
  {
    var texts := ["Red", "Blue"];
    assert ValidText(texts[0]) && ValidText(texts[1]);
    assert texts[0] != texts[1];
    assert AcceptableOptions(texts);
    assert NewOptions(1, 1, texts) == [Red, Blue];
  }

  /** After its expiry the poll refuses votes and nothing changes. */
  lemma ExpiredPollScenario()
    ensures var s := Store(map[1 := ColourPollRow(false, 0).(expiresAt := Some(100))], [Red, Blue], [], 2, 3);
      VoteOnPoll(s, 1, Some(1), Authenticated(7), "fresh", 101) == Reply(BadRequest(VotingClosed), s, Authenticated(7))
  {
  }

  const Apple := PollOption(3, 2, "Apple", 0, 0)
  const Pear := PollOption(4, 2, "Pear", 1, 0)

  function FruitPollRow(): Poll {
    Poll("Favourite fruit", "", None, true, false, 0)
  }

  /** Creating a second poll, Apple/Pear, after the single-vote Red/Blue poll yields poll 2 with options 3 and 4. */
  lemma CreateFruitPoll()
    ensures CreatePoll(Store(map[1 := ColourPollRow(false, 0)], [Red, Blue], [], 2, 3),
                       PollInput("Favourite fruit", "", None, false, ["Apple", "Pear"]))
            == Ok(Store(map[1 := ColourPollRow(false, 0), 2 := FruitPollRow()], [Red, Blue, Apple, Pear], [], 3, 5))
  {
    var texts := ["Apple", "Pear"];
    assert ValidText(texts[0]) && ValidText(texts[1]);
    assert texts[0] != texts[1];
    assert AcceptableOptions(texts);
    assert NewOptions(2, 3, texts) == [Apple, Pear];
    assert [Red, Blue] + [Apple, Pear] == [Red, Blue, Apple, Pear];
  }

  /** An option of another poll is refused as not belonging to the poll voted on. */
  lemma ForeignOptionScenario()
    ensures var s := Store(map[1 := ColourPollRow(false, 0), 2 := FruitPollRow()], [Red, Blue, Apple, Pear], [], 3, 5);
      VoteOnPoll(s, 1, Some(3), Authenticated(7), "fresh", 0) == Reply(BadRequest(OptionNotInPoll), s, Authenticated(7))
  {
    var s := Store(map[1 := ColourPollRow(false, 0), 2 := FruitPollRow()], [Red, Blue, Apple, Pear], [], 3, 5);
    assert s.options[2..] == [Apple, Pear];
    assert FindOption(s.options[2..], 3) == Some(0);
    assert FindOption(s.options[1..], 3) == Some(1);
    assert FindOption(s.options, 3) == Some(2);
  }
}
