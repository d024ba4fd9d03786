/** Board voting in both portal front-ends: the vote table of `main.py`
    (the user's row plus simulated members) with its per-question
    statistics, and the question-major vote list of `demo_ui.py` with its
    statistics. The random draws are passed in as a function. */
module Voting {

  import opened Common
  import Text

  const Yes := "Yes"
  const No := "No"
  const Abstain := "Abstain"

  const Passed := "Motion Passed"
  const Failed := "Motion Failed"

  /** One of the three radio choices. */
  predicate IsOption(v: string) {
    v == Yes || v == No || v == Abstain
  }

  /** How often `v` appears among `votes`. */
  function Count(votes: seq<string>, v: string): (n: nat)
    ensures n <= |votes|
    decreases |votes|
  {
    if |votes| == 0 then 0
    else (if votes[0] == v then 1 else 0) + Count(votes[1..], v)
  }

  /** The count is the multiplicity of the vote in the multiset of votes. */
  lemma {:induction false} CountIsMultiplicity(votes: seq<string>, v: string)
    ensures Count(votes, v) == multiset(votes)[v]
    decreases |votes|
  {
    if |votes| > 0 {
      CountIsMultiplicity(votes[1..], v);
      assert votes == [votes[0]] + votes[1..];
      assert multiset(votes) == multiset{votes[0]} + multiset(votes[1..]);
    }
  }

  datatype Tally = Tally(yes: nat, no: nat, abstain: nat)

  /** The Yes/No/Abstain counts of one question's votes; any other value
      is counted nowhere, like a missing key of `value_counts()`. */
  function TallyOf(votes: seq<string>): (t: Tally)
    ensures t.yes == multiset(votes)[Yes]
    ensures t.no == multiset(votes)[No]
    ensures t.abstain == multiset(votes)[Abstain]
  {
    CountIsMultiplicity(votes, Yes);
    CountIsMultiplicity(votes, No);
    CountIsMultiplicity(votes, Abstain);
    Tally(Count(votes, Yes), Count(votes, No), Count(votes, Abstain))
  }

  /** When every vote is one of the three choices, the tally accounts for
      all of them. */
  lemma {:induction false} TallyCoversAllVotes(votes: seq<string>)
    requires forall i :: 0 <= i < |votes| ==> IsOption(votes[i])
    ensures var t := TallyOf(votes); t.yes + t.no + t.abstain == |votes|
    decreases |votes|
  {
    if |votes| > 0 {
      TallyCoversAllVotes(votes[1..]);
      var t := TallyOf(votes);
      var t' := TallyOf(votes[1..]);
      assert t.yes == Count(votes, Yes) && t'.yes == Count(votes[1..], Yes);
      assert t.no == Count(votes, No) && t'.no == Count(votes[1..], No);
      assert t.abstain == Count(votes, Abstain) && t'.abstain == Count(votes[1..], Abstain);
    }
  }

  /** The motion rule: it passes exactly when Yes strictly beats No. */
  function Motion(t: Tally): (m: string)
    ensures m == Passed || m == Failed
    ensures m == Passed <==> t.yes > t.no
  {
    if t.yes > t.no then Passed else Failed
  }

  /** A tie fails the motion. */
  lemma TieFails(t: Tally)
    requires t.yes == t.no
    ensures Motion(t) == Failed
  {
  }

  datatype QuestionStats = QuestionStats(tally: Tally, motion: string)

  function StatsOf(votes: seq<string>): QuestionStats {
    QuestionStats(TallyOf(votes), Motion(TallyOf(votes)))
  }

  // ------------------------------------------------------- main.py table

  /** The row label of the i-th simulated member. */
  function MemberName(i: nat): string {
    "Board Member " + Text.NatToString(i)
  }

  /** Row labels never collide: "You" and every "Board Member i" differ. */
  lemma MemberNamesDistinct(i: nat, j: nat)
    ensures MemberName(i) == MemberName(j) ==> i == j
    ensures MemberName(i) != "You"
  {
    if MemberName(i) == MemberName(j) {
      var p := "Board Member ";
      assert Text.NatToString(i) == MemberName(i)[|p|..];
      assert Text.NatToString(j) == MemberName(j)[|p|..];
      Text.NatToStringInjective(i, j);
    }
    assert |MemberName(i)| > 3;
  }

  /** One row of the vote table: the member and their vote per question. */
  datatype Ballot = Ballot(member: string, votes: map<string, string>)

  /** `simulate_voting_with_user`: the "You" row takes the user's vote per
      question, "Abstain" when none was given; member `i` (1-based) votes
      `draw(i, q)`. */
  function SimulateVotingWithUser(questions: seq<string>, userVotes: map<string, string>,
                                  numSimulated: nat, draw: (nat, string) -> string): (table: seq<Ballot>)
    ensures |table| == numSimulated + 1
    ensures table[0].member == "You"
    ensures forall i :: 0 <= i < |table| ==> table[i].votes.Keys == set q | q in questions
    ensures forall q :: q in questions && q in userVotes ==> table[0].votes[q] == userVotes[q]
    ensures forall q :: q in questions && q !in userVotes ==> table[0].votes[q] == Abstain
    ensures forall i :: 1 <= i < |table| ==> table[i].member == MemberName(i)
    ensures forall i, q :: 1 <= i < |table| && q in questions ==> table[i].votes[q] == draw(i, q)
  {
    [Ballot("You", map q | q in questions :: if q in userVotes then userVotes[q] else Abstain)]
    + seq(numSimulated, i requires 0 <= i < numSimulated =>
            Ballot(MemberName(i + 1), map q | q in questions :: draw(i + 1, q)))
  }

  /** The column of question `q`: the votes of the rows that have one, in
      row order (a missing cell is NaN, which `value_counts` drops). */
  function Column(table: seq<Ballot>, q: string): (col: seq<string>)
    ensures |col| <= |table|
    decreases |table|
  {
    if |table| == 0 then []
    else (if q in table[0].votes then [table[0].votes[q]] else []) + Column(table[1..], q)
  }

  /** A question every row answers has one cell per row. */
  lemma {:induction false} ColumnOfFullTable(table: seq<Ballot>, q: string)
    requires forall i :: 0 <= i < |table| ==> q in table[i].votes
    ensures |Column(table, q)| == |table|
    ensures forall i :: 0 <= i < |table| ==> Column(table, q)[i] == table[i].votes[q]
    decreases |table|
  {
    if |table| > 0 {
      ColumnOfFullTable(table[1..], q);
    }
  }

  /** `calculate_dashboard_stats` over the table's columns. */
  function CalculateDashboardStats(table: seq<Ballot>, columns: seq<string>): (stats: map<string, QuestionStats>)
    ensures stats.Keys == set q | q in columns
    ensures forall q :: q in stats ==>
              && stats[q].tally.yes == multiset(Column(table, q))[Yes]
              && stats[q].tally.no == multiset(Column(table, q))[No]
              && stats[q].tally.abstain == multiset(Column(table, q))[Abstain]
              && (stats[q].motion == Passed <==> stats[q].tally.yes > stats[q].tally.no)
  {
    map q | q in columns :: StatsOf(Column(table, q))
  }

  /** On the simulated table every question is voted on by every row, so
      its three counts add up to the number of members plus the user. */
  lemma DashboardCountsEveryRow(questions: seq<string>, userVotes: map<string, string>,
                                numSimulated: nat, draw: (nat, string) -> string, q: string)
    requires q in questions
    requires q in userVotes ==> IsOption(userVotes[q])
    requires forall i :: 1 <= i <= numSimulated ==> IsOption(draw(i, q))
    ensures var table := SimulateVotingWithUser(questions, userVotes, numSimulated, draw);
            var s := CalculateDashboardStats(table, questions)[q];
            s.tally.yes + s.tally.no + s.tally.abstain == numSimulated + 1
  {
    var table := SimulateVotingWithUser(questions, userVotes, numSimulated, draw);
    ColumnOfFullTable(table, q);
    var col := Column(table, q);
    assert forall i :: 0 <= i < |col| ==> IsOption(col[i]) by {
      forall i | 0 <= i < |col| ensures IsOption(col[i]) {
        assert col[i] == table[i].votes[q];
      }
    }
    TallyCoversAllVotes(col);
  }

  // --------------------------------------------------- demo_ui.py vote list

  /** One entry of the `demo_ui.py` vote list. */
  datatype VoteEntry = VoteEntry(member: string, question: string, vote: string)

  /** `simulate_random_votes`: ten entries per question, question-major,
      members "Board Member 1" to "Board Member 10"; `draw(q, i)` is the
      i-th draw for the q-th question. */
  method SimulateRandomVotes(questions: seq<string>, draw: (nat, nat) -> string)
    returns (entries: seq<VoteEntry>)
    ensures |entries| == 10 * |questions|
    ensures forall k :: 0 <= k < |entries| ==>
              entries[k] == VoteEntry(MemberName(k % 10 + 1), questions[k / 10], draw(k / 10, k % 10))
  {
    entries := [];
    var q := 0;
    while q < |questions|
      invariant 0 <= q <= |questions|
      invariant |entries| == 10 * q
      invariant forall k :: 0 <= k < |entries| ==>
                  entries[k] == VoteEntry(MemberName(k % 10 + 1), questions[k / 10], draw(k / 10, k % 10))
    {
      var i := 0;
      while i < 10
        invariant 0 <= i <= 10
        invariant |entries| == 10 * q + i
        invariant forall k :: 0 <= k < |entries| ==>
                    entries[k] == VoteEntry(MemberName(k % 10 + 1), questions[k / 10], draw(k / 10, k % 10))
      {
        assert (10 * q + i) / 10 == q && (10 * q + i) % 10 == i;
        entries := entries + [VoteEntry(MemberName(i + 1), questions[q], draw(q, i))];
        i := i + 1;
      }
      q := q + 1;
    }
  }

  /** The votes cast on question `q`, in list order. */
  function VotesOn(entries: seq<VoteEntry>, q: string): (votes: seq<string>)
    ensures |votes| <= |entries|
    decreases |entries|
  {
    if |entries| == 0 then []
    else (if entries[0].question == q then [entries[0].vote] else []) + VotesOn(entries[1..], q)
  }

  /** `calculate_vote_statistics`: one entry per question that received a
      vote; an empty list raises (grouping a frame with no columns), modelled
      as None. */
  function CalculateVoteStatistics(entries: seq<VoteEntry>): (stats: Option<map<string, QuestionStats>>)
    ensures stats.None? <==> |entries| == 0
    ensures stats.Some? ==> stats.value.Keys == set k | 0 <= k < |entries| :: entries[k].question
    ensures stats.Some? ==> forall q :: q in stats.value ==>
              && stats.value[q].tally.yes == multiset(VotesOn(entries, q))[Yes]
              && stats.value[q].tally.no == multiset(VotesOn(entries, q))[No]
              && stats.value[q].tally.abstain == multiset(VotesOn(entries, q))[Abstain]
              && (stats.value[q].motion == Passed <==> stats.value[q].tally.yes > stats.value[q].tally.no)
  {
    if |entries| == 0 then None
    else Some(map q | q in (set k | 0 <= k < |entries| :: entries[k].question) :: StatsOf(VotesOn(entries, q)))
  }
}
