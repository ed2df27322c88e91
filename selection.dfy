/**
 * Trial selection: the selected trials whose outcome code lies in a given set,
 * in table order, and the six outcome groups of the reward analysis.
 */
module Selection {
  import opened Seqs
  import opened Tables

  /** Reward delivered, either side / gamble side / safe side. */
  const RewardBoth: set<int> := {5, 7}
  const RewardGamble: set<int> := {5}
  const RewardSafe: set<int> := {7}
  /** No reward, either side / gamble side / safe side. */
  const NoRewardBoth: set<int> := {6, 8}
  const NoRewardGamble: set<int> := {6}
  const NoRewardSafe: set<int> := {8}

  function Matches(codes: set<int>): Trial -> bool
  {
    (t: Trial) => t.select && t.event in codes
  }

  /** The trials with `select` set and an event code in `codes`, in table order. */
  function SelectTrials(trials: seq<Trial>, codes: set<int>): (r: seq<Trial>)
    ensures forall k :: 0 <= k < |r| ==> r[k] in trials && r[k].select && r[k].event in codes
    ensures forall i :: 0 <= i < |trials| && trials[i].select && trials[i].event in codes ==> trials[i] in r
    ensures Ascending(trials) ==> Ascending(r)
  {
    FilterMembers(trials, Matches(codes));
    assert Ascending(trials) ==> Ascending(Filter(trials, Matches(codes))) by {
      if Ascending(trials) {
        FilterAscending(trials, Matches(codes));
      }
    }
    Filter(trials, Matches(codes))
  }

  /**
   * Selecting by a union of disjoint code sets: each part is the order-preserving
   * sub-selection of the union, and the union holds the two parts and nothing else.
   */
  lemma SelectUnion(trials: seq<Trial>, a: set<int>, b: set<int>)
    requires a !! b
    ensures SelectTrials(SelectTrials(trials, a + b), a) == SelectTrials(trials, a)
    ensures SelectTrials(SelectTrials(trials, a + b), b) == SelectTrials(trials, b)
    ensures multiset(SelectTrials(trials, a + b)) == multiset(SelectTrials(trials, a)) + multiset(SelectTrials(trials, b))
  {
    FilterFilter(trials, Matches(a + b), Matches(a), Matches(a));
    FilterFilter(trials, Matches(a + b), Matches(b), Matches(b));
    FilterDisjointUnion(trials, Matches(a), Matches(b), Matches(a + b));
  }

  /** The two "both sides" groups are made of their gamble-side and safe-side groups. */
  lemma BothSidesSplit(trials: seq<Trial>)
    ensures SelectTrials(SelectTrials(trials, RewardBoth), RewardGamble) == SelectTrials(trials, RewardGamble)
    ensures SelectTrials(SelectTrials(trials, RewardBoth), RewardSafe) == SelectTrials(trials, RewardSafe)
    ensures multiset(SelectTrials(trials, RewardBoth))
         == multiset(SelectTrials(trials, RewardGamble)) + multiset(SelectTrials(trials, RewardSafe))
    ensures SelectTrials(SelectTrials(trials, NoRewardBoth), NoRewardGamble) == SelectTrials(trials, NoRewardGamble)
    ensures SelectTrials(SelectTrials(trials, NoRewardBoth), NoRewardSafe) == SelectTrials(trials, NoRewardSafe)
    ensures multiset(SelectTrials(trials, NoRewardBoth))
         == multiset(SelectTrials(trials, NoRewardGamble)) + multiset(SelectTrials(trials, NoRewardSafe))
  {
    assert RewardBoth == RewardGamble + RewardSafe;
    assert NoRewardBoth == NoRewardGamble + NoRewardSafe;
    SelectUnion(trials, RewardGamble, RewardSafe);
    SelectUnion(trials, NoRewardGamble, NoRewardSafe);
  }
}
