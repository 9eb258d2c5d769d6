/** The running totals of finished games: `GameStats`. */
module Stats {

  /** The three keys of the `stats` dictionary. */
  const Labels: set<string> := {"X", "O", "Tie"}

  /** `{'X': 0, 'O': 0, 'Tie': 0}` */
  function Zero(): map<string, nat> {
    map["X" := 0, "O" := 0, "Tie" := 0]
  }

  /** `stats[result] += 1`: that counter goes up by one, no key is added and
      no other counter changes. */
  function Bump(m: map<string, nat>, result: string): (r: map<string, nat>)
    requires result in m
    ensures r.Keys == m.Keys && r[result] == m[result] + 1
    ensures forall k :: k in m && k != result ==> r[k] == m[k]
  {
    m[result := m[result] + 1]
  }

  /** The counters after the given updates, in order, on fresh totals. */
  function Tally(results: seq<string>): (r: map<string, nat>)
    requires forall i :: 0 <= i < |results| ==> results[i] in Labels
    ensures r.Keys == Labels
  {
    if results == [] then Zero()
    else Bump(Tally(results[..|results| - 1]), results[|results| - 1])
  }

  /** Each counter is the number of updates made with its key. */
  lemma {:induction false} TallyCounts(results: seq<string>)
    requires forall i :: 0 <= i < |results| ==> results[i] in Labels
    ensures forall k :: k in Labels ==> Tally(results)[k] == multiset(results)[k]
  {
    if results != [] {
      var init := results[..|results| - 1];
      TallyCounts(init);
      assert results == init + [results[|results| - 1]];
    }
  }

  /** Counters never decrease: later updates only add to them. */
  lemma TallyMonotone(results: seq<string>, more: seq<string>)
    requires forall i :: 0 <= i < |results| ==> results[i] in Labels
    requires forall i :: 0 <= i < |more| ==> more[i] in Labels
    ensures forall k :: k in Labels ==> Tally(results)[k] <= Tally(results + more)[k]
  {
    var all := results + more;
    assert forall i :: 0 <= i < |all| ==> all[i] in Labels;
    TallyCounts(results);
    TallyCounts(all);
    assert multiset(all) == multiset(results) + multiset(more);
  }

  class GameStats {
    var stats: map<string, nat>
    /** The updates made so far, oldest first. */
    ghost var results: seq<string>

    ghost predicate Valid()
      reads this
    {
      (forall i :: 0 <= i < |results| ==> results[i] in Labels) &&
      stats == Tally(results)
    }

    constructor ()
      ensures Valid() && results == [] && stats == Zero()
    {
      stats := Zero();
      results := [];
    }

    /** `update(result)`; a key other than 'X', 'O' or 'Tie' raises KeyError
        in the source, so the key must be one of them. */
    method Update(result: string)
      requires Valid() && result in stats
      modifies this
      ensures Valid() && results == old(results) + [result]
      ensures stats == Bump(old(stats), result)
    {
      stats := stats[result := stats[result] + 1];
      results := results + [result];
      assert results[..|results| - 1] == old(results);
    }
  }
}
