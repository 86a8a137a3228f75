/**
 * The route handlers' work on the store: `cast_vote` (look up, copy, count,
 * insert back under the copy's slug), `next_president` (any key), and the
 * read-only lookups behind `vote` and `stats`. Each handler holds the store's
 * mutex for its whole body, so each is one step here.
 */
module Service {
  import opened Models

  /** The `match adj` of `cast_vote`: "hot" and "not" count, anything else is ignored. */
  function ApplyVote(p: President, adj: string): (q: President)
    ensures q.name == p.name && q.details == p.details && q.images == p.images
    ensures adj == "hot" ==> q.hot == p.hot + 1 && q.not == p.not
    ensures adj == "not" ==> q.not == p.not + 1 && q.hot == p.hot
    ensures adj != "hot" && adj != "not" ==> q == p
  {
    if adj == "hot" then HotVote(p)
    else if adj == "not" then NotVote(p)
    else p
  }

  /**
   * The store after `cast_vote(id, adj)`: the counted copy of `id`'s record
   * is inserted under the copy's slug, whatever key it was found under.
   */
  function AfterVote(m: map<string, President>, id: string, adj: string): (r: map<string, President>)
    requires id in m
    ensures var slug := ShortName(m[id]);
      && slug in r && r[slug] == ApplyVote(m[id], adj)
      && (forall k :: k != slug ==> (k in r <==> k in m) && (k in m ==> r[k] == m[k]))
  {
    var president := ApplyVote(m[id], adj);
    m[ShortName(president) := president]
  }

  /** `cast_vote`; an `id` that is not in the store makes the `unwrap` panic, so it is excluded. */
  method CastVote(store: Presidents, id: string, adj: string)
    requires id in store.entries
    modifies store
    ensures store.entries == AfterVote(old(store.entries), id, adj)
  {
    var president := store.entries[id];
    if adj == "hot" {
      president := HotVote(president);
    } else if adj == "not" {
      president := NotVote(president);
    }
    store.entries := store.entries[ShortName(president) := president];
  }

  /** In a slug-keyed store the vote lands on `id` itself and nothing else changes. */
  lemma CastVoteOnSlugKey(m: map<string, President>, id: string, adj: string)
    requires SlugKeyed(m) && id in m
    ensures AfterVote(m, id, adj) == m[id := ApplyVote(m[id], adj)]
    ensures AfterVote(m, id, adj).Keys == m.Keys
    ensures SlugKeyed(AfterVote(m, id, adj))
  {
    assert ShortName(m[id]) == id;
  }

  /**
   * A key that is not its record's slug (such as one `load_state` created for
   * an unknown key, whose default record has the empty name) does not see the
   * vote: the counted copy goes under the slug and the entry under `id` stays.
   */
  lemma VoteMisfiled(m: map<string, President>, id: string, adj: string)
    requires id in m && ShortName(m[id]) != id
    ensures id in AfterVote(m, id, adj) && AfterVote(m, id, adj)[id] == m[id]
    ensures AfterVote(m, id, adj)[ShortName(m[id])] == ApplyVote(m[id], adj)
  {
  }

  /**
   * A tally line for a key the store does not hold leaves a nameless
   * placeholder under that key; a vote cast on it is filed under the empty
   * slug instead, and the placeholder's counts stay as loaded.
   */
  lemma PlaceholderMisfilesVotes(m: map<string, President>, line: string, adj: string)
    requires ParseLine(line).Counts? && LineKey(line) !in m && LineKey(line) != ""
    ensures var s, k := LoadLine(m, line).entries, LineKey(line);
      && k in s && s[k].name == ""
      && AfterVote(s, k, adj)[k] == s[k]
      && "" in AfterVote(s, k, adj) && AfterVote(s, k, adj)[""] == ApplyVote(s[k], adj)
  {
    var s, k := LoadLine(m, line).entries, LineKey(line);
    assert s[k].name == "";
    assert ShortName(s[k]) == "";
    VoteMisfiled(s, k, adj);
  }

  /** Counts `adj` among the votes. */
  function Count(adjs: seq<string>, adj: string): (n: nat)
    ensures n <= |adjs|
  {
    if adjs == [] then 0 else (if adjs[0] == adj then 1 else 0) + Count(adjs[1..], adj)
  }

  /** The record after the votes `adjs`, first to last. */
  function ApplyVotes(p: President, adjs: seq<string>): President
    decreases |adjs|
  {
    if adjs == [] then p else ApplyVotes(ApplyVote(p, adjs[0]), adjs[1..])
  }

  /** After a run of votes, `hot` and `not` have grown by the "hot" and "not" votes, and the score by their difference. */
  lemma {:induction false} VotesTally(p: President, adjs: seq<string>)
    ensures var q := ApplyVotes(p, adjs);
      && q.name == p.name && q.details == p.details && q.images == p.images
      && q.hot == p.hot + Count(adjs, "hot")
      && q.not == p.not + Count(adjs, "not")
      && Score(q) == Score(p) + Count(adjs, "hot") - Count(adjs, "not")
    decreases |adjs|
  {
    if adjs != [] {
      VotesTally(ApplyVote(p, adjs[0]), adjs[1..]);
    }
  }

  /** From zero counts, the score is the number of "hot" votes minus the number of "not" votes. */
  lemma ScoreFromZero(adjs: seq<string>)
    ensures Score(ApplyVotes(DefaultPresident(), adjs)) == Count(adjs, "hot") - Count(adjs, "not")
  {
    VotesTally(DefaultPresident(), adjs);
  }

  /** The store after the votes `adjs` were cast on `id` one request after the other. */
  function CastAll(m: map<string, President>, id: string, adjs: seq<string>): map<string, President>
    requires SlugKeyed(m) && id in m
    decreases |adjs|
  {
    if adjs == [] then m
    else
      CastVoteOnSlugKey(m, id, adjs[0]);
      CastAll(AfterVote(m, id, adjs[0]), id, adjs[1..])
  }

  /** Votes on a slug-keyed store accumulate on the voted record alone. */
  lemma {:induction false} CastAllTally(m: map<string, President>, id: string, adjs: seq<string>)
    requires SlugKeyed(m) && id in m
    ensures CastAll(m, id, adjs) == m[id := ApplyVotes(m[id], adjs)]
    decreases |adjs|
  {
    if adjs != [] {
      CastVoteOnSlugKey(m, id, adjs[0]);
      var m1 := AfterVote(m, id, adjs[0]);
      CastAllTally(m1, id, adjs[1..]);
      assert m1[id := ApplyVotes(m1[id], adjs[1..])] == m[id := ApplyVotes(m[id], adjs)];
    }
  }

  /** `next_president`: some key of the store, chosen freely; an empty store makes the `unwrap` panic. */
  method NextPresident(store: Presidents) returns (id: string)
    requires |store.entries| > 0
    ensures id in store.entries
  {
    var keys := store.entries.Keys;
    assert |keys| > 0;
    id :| id in keys;
  }

  /** What the `vote` and `stats` handlers answer: a rendered page, or the redirect to the error page. */
  datatype Page<T> = Render(view: T) | ErrorRedirect

  datatype VoteView = VoteView(name: string, shortName: string, imageUrl: string)

  datatype StatsView = StatsView(name: string, imageUrl: string, hot: nat, not: nat)

  /** `vote`: the voting page for a present id. */
  function Vote(m: map<string, President>, id: string): (r: Page<VoteView>)
    ensures r.Render? <==> id in m
    ensures id in m ==> r.view.name == m[id].name && r.view.shortName == ShortName(m[id])
  {
    if id in m then Render(VoteView(m[id].name, ShortName(m[id]), ImageUrl(m[id])))
    else ErrorRedirect
  }

  /** `stats`: the counts of a present id. */
  function Stats(m: map<string, President>, id: string): (r: Page<StatsView>)
    ensures r.Render? <==> id in m
    ensures id in m ==> r.view.name == m[id].name && r.view.hot == m[id].hot && r.view.not == m[id].not
  {
    if id in m then Render(StatsView(m[id].name, ImageUrl(m[id]), m[id].hot, m[id].not))
    else ErrorRedirect
  }

  /**
   * In a slug-keyed store, the stats page that `cast_vote` redirects to shows
   * the counted vote; on a key that is not its record's slug it shows the old counts.
   */
  lemma StatsAfterVote(m: map<string, President>, id: string, adj: string)
    requires id in m
    ensures var before, after := Stats(m, id), Stats(AfterVote(m, id, adj), id);
      && after.Render? && after.view.name == before.view.name
      && (SlugKeyed(m) ==>
            && after.view.hot == before.view.hot + (if adj == "hot" then 1 else 0)
            && after.view.not == before.view.not + (if adj == "not" then 1 else 0))
      && (ShortName(m[id]) != id ==> after == before)
  {
    if SlugKeyed(m) {
      CastVoteOnSlugKey(m, id, adj);
    }
  }
}
