/** The glue at the bottom of the script (lines 109-120): the scroll budget
    is a quarter of the tweet limit, and the scraper built from it collects
    the posts. The Streamlit form, the login and the browser are not part of
    this model; the snapshots the browser would deliver are the `page`
    parameter. */
module App {
  import opened Text
  import opened Cleanup
  import opened Scraper

  /** `tweet_limit // 4`: Python's floor division, which for the divisor 4
      agrees with Dafny's Euclidean `/` on every integer. */
  function ScrollBudget(tweetLimit: int): (r: int)
    ensures 4 * r <= tweetLimit < 4 * r + 4
  {
    tweetLimit / 4
  }

  /** Floor division by 4 is the only value with that property. */
  lemma ScrollBudgetUnique(tweetLimit: int, r: int)
    requires 4 * r <= tweetLimit < 4 * r + 4
    ensures r == ScrollBudget(tweetLimit)
  {
  }

  /** The limits the form offers (10 to 200) give budgets from 2 to 50. */
  lemma ScrollBudgetForForm(tweetLimit: int)
    requires 10 <= tweetLimit <= 200
    ensures 2 <= ScrollBudget(tweetLimit) <= 50
    ensures ScrollBudget(10) == 2 && ScrollBudget(50) == 12 && ScrollBudget(200) == 50
  {
  }

  /** Lines 110, 118 and 120 without the login: a fresh scraper for
      `handle` with the budget derived from `tweetLimit` collects at most
      `tweetLimit` distinct posts, exactly those of the reference crawl. */
  method FetchTweets(handle: string, tweetLimit: int, hash: string -> int,
                     page: nat -> seq<string>)
    returns (tweets: seq<string>)
    requires tweetLimit >= 1
    ensures var o := Crawl(page, 0, ScrollBudget(tweetLimit), "@" + handle, tweetLimit, hash, Tally([], {}));
      tweets == o.tally.texts
    ensures |tweets| <= tweetLimit
    ensures NoDuplicates(tweets)
  {
    var scraper := new TwitterScraper(handle, tweetLimit, ScrollBudget(tweetLimit), hash);
    tweets := scraper.GetTweets(page);
    ConsistentNoDuplicates(scraper.Collected(), hash);
  }

  /** A non-empty word of lower-case ASCII letters. */
  predicate LowerWord(w: string) {
    w != [] && forall k :: 0 <= k < |w| ==> 'a' <= w[k] <= 'z'
  }

  /** A post of lower-case letters is stored unchanged. */
  lemma LetterPost(w: string)
    requires LowerWord(w)
    ensures PostText([w]) == w
    ensures w != Dot
    ensures forall h: string :: h != [] && h[0] == '@' ==> w != h
  {
    assert Join([w], " ") == w;
    assert TrimStart(w) == w;
    assert TrimEnd(w) == w;
    CleanNoMatch(w);
    assert w[0] != Dot[0];
  }

  /** The end-to-end run for the handle "alice" with a limit of 50: three
      snapshots, each holding one post block (the post, a middle dot, the
      handle), and nothing after them. The budget is 12 snapshots; the three
      posts are collected in order and the crawl ends because the budget
      runs out, not because the limit is reached. */
  lemma {:induction false} AliceScenario(a: string, b: string, c: string,
                                         page: nat -> seq<string>, hash: string -> int)
    requires LowerWord(a) && LowerWord(b) && LowerWord(c)
    requires page(0) == [a, Dot, "@alice"] && page(1) == [b, Dot, "@alice"]
             && page(2) == [c, Dot, "@alice"]
    requires forall k: nat :: 3 <= k ==> page(k) == []
    requires hash(a) != hash(b) && hash(a) != hash(c) && hash(b) != hash(c)
    ensures Crawl(page, 0, ScrollBudget(50), "@alice", 50, hash, Tally([], {}))
            == Outcome(Tally([a, b, c], {hash(a), hash(b), hash(c)}), 12, 12)
  {
    assert ScrollBudget(50) == 12;
    var h := "@alice";
    assert h[0] == '@' && h != Dot;
    var t0 := Tally([], {});
    var t1 := Tally(t0.texts + [a], t0.ids + {hash(a)});
    var t2 := Tally(t1.texts + [b], t1.ids + {hash(b)});
    var t3 := Tally(t2.texts + [c], t2.ids + {hash(c)});
    AliceStep(page, h, hash, 0, a, t0, t1);
    AliceStep(page, h, hash, 1, b, t1, t2);
    AliceStep(page, h, hash, 2, c, t2, t3);
    AliceTail(page, h, hash, 3, t3);
    assert t3.texts == [a, b, c];
    assert t3.ids == {hash(a), hash(b), hash(c)};
  }

  /** One snapshot with a single post block. */
  lemma AliceStep(page: nat -> seq<string>, handle: string, hash: string -> int, k: nat,
                  w: string, t: Tally, t': Tally)
    requires handle != [] && handle[0] == '@' && handle != Dot
    requires k < 12 && page(k) == [w, Dot, handle] && LowerWord(w)
    requires |t.texts| < 49 && hash(w) !in t.ids
    requires t' == Tally(t.texts + [w], t.ids + {hash(w)})
    ensures Crawl(page, k, 12, handle, 50, hash, t)
            == Crawl(page, k + 1, 12, handle, 50, hash, t')
  {
    LetterPost(w);
    SingleBlock(page(k), w, handle, hash, t, t');
  }

  /** Scanning `[w, Dot, handle]` records `w` alone. */
  lemma SingleBlock(segs: seq<string>, w: string, handle: string, hash: string -> int,
                    t: Tally, t': Tally)
    requires segs == [w, Dot, handle] && w != Dot && w != handle && handle != Dot
    requires PostText([w]) == w
    requires |t.texts| < 49 && hash(w) !in t.ids
    requires t' == Tally(t.texts + [w], t.ids + {hash(w)})
    ensures Scan(segs, handle, 50, hash, t, []) == ScanResult(t', false)
  {
    assert segs[1..] == [Dot, handle] && segs[1..][1..] == [handle] && segs[1..][1..][1..] == [];
    assert Record(t, PostText([w]), hash) == t';
    assert Scan([handle], handle, 50, hash, t, [w]) == ScanResult(t', false);
    assert Scan(segs[1..], handle, 50, hash, t, [w]) == ScanResult(t', false);
    assert [] + [segs[0]] == [w];
  }

  /** The empty snapshots that follow change nothing until the budget is
      used up. */
  lemma {:induction false} AliceTail(page: nat -> seq<string>, handle: string, hash: string -> int,
                                     k: nat, t: Tally)
    requires 3 <= k <= 12 && |t.texts| < 50
    requires forall i: nat :: 3 <= i ==> page(i) == []
    ensures Crawl(page, k, 12, handle, 50, hash, t) == Outcome(t, 12, 12)
    decreases 12 - k
  {
    if k < 12 {
      assert page(k) == [];
      AliceTail(page, handle, hash, k + 1, t);
    }
  }
}
